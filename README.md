# LibSearcher in Dafny

LibSearcher cross-checks a Goodreads reading list against the Chicago Public
Library catalogue. For each title it works out whether the Harold Washington
Library Center holds it, and if so on which floor.

The script works like this:

- It takes the records in a shuffled order.
- It builds a catalogue search URL from the percent-encoded `title + " " + author`.
- If the results page has a call number, it takes the first call number, title, author and availability link on the page. These are found one by one and need not belong to the same result.
- It extracts the availability reference ID from that link.
- It fetches the availability JSON for that ID.
- It picks the `collection` (floor) of the first item at the branch, or "Floor Not Found".
- It stops once 10 titles were found (`Collector.StopAfter`; the model takes the cap as a parameter).
- It sorts the rows by floor, descending.
- It prints a tab-separated, column-aligned table, or an apology when nothing was found.

This project models that pipeline and proves what each step promises.

| module (file) | what it models |
|---|---|
| `Wrappers` (wrappers.dfy) | `Option` and `Result` |
| `Text` (text.dfy) | substring search (`str.split(sep, 1)`), Python's string order, `'{:w}'.format` padding, `str.join` |
| `Quote` (quote.dfy) | `urllib.parse.quote`: UTF-8 encoding, then percent-encoding of every byte that is not a letter, a digit or one of `_.-~/`, with upper-case hex digits; and its inverse |
| `Catalog` (catalog.dfy) | the URL constants, the reference-ID split, the floor lookup `getFloorOnLibraryBookIsOn` |
| `Collector` (collector.dfy) | the main loop with its cap |
| `FloorSort` (floorsort.dfy) | `sorted(key=floor, reverse=True)` |
| `Table` (table.dfy) | the table rendering and the apology |
| `Searcher` (searcher.dfy) | the whole run, from the records to the printed text |
| `Scenarios` (scenarios.dfy) | concrete worked examples |

**How the web is modelled.** The two HTTP services become a `Catalog.Catalog` value holding two functions:

- `search` maps a search URL to `None` when the results page has no call number. Otherwise it gives the first call number, title, author and availability link on the page, which need not belong to the same result.
- `availability` maps an availability URL to the JSON's `items` list, one item list per group.

The model is a function of those answers. Every operation is stated for all catalogues.

**Errors.** Two Python exceptions abort the script before anything is printed. Both are modelled as a `Result` error:

- `Catalog.Error.NoReferenceId`: the link has no `availability/`, so `split(...)[1]` raises `IndexError`.
- `Catalog.Error.NoAvailabilityGroup`: the `items` list is empty, so `[0]` raises `IndexError`.

**Where the model follows the code over its description:**

- The cap is checked after every record, not only after an append. With a cap of 0, a first record without a match stops the loop after that one record. A first record with a match makes the count pass the cap, and the loop runs to the end (`Collector.CollectWithZeroCap`).
- The two failures above end the run with an exception. The script does not always finish normally.
- Floors are compared as strings, not as numbers, so "3" comes before "10" in the descending order (`Scenarios.StringOrderOfFloors`).
- `'{:w}'` left-justifies: it pads each cell on the right. Every cell is padded, the last column's included.

## Model

| member | source | states |
|---|---|---|
| Text.IndexOf | LibSearcher.py:43 | finds the first occurrence of the separator; `None` exactly when there is none |
| Catalog.ReferenceId | LibSearcher.py:43 | error exactly when the link lacks `availability/`; otherwise the link is `prefix + "availability/" + id`, with that being the first occurrence |
| Catalog.FloorUrl | LibSearcher.py:44 | the URL is the gateway prefix, the reference ID and `?locale=en-US`, in that order |
| Catalog.FloorOf | LibSearcher.py:40-52 | definition, without a contract of its own: the floor lookup as a value (split, request, first group, scan); `FloorOfBook` states its cases |
| Catalog.FirstBranchCollection | LibSearcher.py:48-52 | definition, without a contract of its own: the scan of one group as a value; `Catalog.FirstBranchCollectionIsFirstMatch` states its cases |
| Catalog.FirstBranchCollectionIsFirstMatch | LibSearcher.py:48-52 | the floor is the collection of the first item whose branch is the Harold Washington Library Center; "Floor Not Found" when no item is |
| Catalog.ResolveFloor | LibSearcher.py:48-52 | the loop with an early return computes that first-match floor, or "Floor Not Found" |
| Catalog.FloorOfBook | LibSearcher.py:40-52 | fails exactly when the link has no reference ID or the availability list has no group; otherwise gives the first-match floor of group 0 |
| Catalog.SearchUrl | LibSearcher.py:55-56 | the URL is the search prefix, then the quoted `title + " " + author`, then the suffix |
| Catalog.SearchUrlInjective | LibSearcher.py:55-56 | two records get the same search URL exactly when their `title + " " + author` texts are equal |
| Catalog.SearchQuerySplits | LibSearcher.py:55-56 | the query is the quoted title, then `%20`, then the quoted author |
| Quote.Quote | LibSearcher.py:55 | definition, without a contract of its own: `urllib.parse.quote` as UTF-8 encoding followed by percent-encoding byte by byte (`QuoteByte` states the per-byte rule); the lemmas below give its properties |
| Quote.QuoteRoundTrip | LibSearcher.py:55 | percent-decoding and UTF-8 decoding the quoted text gives the text back |
| Quote.QuoteInjective | LibSearcher.py:55 | distinct texts are quoted differently |
| Quote.QuoteBytesAlphabet | LibSearcher.py:55 | quoted text consists only of safe characters, `%` and upper-case hex digits |
| Quote.QuoteAppend | LibSearcher.py:55 | quoting distributes over concatenation |
| Quote.QuoteSafeIdentity | LibSearcher.py:55 | a text of safe characters is left unchanged |
| Quote.Utf8RoundTrip | LibSearcher.py:55 | decoding the UTF-8 encoding of a text gives the text back |
| Collector.Lookup | LibSearcher.py:55-69 | definition, without a contract of its own: one record's outcome as a value (no row without a call number, the floor lookup's error, or the row from the page's texts and the floor) |
| Collector.SearchRecord | LibSearcher.py:55-69 | one iteration: no row without a call number; the floor lookup's error, or the row built from the hit and its floor |
| Collector.Collect | LibSearcher.py:54-71 | definition, without a contract of its own: the capped loop as a value, the cap tested after every record; the lemmas below give its properties |
| Collector.CollectMatches | LibSearcher.py:54-71 | the loop computes `Collect`: it stops at the first failure, or after the first record at which the row count equals the cap |
| Collector.CollectIsCappedPrefix | LibSearcher.py:54-71 | a completed run's rows are the matches of the records it processed, in order; it stopped early only because the count equalled the cap, and never did so earlier |
| Collector.CollectFailsOnlyOnError | LibSearcher.py:54-71 | a run with no failing lookup completes |
| Collector.CollectRespectsCap | LibSearcher.py:54-71 | with a cap of at least 1: at most cap rows; an early stop has exactly cap rows, the last record processed being a match; fewer than cap rows means every record was processed |
| Collector.CollectStopsAfterTen | LibSearcher.py:30 | with the script's cap of 10: at most 10 rows, and exactly 10 when the run stops before the end of the list |
| Collector.CollectWithZeroCap | LibSearcher.py:70-71 | cap 0: a first record without a match ends the run after one record with no rows; a first record with a match makes the run process every record |
| Collector.CollectStopsAtCap | LibSearcher.py:54-71 | when the first cap records are all found, the run keeps exactly their rows and processes exactly cap records, whatever the later records (misses, failing lookups) hold |
| Collector.CollectNoHits | LibSearcher.py:54-71 | when no record is found, the run completes with no rows |
| FloorSort.SortByFloor | LibSearcher.py:74 | definition, without a contract of its own: the sort, an insertion sort from the back so that earlier rows stay first among equal floors; the three lemmas below give its properties |
| FloorSort.SortIsDescendingPermutation | LibSearcher.py:74 | the sorted rows are non-increasing in floor under Python's string order and are a permutation of the input |
| FloorSort.SortIsStable | LibSearcher.py:74 | rows on the same floor keep their relative order |
| FloorSort.StableSortIsUnique | LibSearcher.py:74 | any descending arrangement that keeps each floor's rows in input order is exactly the sort's result |
| FloorSort.InsertOnFloor | LibSearcher.py:74 | inserting a row puts it first among the rows of its floor and leaves the other floors alone |
| Text.StrLe | LibSearcher.py:74 | definition, without a contract of its own: Python's `<=` on `str`, lexicographic by code point with a proper prefix first; the order the sort compares floors with; `Text.StrLeTotal` and the lemmas beside it give its properties |
| Text.StrLeTotal | LibSearcher.py:74 | Python's string order is total (with reflexivity, antisymmetry and transitivity in the lemmas beside it) |
| Text.Join | LibSearcher.py:80-82 | definition, without a contract of its own: `sep.join(parts)`; its layout with a one-character separator is `Table.JoinLayout` |
| Table.JoinLayout | LibSearcher.py:80-82 | joining with a one-character separator: the length is the parts' lengths plus one per gap; part `k` sits at `PartStart(parts, k)` and is followed by the separator unless it is the last |
| Text.PadRight | LibSearcher.py:80-81 | `'{:w}'` output: the text, then spaces up to width `w`; never truncated |
| Table.FormatLine | LibSearcher.py:80-81 | definition, without a contract of its own: `fmt.format(*row)`, each cell padded to its width and joined by tabs; `Table.FormatLineLayout` gives its layout |
| Table.Render | LibSearcher.py:78-82 | definition, without a contract of its own: the cells of line 78 (`Table.Cells`), the widths of line 79 (`Table.Widths`) and the formatted lines joined by newlines; `Table.RenderLayout`, `Table.RenderAligned` and `Table.RenderTabAfterCell` give its layout |
| Table.Report | LibSearcher.py:76-84 | definition, without a contract of its own: the table of the rows when there are any, otherwise the apology; `Table.ReportIsSorryIffEmpty` states the choice |
| Table.Cells | LibSearcher.py:78 | `[str(e) for e in row]`, a definition whose contract says only that a row has four cells: title, author, call number and floor, in that order |
| Table.Widths | LibSearcher.py:79 | `lens`: one width per column, each equal to that column's `Table.ColumnWidth` |
| Table.ColumnWidth | LibSearcher.py:79 | the width of a column is at least the length of each of its cells |
| Table.ColumnWidthAttained | LibSearcher.py:79 | the width of a column is the length of one of its cells, so the longest |
| Table.FormatLineLayout | LibSearcher.py:80-81 | a line is each cell padded to its column's width, at offset `Sum(widths[..j]) + j`, with one tab between cells |
| Table.RenderLayout | LibSearcher.py:78-82 | line `i` of the printed table is the formatted row `i`, at `i * (L + 1)`; lines are separated by newlines |
| Table.RenderAligned | LibSearcher.py:78-82 | cell `j` of every row starts at the same column offset and is padded with spaces to the width of column `j` |
| Table.RenderTabAfterCell | LibSearcher.py:80-81 | a tab follows every padded cell but the last in its row |
| Table.ReportIsSorryIffEmpty | LibSearcher.py:76-84 | the apology is printed exactly when there are no rows |
| Searcher.Output | LibSearcher.py:54-84 | definition, without a contract of its own: the run as a value, the loop's error or the report of the sorted rows; the lemmas below state its cases |
| Searcher.SearchReadingList | LibSearcher.py:54-84 | the run's printed text or error is `Output`: the loop, the sort, the report |
| Searcher.SorryIffNothingCollected | LibSearcher.py:76-84 | the run fails exactly when the loop fails; it prints the apology exactly when the loop collected no row |
| Searcher.NoHitsPrintsSorry | LibSearcher.py:54-84 | when no record is found, the apology is printed |
| Searcher.CapLimitsReport | LibSearcher.py:54-84 | when the first cap records are all found, the report is the sorted rows of those records, whatever the later records hold |
| Scenarios.ExampleReport | LibSearcher.py:78-82 | a two-row table with its exact padding and separators |
| Scenarios.StringOrderOfFloors | LibSearcher.py:74 | floor "3" sorts above "10", and rows on the same floor keep their order |

## Left out

- Reading the CSV with pandas is not modelled. The records are given as a sequence of title/author pairs.
- The shuffle (`sample(frac=1)`) is not modelled. The records are given in the order the loop processes them, and every lemma holds for any order.
- The HTTP requests, the HTML parsing (BeautifulSoup) and the JSON parsing are not modelled. The catalogue's answers are the `Catalog` function fields.
- `.strip()` on the scraped texts is left out. The hit's fields are taken as already stripped.
- A missing title, author or link element in a page with a call number would make `find(...)` return `None` and raise `AttributeError`. That case is not modelled: a hit always carries all four fields.
- The availability answer is taken as groups of items whose `branchName` and `collection` are strings. A missing or malformed JSON field is therefore not modelled. In the script:
  - a missing top-level `items` key, or a missing `items` key in the first group, raises `KeyError`; later groups are never read;
  - a missing `branchName` raises `KeyError` only if the scan reaches that item;
  - a missing `collection` raises only on the first item at the branch, and keys of items after it are never read;
  - a non-string `collection`, such as JSON `null`, is returned as is; `str(e)` then prints it (`None`), and the sort raises `TypeError` only if it has to compare that floor with one it cannot be ordered against.
- An empty cell in the CSV is read by pandas as NaN (a float), and `row['Title'] + " " + row['Author']` then raises `TypeError`. `Catalog.ListRecord` holds strings only, so this path is not modelled.
- `print` is not modelled: `Searcher.Output` is the printed text without `print`'s final newline.
- Quote.Unquote: it accepts more than `Quote` produces. It does not reject over-long UTF-8 forms or unescaped unsafe characters. It serves only as the partner for the round-trip and injectivity proofs.
- Only the default `safe='/'` of `urllib.parse.quote` is modelled.
- Lone surrogates are not modelled. A Python string may hold them, and `quote` then raises `UnicodeEncodeError`. Dafny's `char` is a Unicode scalar value, so such strings cannot be expressed.
- Text.PadRight follows Python 3.10 and later. A column whose cells are all empty has width 0 and the field `'{:0}'`; from 3.10 on it prints the empty cell, as modelled. On Python 3.9 and earlier `'{:0}'.format('')` raises `ValueError` (`'=' alignment not allowed in string format specifier`), which would abort the script before printing. That error path is not modelled.
