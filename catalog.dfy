/** The two catalog lookups of the searcher: the search URL built from a
    reading-list record, the reference ID cut out of the results
    page's first availability link, and the scan of the availability items for the
    target branch's floor. The HTTP responses are given as data: a
    `Catalog` maps each URL the searcher requests to what it gets back. */
module Catalog {
  import opened Wrappers
  import opened Text
  import Quote

  /** The branch whose floors are reported; it also scopes the search. */
  const Branch: string := "Harold Washington Library Center"
  const SearchUrlStart: string := "https://chipublib.bibliocommons.com/v2/search?custom_edit=false&query=anywhere%3A("
  const SearchUrlEnd: string := ")%20%20%20avlocation%3A%22Harold%20Washington%20Library%20Center%22%20formatcode%3A(BK%20)&searchType=bl&suppress=true"
  const FloorUrlStart: string := "https://gateway.bibliocommons.com/v2/libraries/chipublib/availability/"
  const FloorUrlEnd: string := "?locale=en-US"
  /** The text the availability link is split at. */
  const Marker: string := "availability/"
  const FloorNotFound: string := "Floor Not Found"

  /** One row of the reading list. */
  datatype ListRecord = ListRecord(title: string, author: string)

  /** What a results page with a call number yields: the first call number,
      the first title, the first author link and the first availability link
      on the page (texts stripped, the link's `href`). Each is found on its
      own, so they need not belong to the same result. */
  datatype SearchHit = SearchHit(title: string, author: string, callNumber: string, link: string)

  /** One entry of an availability group: `{branchName, collection}`. */
  datatype BookItem = BookItem(branchName: string, collection: string)

  /** The catalog's answers. `search` gives `None` when the result page has
      no call-number span; `availability` gives the `items` list of the
      JSON document, each group reduced to its own `items` list. */
  datatype Catalog = Catalog(
    search: string -> Option<SearchHit>,
    availability: string -> seq<seq<BookItem>>)

  /** Why a run aborts: the link has no marker to split at, or the
      availability document has no first group. Both are an `IndexError`. */
  datatype Error = NoReferenceId(link: string) | NoAvailabilityGroup(referenceId: string)

  /** The search request for a record: the quoted `title + " " + author`
      placed inside the fixed query template. */
  function SearchUrl(rec: ListRecord): (url: string)
    ensures |url| == |SearchUrlStart| + |Quote.Quote(rec.title + " " + rec.author)| + |SearchUrlEnd|
    ensures url[..|SearchUrlStart|] == SearchUrlStart
    ensures url[|url| - |SearchUrlEnd|..] == SearchUrlEnd
    ensures url[|SearchUrlStart|..|url| - |SearchUrlEnd|] == Quote.Quote(rec.title + " " + rec.author)
  {
    SearchUrlStart + Quote.Quote(rec.title + " " + rec.author) + SearchUrlEnd
  }

  /** Two records ask the same question exactly when their query texts
      agree: the URL loses nothing of `title + " " + author`. */
  lemma SearchUrlInjective(a: ListRecord, b: ListRecord)
    ensures SearchUrl(a) == SearchUrl(b) <==> a.title + " " + a.author == b.title + " " + b.author
  {
    if SearchUrl(a) == SearchUrl(b) {
      var qa := Quote.Quote(a.title + " " + a.author);
      var qb := Quote.Quote(b.title + " " + b.author);
      assert qa == SearchUrl(a)[|SearchUrlStart|..|SearchUrl(a)| - |SearchUrlEnd|];
      assert qb == SearchUrl(b)[|SearchUrlStart|..|SearchUrl(b)| - |SearchUrlEnd|];
      Quote.QuoteInjective(a.title + " " + a.author, b.title + " " + b.author);
    }
  }

  /** The query part is the quoted title, `%20`, and the quoted author. */
  lemma SearchQuerySplits(rec: ListRecord)
    ensures SearchUrl(rec) == SearchUrlStart + Quote.Quote(rec.title) + "%20" + Quote.Quote(rec.author) + SearchUrlEnd
  {
    var title, author := Quote.Quote(rec.title), Quote.Quote(rec.author);
    assert Quote.Quote(rec.title + " " + rec.author) == title + "%20" + author by {
      Quote.QuoteAppend(rec.title + " ", rec.author);
      Quote.QuoteAppend(rec.title, " ");
      Quote.QuoteSpace();
    }
    Regroup(SearchUrlStart, title, "%20", author, SearchUrlEnd);
  }

  /** Regrouping a concatenation, without the long URL constants in view. */
  lemma Regroup(a: string, b: string, c: string, d: string, e: string)
    ensures a + (b + c + d) + e == a + b + c + d + e
  {
  }

  /** `link.split("availability/", 1)[1]`: everything after the first
      occurrence of the marker; no marker, no second part. */
  function ReferenceId(link: string): (r: Result<string, Error>)
    ensures r.Err? <==> forall j :: 0 <= j <= |link| ==> !OccursAt(link, Marker, j)
    ensures r.Err? ==> r.error == NoReferenceId(link)
    ensures r.Ok? ==> exists k: nat ::
      && OccursAt(link, Marker, k)
      && (forall j :: 0 <= j < k ==> !OccursAt(link, Marker, j))
      && link == link[..k] + Marker + r.value
  {
    match IndexOf(link, Marker)
    case None => Err(NoReferenceId(link))
    case Some(k) =>
      assert link == link[..k] + Marker + link[k + |Marker|..];
      Ok(link[k + |Marker|..])
  }

  /** The availability request for a reference ID. */
  function FloorUrl(refId: string): (url: string)
    ensures |url| == |FloorUrlStart| + |refId| + |FloorUrlEnd|
    ensures url[..|FloorUrlStart|] == FloorUrlStart
    ensures url[|url| - |FloorUrlEnd|..] == FloorUrlEnd
    ensures url[|FloorUrlStart|..|url| - |FloorUrlEnd|] == refId
  {
    FloorUrlStart + refId + FloorUrlEnd
  }

  /** The `collection` of the first item on the target branch, or the
      sentinel. */
  function FirstBranchCollection(items: seq<BookItem>): string
  {
    if items == [] then FloorNotFound
    else if items[0].branchName == Branch then items[0].collection
    else FirstBranchCollection(items[1..])
  }

  /** What `FirstBranchCollection` answers: the first match in list order,
      later matches ignored, and the sentinel exactly when nothing matches. */
  lemma {:induction false} FirstBranchCollectionIsFirstMatch(items: seq<BookItem>)
    ensures (forall i :: 0 <= i < |items| ==> items[i].branchName != Branch) ==>
      FirstBranchCollection(items) == FloorNotFound
    ensures forall k :: (0 <= k < |items| && items[k].branchName == Branch
      && (forall i :: 0 <= i < k ==> items[i].branchName != Branch)) ==>
      FirstBranchCollection(items) == items[k].collection
  {
    if items != [] {
      FirstBranchCollectionIsFirstMatch(items[1..]);
      forall k | 0 < k < |items| && items[k].branchName == Branch
        && (forall i :: 0 <= i < k ==> items[i].branchName != Branch)
        ensures FirstBranchCollection(items) == items[k].collection
      {
        assert items[1..][k - 1] == items[k];
        assert forall i :: 0 <= i < k - 1 ==> items[1..][i] == items[i + 1];
      }
    }
  }

  /** The loop of the floor lookup: scan the group's items in order and
      return the first target-branch item's collection. */
  method ResolveFloor(items: seq<BookItem>) returns (floor: string)
    ensures floor == FirstBranchCollection(items)
    ensures (forall i :: 0 <= i < |items| ==> items[i].branchName != Branch) ==> floor == FloorNotFound
    ensures forall k :: (0 <= k < |items| && items[k].branchName == Branch
      && (forall i :: 0 <= i < k ==> items[i].branchName != Branch)) ==> floor == items[k].collection
  {
    FirstBranchCollectionIsFirstMatch(items);
    var i := 0;
    while i < |items|
      invariant 0 <= i <= |items|
      invariant FirstBranchCollection(items[i..]) == FirstBranchCollection(items)
    {
      if items[i].branchName == Branch {
        return items[i].collection;
      }
      assert items[i..][1..] == items[i + 1..];
      i := i + 1;
    }
    floor := FloorNotFound;
  }

  /** The whole floor lookup of a search hit's availability link, as a
      value: the ID, the request, the first group, the scan. */
  function FloorOf(link: string, cat: Catalog): (r: Result<string, Error>)
  {
    match ReferenceId(link)
    case Err(e) => Err(e)
    case Ok(refId) =>
      var groups := cat.availability(FloorUrl(refId));
      if |groups| == 0 then Err(NoAvailabilityGroup(refId))
      else Ok(FirstBranchCollection(groups[0]))
  }

  /** `getFloorOnLibraryBookIsOn`, statement by statement as the script
      runs it (split, request, first group, scan); `FloorOf` is the same
      lookup as a value, for the lemmas. Only the first availability group
      is examined; a missing marker or an empty group list aborts. */
  method FloorOfBook(link: string, cat: Catalog) returns (r: Result<string, Error>)
    ensures r == FloorOf(link, cat)
    ensures r.Err? <==> (ReferenceId(link).Err?
      || |cat.availability(FloorUrl(ReferenceId(link).value))| == 0)
    ensures r.Ok? ==> r.value == FirstBranchCollection(cat.availability(FloorUrl(ReferenceId(link).value))[0])
  {
    var id := ReferenceId(link);
    if id.Err? {
      return Err(id.error);
    }
    var groups := cat.availability(FloorUrl(id.value));
    if |groups| == 0 {
      return Err(NoAvailabilityGroup(id.value));
    }
    var floor := ResolveFloor(groups[0]);
    r := Ok(floor);
  }
}
