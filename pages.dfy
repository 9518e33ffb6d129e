/**
 * The two page callbacks of `InpresSpider`: `parse`, which walks the data rows
 * of one results page, and `get_each_page`, which reads the pagination links
 * of the first results page and asks for each further page.
 */
module Pages {

  import opened Wrappers
  import opened Text
  import opened Coerce
  import opened Dates
  import opened Records

  // ---------------------------------------------------------------------
  // parse: the rows of one page

  /** What one page's walk produced: the records yielded, and the error that
    * ended the walk early, if any. */
  datatype PageResult = PageResult(records: seq<Record>, failure: Option<RowError>)

  /** `rows[1:]`: the first row of class Estilo68 is a label row and is
    * never parsed. */
  function DataRows(rows: seq<Row>): (data: seq<Row>)
    ensures |data| == if rows == [] then 0 else |rows| - 1
    ensures forall i :: 0 <= i < |data| ==> data[i] == rows[i + 1]
  {
    if rows == [] then [] else rows[1..]
  }

  /** What each row's parse gives, row by row. */
  function Outcomes(rows: seq<Row>): (outs: seq<Result<Record, RowError>>)
    ensures |outs| == |rows|
    ensures forall i :: 0 <= i < |rows| ==> outs[i] == ParseRow(rows[i])
  {
    seq(|rows|, i requires 0 <= i < |rows| => ParseRow(rows[i]))
  }

  /** The records a sequence of row outcomes yields: one per outcome, in
    * order, up to the first error, which ends the walk. */
  function TakeRecords(outs: seq<Result<Record, RowError>>): (r: PageResult)
    ensures |r.records| <= |outs|
    ensures forall i :: 0 <= i < |r.records| ==> outs[i] == Ok(r.records[i])
    ensures r.failure.None? ==> |r.records| == |outs|
    ensures r.failure.Some? ==>
      |r.records| < |outs| && outs[|r.records|] == Err(r.failure.value)
  {
    if outs == [] then PageResult([], None)
    else
      match outs[0]
      case Err(e) => PageResult([], Some(e))
      case Ok(rec) =>
        var rest := TakeRecords(outs[1..]);
        PageResult([rec] + rest.records, rest.failure)
  }

  /** Those four facts pin the outcome down: any outcome that yields only
    * the records of the leading good rows, in order, and stops exactly at the
    * first failing row, is the walk's outcome. */
  lemma {:induction false} TakeRecordsDetermined(outs: seq<Result<Record, RowError>>, r: PageResult)
    requires |r.records| <= |outs|
    requires forall i :: 0 <= i < |r.records| ==> outs[i] == Ok(r.records[i])
    requires r.failure.None? ==> |r.records| == |outs|
    requires r.failure.Some? ==>
      |r.records| < |outs| && outs[|r.records|] == Err(r.failure.value)
    ensures r == TakeRecords(outs)
  {
    if outs != [] {
      if |r.records| == 0 {
        assert r.failure.Some?;
      } else {
        var tail := PageResult(r.records[1..], r.failure);
        assert forall i :: 0 <= i < |tail.records| ==> tail.records[i] == r.records[i + 1];
        TakeRecordsDetermined(outs[1..], tail);
        assert r.records == [r.records[0]] + tail.records;
      }
    }
  }

  /** The walk over a page's data rows. */
  function Harvest(rows: seq<Row>): PageResult
  {
    TakeRecords(Outcomes(rows))
  }

  /** The rows after the first failing one never matter. */
  lemma HarvestStopsAtFailure(rows: seq<Row>, more: seq<Row>)
    requires Harvest(rows).failure.Some?
    ensures Harvest(rows + more) == Harvest(rows)
  {
    var outs, outs' := Outcomes(rows), Outcomes(rows + more);
    assert forall i :: 0 <= i < |outs| ==> outs'[i] == outs[i];
    TakeRecordsDetermined(outs', TakeRecords(outs));
  }

  /** The loop of `parse` over the rows' outcomes: one record per good row,
    * stopping at the first row that raised. */
  method Walk(outs: seq<Result<Record, RowError>>) returns (records: seq<Record>, failure: Option<RowError>)
    ensures PageResult(records, failure) == TakeRecords(outs)
  {
    records, failure := [], None;
    var i := 0;
    while i < |outs|
      invariant 0 <= i <= |outs| && |records| == i
      invariant forall k :: 0 <= k < i ==> outs[k] == Ok(records[k])
    {
      match outs[i] {
        case Err(e) =>
          failure := Some(e);
          TakeRecordsDetermined(outs, PageResult(records, failure));
          return;
        case Ok(item) =>
          records := records + [item];
      }
      i := i + 1;
    }
    TakeRecordsDetermined(outs, PageResult(records, failure));
  }

  /** `parse`: the rows of `rows[1:]`, each parsed, then walked. */
  method Parse(rows: seq<Row>) returns (records: seq<Record>, failure: Option<RowError>)
    ensures PageResult(records, failure) == Harvest(DataRows(rows))
  {
    var outs := Outcomes(DataRows(rows));
    records, failure := Walk(outs);
  }

  // ---------------------------------------------------------------------
  // get_each_page: the pagination links of the first page

  /** A pagination anchor, already extracted: its direct text node, if any,
    * and its `href`, if any. */
  datatype Anchor = Anchor(text: Option<string>, href: Option<string>)

  /** One element of the `links` list: the page label and the link. */
  datatype PageLink = PageLink(page: string, href: Option<string>)

  /** What a callback produced before it returned or raised. */
  datatype Emitted = Item(record: Record) | Follow(url: string)

  datatype Raised =
    | NoAnchorText          // AttributeError: `None.split()` on an anchor without text
    | RowRaised(error: RowError)

  datatype Callback = Callback(emitted: seq<Emitted>, raised: Option<Raised>)

  /** `anchors[:-1]`: the last anchor of the pagination cell is not a page. */
  function NavigationAnchors(anchors: seq<Anchor>): (nav: seq<Anchor>)
    ensures |nav| == if anchors == [] then 0 else |anchors| - 1
    ensures forall i :: 0 <= i < |nav| ==> nav[i] == anchors[i]
  {
    if anchors == [] then [] else anchors[..|anchors| - 1]
  }

  /** The comprehension at lines 71-74 over the given anchors: the label is
    * the anchor text with all whitespace removed; an anchor without text
    * raises, and then no list is built. */
  function Labelled(anchors: seq<Anchor>): (r: Option<seq<PageLink>>)
    ensures r.Some? <==> forall i :: 0 <= i < |anchors| ==> anchors[i].text.Some?
    ensures r.Some? ==> |r.value| == |anchors|
    ensures r.Some? ==> forall i :: 0 <= i < |anchors| ==>
      r.value[i] == PageLink(RemoveSpace(anchors[i].text.value), anchors[i].href)
  {
    if anchors == [] then Some([])
    else
      match anchors[0].text
      case None => None
      case Some(t) =>
        match Labelled(anchors[1..])
        case None => None
        case Some(rest) =>
          ConcatWordsRemovesSpace(t);
          Some([PageLink(Concat(Words(t)), anchors[0].href)] + rest)
  }

  /** Lines 70-74: the link list of every anchor but the last. */
  function PageLinks(anchors: seq<Anchor>): (r: Option<seq<PageLink>>)
    ensures r.Some? <==> forall i :: 0 <= i < |anchors| - 1 ==> anchors[i].text.Some?
    ensures r.Some? ==> |r.value| == (if anchors == [] then 0 else |anchors| - 1)
    ensures r.Some? ==> forall i :: 0 <= i < |r.value| ==>
      r.value[i] == PageLink(RemoveSpace(anchors[i].text.value), anchors[i].href)
  {
    Labelled(NavigationAnchors(anchors))
  }

  /** `f"{base_url}/{link['href']}"`; a missing `href` prints as "None". */
  function FollowUrl(href: Option<string>): (url: string)
    ensures |url| > |BaseUrl| && url[..|BaseUrl| + 1] == BaseUrl + "/"
    ensures href.Some? ==> url[|BaseUrl| + 1..] == href.value
    ensures href.None? ==> url[|BaseUrl| + 1..] == "None"
  {
    JoinUrl(match href case Some(h) => h case None => "None")
  }

  /** One follow-up request per link, in the order of the links. */
  function Requests(links: seq<PageLink>): (r: seq<Emitted>)
    ensures |r| == |links|
    ensures forall i :: 0 <= i < |links| ==> r[i] == Follow(FollowUrl(links[i].href))
  {
    seq(|links|, i requires 0 <= i < |links| => Follow(FollowUrl(links[i].href)))
  }

  /** What `get_each_page` produces as written: the requests for the further
    * pages and nothing else, since `self.parse(response)` at line 77 builds
    * a generator that is never iterated. */
  function EachPage(anchors: seq<Anchor>, rows: seq<Row>): (r: Callback)
    ensures forall k :: 0 <= k < |r.emitted| ==> r.emitted[k].Follow?
    ensures r.raised.None? <==>
      forall i :: 0 <= i < |anchors| - 1 ==> anchors[i].text.Some?
    ensures r.raised.Some? ==> r.emitted == [] && r.raised == Some(NoAnchorText)
    ensures r.raised.None? ==>
      && |r.emitted| == (if anchors == [] then 0 else |anchors| - 1)
      && forall i :: 0 <= i < |r.emitted| ==> r.emitted[i] == Follow(FollowUrl(anchors[i].href))
  {
    match PageLinks(anchors)
    case None => Callback([], Some(NoAnchorText))
    case Some(links) => Callback(Requests(links), None)
  }

  /** Whatever the first page's rows are, the callback as written produces
    * the same thing: the rows of the page it was given are never read. */
  lemma EachPageIgnoresRows(anchors: seq<Anchor>, rows: seq<Row>, other: seq<Row>)
    ensures EachPage(anchors, rows) == EachPage(anchors, other)
    ensures forall k :: 0 <= k < |EachPage(anchors, rows).emitted| ==>
      !EachPage(anchors, rows).emitted[k].Item?
  {
  }

  /** The records of a page, as items. */
  function Items(records: seq<Record>): (r: seq<Emitted>)
    ensures |r| == |records|
    ensures forall i :: 0 <= i < |records| ==> r[i] == Item(records[i])
  {
    seq(|records|, i requires 0 <= i < |records| => Item(records[i]))
  }

  /** `get_each_page` with line 77 written `yield from self.parse(response)`:
    * the first page's records come first, a row that raises ends the callback
    * there (so no request is made), and otherwise the requests follow. */
  function EachPageIntended(anchors: seq<Anchor>, rows: seq<Row>): (r: Callback)
    ensures r.raised == Some(NoAnchorText) <==> PageLinks(anchors).None?
    ensures r.raised == Some(NoAnchorText) ==> r.emitted == []
    ensures r.raised.None? <==> PageLinks(anchors).Some? && Harvest(DataRows(rows)).failure.None?
  {
    match PageLinks(anchors)
    case None => Callback([], Some(NoAnchorText))
    case Some(links) =>
      var page := Harvest(DataRows(rows));
      match page.failure
      case Some(e) => Callback(Items(page.records), Some(RowRaised(e)))
      case None => Callback(Items(page.records) + Requests(links), None)
  }

  /** The corrected callback emits exactly the records `parse` yields for the
    * first page, then, when no row raised, the same requests as the callback
    * as written; a missing anchor text still stops it before any of this. */
  lemma IntendedEmitsFirstPage(anchors: seq<Anchor>, rows: seq<Row>)
    ensures var page, r, w := Harvest(DataRows(rows)), EachPageIntended(anchors, rows), EachPage(anchors, rows);
      && (w.raised == Some(NoAnchorText) ==> r == w)
      && (w.raised.None? ==>
            && |r.emitted| >= |page.records|
            && (forall i :: 0 <= i < |page.records| ==> r.emitted[i] == Item(page.records[i]))
            && (page.failure.None? ==> r.raised.None? && r.emitted[|page.records|..] == w.emitted)
            && (page.failure.Some? ==>
                  r.emitted == Items(page.records) && r.raised == Some(RowRaised(page.failure.value))))
  {
    var page, w := Harvest(DataRows(rows)), EachPage(anchors, rows);
    match PageLinks(anchors)
    case None =>
    case Some(links) =>
      var items := Items(page.records);
      assert (items + Requests(links))[|items|..] == Requests(links);
  }

  /** The loop at lines 80-81: one request per link, in order. */
  method YieldRequests(links: seq<PageLink>) returns (emitted: seq<Emitted>)
    ensures emitted == Requests(links)
  {
    emitted := [];
    for i := 0 to |links|
      invariant |emitted| == i
      invariant forall k :: 0 <= k < i ==> emitted[k] == Follow(FollowUrl(links[k].href))
    {
      emitted := emitted + [Follow(FollowUrl(links[i].href))];
    }
  }

  /** `yield from`: each record of the page, in order. */
  method YieldItems(records: seq<Record>) returns (emitted: seq<Emitted>)
    ensures emitted == Items(records)
  {
    emitted := [];
    for i := 0 to |records|
      invariant |emitted| == i
      invariant forall k :: 0 <= k < i ==> emitted[k] == Item(records[k])
    {
      emitted := emitted + [Item(records[i])];
    }
  }

  /** `get_each_page` with the correction of line 77: build the link list,
    * yield the first page's records, then one request per link. */
  method GetEachPage(anchors: seq<Anchor>, rows: seq<Row>) returns (out: Callback)
    ensures out == EachPageIntended(anchors, rows)
  {
    var links := PageLinks(anchors);
    if links.None? {
      return Callback([], Some(NoAnchorText));
    }
    var records, failure := Parse(rows);
    var items := YieldItems(records);
    if failure.Some? {
      return Callback(items, Some(RowRaised(failure.value)));
    }
    var requests := YieldRequests(links.value);
    out := Callback(items + requests, None);
  }

  /** A first page with a header row and one well-formed data row: the
    * corrected callback yields its record, the callback as written yields
    * nothing at all. */
  lemma {:induction false} FirstPageLossWitness(
    header: Row, t: DateTime, lat: string, lng: string, depth: nat, unit: string,
    magnitude: string, intensity: string, province: string,
    prefix: string, id: nat, tail: string, marker: bool, first: string, last: string)
    requires ValidDateTime(t)
    requires unit == [] || IsSpace(unit[0])
    requires '/' !in prefix && (tail == [] || tail[0] == '/')
    requires |ShowNat(depth)| <= MaxIntLength && |ShowNat(id)| <= MaxIntLength
    ensures var link := prefix + "/" + ShowNat(id) + tail;
      var row := Row([first, FormatDate(t.date), FormatClock(t), lat, lng, ShowNat(depth) + unit,
                      magnitude, intensity, province, last], Some(link), marker);
      var rec := Record(id, t, lat, lng, marker, depth, magnitude, intensity, province, JoinUrl(link));
      && EachPage([], [header, row]) == Callback([], None)
      && EachPageIntended([], [header, row]) == Callback([Item(rec)], None)
  {
    var link := prefix + "/" + ShowNat(id) + tail;
    var row := Row([first, FormatDate(t.date), FormatClock(t), lat, lng, ShowNat(depth) + unit,
                    magnitude, intensity, province, last], Some(link), marker);
    var rec := Record(id, t, lat, lng, marker, depth, magnitude, intensity, province, JoinUrl(link));
    DisplayedRowParses(t, lat, lng, depth, unit, magnitude, intensity, province, prefix, id, tail, marker, first, last);
    OneGoodRow(header, row, rec);
  }

  /** On a first page without further pages, a label row and one good row:
    * the callback as written yields nothing, the corrected one the record. */
  lemma OneGoodRow(header: Row, row: Row, rec: Record)
    requires ParseRow(row) == Ok(rec)
    ensures EachPage([], [header, row]) == Callback([], None)
    ensures EachPageIntended([], [header, row]) == Callback([Item(rec)], None)
  {
    HarvestOneGoodRow(header, row, rec);
    assert PageLinks([]) == Some([]);
    assert Items([rec]) + Requests([]) == [Item(rec)];
  }

  lemma HarvestOneGoodRow(header: Row, row: Row, rec: Record)
    requires ParseRow(row) == Ok(rec)
    ensures Harvest(DataRows([header, row])) == PageResult([rec], None)
  {
    assert DataRows([header, row]) == [row];
    var outs := Outcomes([row]);
    assert outs == [Ok(rec)];
    TakeRecordsDetermined(outs, PageResult([rec], None));
  }
}
