/**
 * The event record (`InpresItem`) and the row parser: the body of the loop in
 * `InpresSpider.parse`, which turns one `tr` of the results table into one
 * record or raises.
 */
module Records {

  import opened Wrappers
  import opened Text
  import opened Coerce
  import opened Dates

  /** `InpresSpider.base_url`. */
  const BaseUrl := "http://contenidos.inpres.gob.ar"

  /** `InpresItem` after validation.  `lat`, `lng` and `magnitude` keep the
    * text of their cells (float coercion is not modelled). */
  datatype Record = Record(
    id: int,
    timestamp: DateTime,
    lat: string,
    lng: string,
    felt: bool,
    depth: int,
    magnitude: string,
    intensity: string,
    province: string,
    url: string)

  /** One data row, already extracted from the page: the string value of each
    * `td`, the `href` of the anchor in the last `td` (None when the last `td`
    * holds no anchor with an `href`) and whether the second `td` holds a red
    * `font` marker. */
  datatype Row = Row(tds: seq<string>, href: Option<string>, redMarker: bool)

  /** Why a row raised. The lemmas `ShortRowRaises`, `BadTimestampFirst`,
    * `DepthBeforeLink` and `LinkBeforeCells` show the checks happen in the
    * order the source evaluates the row. */
  datatype RowError =
    | MissingCell(index: nat)     // IndexError on cells[index]
    | BadTimestamp                // ValueError from strptime
    | BlankDepth                  // IndexError: cells[4].split() is empty
    | NoLink                      // AttributeError: the href is None
    | NoIdSegment                 // IndexError: href.split('/') has one part
    | Invalid(fields: seq<string>) // pydantic ValidationError, failing fields in declaration order

  /** `tds[1:-1]`: every cell but the first and the last. */
  function Cells(tds: seq<string>): (cells: seq<string>)
    ensures |cells| == if |tds| >= 2 then |tds| - 2 else 0
    ensures forall i :: 0 <= i < |cells| ==> cells[i] == tds[i + 1]
  {
    if |tds| >= 2 then tds[1..|tds| - 1] else []
  }

  /** `f'{base_url}/{href}'`: the base URL, a slash, then `href` unchanged. */
  function JoinUrl(href: string): (url: string)
    ensures |url| == |BaseUrl| + 1 + |href|
    ensures url[..|BaseUrl| + 1] == BaseUrl + "/"
    ensures url[|BaseUrl| + 1..] == href
  {
    BaseUrl + "/" + href
  }

  /** Lines 96-97: the first whitespace-delimited token of the depth cell;
    * re-splitting and re-joining that token leaves it as it is. */
  function DepthToken(cell: string): (r: Option<string>)
    ensures r.Some? <==> !AllSpace(cell)
    ensures r == FirstWord(cell)
  {
    match FirstWord(cell)
    case None => None
    case Some(w) =>
      WordSplitsToItself(w);
      Some(Concat(Words(w)))
  }

  /** The fields among `id` and `profundidad` that fail integer coercion. */
  function InvalidFields(id: Option<int>, depth: Option<int>): (fields: seq<string>)
    ensures fields == [] <==> id.Some? && depth.Some?
  {
    (if id.None? then ["id"] else []) + (if depth.None? then ["profundidad"] else [])
  }

  /** The validation error names `id` exactly when `id` failed and
    * `profundidad` exactly when the depth failed, nothing else, and `id`
    * first. */
  lemma InvalidFieldsNames(id: Option<int>, depth: Option<int>)
    ensures var fields := InvalidFields(id, depth);
      && ("id" in fields <==> id.None?)
      && ("profundidad" in fields <==> depth.None?)
      && |fields| <= 2
      && (id.None? ==> fields[0] == "id")
      && (forall f :: f in fields ==> f == "id" || f == "profundidad")
  {
    assert "id" != "profundidad";
  }

  /** One iteration of the loop in `parse`: the record built from the row, or
    * the first exception raised while building it. */
  function ParseRow(row: Row): Result<Record, RowError>
  {
    var cells := Cells(row.tds);
    if |cells| < 1 then Err(MissingCell(0))
    else if |cells| < 2 then Err(MissingCell(1))
    else
      match ParseTimestamp(cells[0] + " " + cells[1])
      case None => Err(BadTimestamp)
      case Some(date) =>
        if |cells| < 5 then Err(MissingCell(4))
        else
          match DepthToken(cells[4])
          case None => Err(BlankDepth)
          case Some(depth) => ParseLinked(cells, date, depth, row.href, row.redMarker)
  }

  /** The rest of one iteration once the timestamp and the depth token are
    * read: the detail link, its id segment, the three remaining cells and the
    * two integer fields. */
  function ParseLinked(cells: seq<string>, date: DateTime, depth: string, href: Option<string>,
                       felt: bool): Result<Record, RowError>
    requires |cells| >= 5
  {
    match href
    case None => Err(NoLink)
    case Some(link) =>
      var segments := Split(link, '/');
      if |segments| < 2 then Err(NoIdSegment)
      else if |cells| < 8 then Err(MissingCell(|cells|))
      else
        var id, prof := ParseInt(segments[1]), ParseInt(depth);
        var bad := InvalidFields(id, prof);
        if bad != [] then Err(Invalid(bad))
        else
          Ok(Record(id.value, date, cells[2], cells[3], felt, prof.value,
                    cells[5], cells[6], cells[7], JoinUrl(link)))
  }

  // ---------------------------------------------------------------------
  // Properties of the row parser

  /** What a parsed record is made of: at least ten cells, the timestamp
    * read from the date and clock cells, the text cells verbatim, the marker
    * as `felt`, and a detail link with a slash whose join with the base URL
    * is `url`. A row too short to reach the clock cell raises IndexError. */
  lemma ParseRowFields(row: Row)
    ensures var r := ParseRow(row);
      && (r.Ok? ==> |row.tds| >= 10)
      && (r.Ok? ==> ParseTimestamp(row.tds[1] + " " + row.tds[2]) == Some(r.value.timestamp))
      && (r.Ok? ==> (r.value.lat == row.tds[3] && r.value.lng == row.tds[4]
                     && r.value.magnitude == row.tds[6] && r.value.intensity == row.tds[7]
                     && r.value.province == row.tds[8]))
      && (r.Ok? ==> r.value.felt == row.redMarker)
      && (r.Ok? ==> row.href.Some? && '/' in row.href.value && r.value.url == JoinUrl(row.href.value))
      && (|row.tds| < 4 ==> r.Err? && r.error.MissingCell?)
  {
    var cells := Cells(row.tds);
    if |cells| >= 2 {
      assert cells[0] + " " + cells[1] == row.tds[1] + " " + row.tds[2];
    }
  }

  /** The felt flag is read, never checked: flipping the marker changes
    * nothing but `felt`, and never turns a record into an error. */
  lemma FeltMarkerNeverRaises(row: Row, marker: bool)
    ensures ParseRow(row.(redMarker := marker)).Err? <==> ParseRow(row).Err?
    ensures ParseRow(row).Err? ==> ParseRow(row.(redMarker := marker)) == ParseRow(row)
    ensures ParseRow(row).Ok? ==>
      ParseRow(row.(redMarker := marker)) == Ok(ParseRow(row).value.(felt := marker))
  {
    var cells := Cells(row.tds);
    assert row.(redMarker := marker).tds == row.tds;
    if |cells| >= 5 && ParseTimestamp(cells[0] + " " + cells[1]).Some? && DepthToken(cells[4]).Some? {
      var date, depth := ParseTimestamp(cells[0] + " " + cells[1]).value, DepthToken(cells[4]).value;
      assert ParseRow(row) == ParseLinked(cells, date, depth, row.href, row.redMarker);
      assert ParseRow(row.(redMarker := marker)) == ParseLinked(cells, date, depth, row.href, marker);
      LinkedFelt(cells, date, depth, row.href, row.redMarker, marker);
    }
  }

  /** The marker flag reaches the record and nothing else. */
  lemma LinkedFelt(cells: seq<string>, date: DateTime, depth: string, href: Option<string>,
                   felt: bool, marker: bool)
    requires |cells| >= 5
    ensures var r, r' := ParseLinked(cells, date, depth, href, felt), ParseLinked(cells, date, depth, href, marker);
      && (r.Err? ==> r' == r)
      && (r.Ok? ==> r' == Ok(r.value.(felt := marker)))
  {
  }

  lemma DigitsAreWord(s: string)
    requires |s| >= 1 && forall i :: 0 <= i < |s| ==> IsDigit(s[i])
    ensures IsWord(s) && '/' !in s
  {
    forall i | 0 <= i < |s| ensures !IsSpace(s[i]) && s[i] != '/' {
      assert IsDigit(s[i]);
    }
  }

  lemma SplitHead(head: string, tail: string)
    requires '/' !in head
    requires tail == [] || tail[0] == '/'
    ensures Split(head + tail, '/')[0] == head
  {
    if tail == [] {
      assert head + tail == head;
      SplitNoSep(head, '/');
    } else {
      assert head + tail == head + ['/'] + tail[1..];
      SplitAtFirst(head, '/', tail[1..]);
    }
  }

  /** `href.split('/')` when the second segment is the identifier: the first
    * two parts are the prefix and the identifier, whatever follows a further
    * slash. */
  lemma SplitLink(prefix: string, idText: string, tail: string)
    requires '/' !in prefix && '/' !in idText
    requires tail == [] || tail[0] == '/'
    ensures var parts := Split(prefix + "/" + idText + tail, '/');
      |parts| >= 2 && parts[0] == prefix && parts[1] == idText
  {
    var rest := idText + tail;
    assert prefix + "/" + idText + tail == prefix + ['/'] + rest;
    SplitAtFirst(prefix, '/', rest);
    SplitHead(idText, tail);
  }

  /** A row as the results table displays an event parses back to that
    * event: date and clock in the two formats, the depth as digits followed
    * by a whitespace-led unit (or nothing), the identifier as the second
    * segment of the detail link, and any decorative first and last cells. */
  lemma {:induction false} DisplayedRowParses(
    t: DateTime, lat: string, lng: string, depth: nat, unit: string,
    magnitude: string, intensity: string, province: string,
    prefix: string, id: nat, tail: string, marker: bool, first: string, last: string)
    requires ValidDateTime(t)
    requires unit == [] || IsSpace(unit[0])
    requires '/' !in prefix && (tail == [] || tail[0] == '/')
    requires |ShowNat(depth)| <= MaxIntLength && |ShowNat(id)| <= MaxIntLength
    ensures var link := prefix + "/" + ShowNat(id) + tail;
      ParseRow(Row([first, FormatDate(t.date), FormatClock(t), lat, lng, ShowNat(depth) + unit,
                    magnitude, intensity, province, last], Some(link), marker))
      == Ok(Record(id, t, lat, lng, marker, depth, magnitude, intensity, province, JoinUrl(link)))
  {
    var link := prefix + "/" + ShowNat(id) + tail;
    var row := Row([first, FormatDate(t.date), FormatClock(t), lat, lng, ShowNat(depth) + unit,
                    magnitude, intensity, province, last], Some(link), marker);
    DisplayedCells(t, depth, unit, row.tds[1], row.tds[2], row.tds[5]);
    CellsParse(row, t, depth, prefix, id, tail);
  }

  /** A ten-`td` row whose date and clock cells parse, whose depth cell
    * starts with the depth digits and whose link carries the identifier
    * gives the record of those values. */
  lemma CellsParse(row: Row, t: DateTime, depth: nat, prefix: string, id: nat, tail: string)
    requires |row.tds| == 10
    requires ParseTimestamp(row.tds[1] + " " + row.tds[2]) == Some(t)
    requires DepthToken(row.tds[5]) == Some(ShowNat(depth))
    requires '/' !in prefix && (tail == [] || tail[0] == '/')
    requires |ShowNat(depth)| <= MaxIntLength && |ShowNat(id)| <= MaxIntLength
    requires row.href == Some(prefix + "/" + ShowNat(id) + tail)
    ensures ParseRow(row)
      == Ok(Record(id, t, row.tds[3], row.tds[4], row.redMarker, depth, row.tds[6], row.tds[7],
                   row.tds[8], JoinUrl(row.href.value)))
  {
    var cells := Cells(row.tds);
    assert cells[0] + " " + cells[1] == row.tds[1] + " " + row.tds[2];
    ParseRowStages(row, t, ShowNat(depth));
    DisplayedLinked(cells, t, depth, prefix, id, tail, row.redMarker);
  }

  /** The date, clock and depth cells of a displayed row read back as the
    * timestamp and the depth digits. */
  lemma DisplayedCells(t: DateTime, depth: nat, unit: string, date: string, clock: string, cell: string)
    requires ValidDateTime(t)
    requires unit == [] || IsSpace(unit[0])
    requires date == FormatDate(t.date) && clock == FormatClock(t) && cell == ShowNat(depth) + unit
    ensures ParseTimestamp(date + " " + clock) == Some(t)
    ensures DepthToken(cell) == Some(ShowNat(depth))
  {
    TimestampRoundTrip(t);
    DigitsAreWord(ShowNat(depth));
    FirstWordOfWordThenSpace(ShowNat(depth), unit);
  }

  /** A row whose timestamp parses and whose depth cell has a first token
    * goes on to the link stage with those two values. */
  lemma ParseRowStages(row: Row, date: DateTime, depth: string)
    requires |Cells(row.tds)| >= 5
    requires ParseTimestamp(Cells(row.tds)[0] + " " + Cells(row.tds)[1]) == Some(date)
    requires DepthToken(Cells(row.tds)[4]) == Some(depth)
    ensures ParseRow(row) == ParseLinked(Cells(row.tds), date, depth, row.href, row.redMarker)
  {
  }

  /** The link stage of a displayed row: the identifier segment and the
    * depth digits coerce back to their numbers. */
  lemma DisplayedLinked(cells: seq<string>, t: DateTime, depth: nat, prefix: string, id: nat,
                        tail: string, marker: bool)
    requires |cells| == 8
    requires '/' !in prefix && (tail == [] || tail[0] == '/')
    requires |ShowNat(depth)| <= MaxIntLength && |ShowNat(id)| <= MaxIntLength
    ensures var link := prefix + "/" + ShowNat(id) + tail;
      ParseLinked(cells, t, ShowNat(depth), Some(link), marker)
      == Ok(Record(id, t, cells[2], cells[3], marker, depth, cells[5], cells[6], cells[7], JoinUrl(link)))
  {
    DigitsAreWord(ShowNat(id));
    SplitLink(prefix, ShowNat(id), tail);
    ParseShowNat(id);
    ParseShowNat(depth);
  }

  /** What the depth cell decides, all else being a good row: a blank cell is
    * an IndexError; otherwise its first token is coerced and either becomes
    * the depth or fails validation of `profundidad`. */
  lemma DepthCellDecides(row: Row, cell: string)
    requires ParseRow(row).Ok?
    ensures var r := ParseRow(row.(tds := row.tds[5 := cell]));
      && (AllSpace(cell) ==> r == Err(BlankDepth))
      && (!AllSpace(cell) && ParseInt(FirstWord(cell).value).None? ==>
            r == Err(Invalid(["profundidad"])))
      && (!AllSpace(cell) && ParseInt(FirstWord(cell).value).Some? ==>
            r == Ok(ParseRow(row).value.(depth := ParseInt(FirstWord(cell).value).value)))
  {
    var row' := row.(tds := row.tds[5 := cell]);
    var cells, cells' := Cells(row.tds), Cells(row'.tds);
    assert cells' == cells[4 := cell];
    var date := ParseTimestamp(cells[0] + " " + cells[1]).value;
    assert cells'[0] + " " + cells'[1] == cells[0] + " " + cells[1];
    assert ParseRow(row) == ParseLinked(cells, date, DepthToken(cells[4]).value, row.href, row.redMarker);
    if !AllSpace(cell) {
      var w := FirstWord(cell).value;
      assert ParseRow(row') == ParseLinked(cells', date, w, row.href, row.redMarker);
      LinkedDepth(cells, date, DepthToken(cells[4]).value, row.href, row.redMarker, cell, w);
    }
  }

  /** In an otherwise good row, the detail link and the depth cell decide
    * validation together: pydantic raises one error naming every field that
    * failed, `id` and `profundidad` alike, and otherwise both values reach
    * the record. */
  lemma ValidationDecides(row: Row, href: string, cell: string)
    requires ParseRow(row).Ok?
    requires '/' in href && !AllSpace(cell)
    ensures var r := ParseRow(row.(tds := row.tds[5 := cell], href := Some(href)));
      var id, prof := ParseInt(Split(href, '/')[1]), ParseInt(FirstWord(cell).value);
      var bad := InvalidFields(id, prof);
      && (bad != [] ==> r == Err(Invalid(bad)))
      && (bad == [] ==>
            r == Ok(ParseRow(row).value.(id := id.value, depth := prof.value, url := JoinUrl(href))))
  {
    var row' := row.(tds := row.tds[5 := cell], href := Some(href));
    var cells, cells' := Cells(row.tds), Cells(row'.tds);
    assert cells' == cells[4 := cell];
    var date := ParseTimestamp(cells[0] + " " + cells[1]).value;
    assert cells'[0] + " " + cells'[1] == cells[0] + " " + cells[1];
    assert ParseRow(row) == ParseLinked(cells, date, DepthToken(cells[4]).value, row.href, row.redMarker);
    var w := FirstWord(cell).value;
    assert ParseRow(row') == ParseLinked(cells', date, w, Some(href), row.redMarker);
    LinkedValidation(cells, date, DepthToken(cells[4]).value, row.href, row.redMarker, cell, w, href);
  }

  /** Another link and depth token in the link stage: one validation error
    * listing both coercions' failures, or a record with both new values. */
  lemma LinkedValidation(cells: seq<string>, date: DateTime, depth: string, href: Option<string>,
                         felt: bool, cell: string, depth': string, link: string)
    requires |cells| >= 5 && ParseLinked(cells, date, depth, href, felt).Ok?
    requires '/' in link
    ensures var r := ParseLinked(cells[4 := cell], date, depth', Some(link), felt);
      var id, prof := ParseInt(Split(link, '/')[1]), ParseInt(depth');
      var bad := InvalidFields(id, prof);
      && (bad != [] ==> r == Err(Invalid(bad)))
      && (bad == [] ==>
            r == Ok(ParseLinked(cells, date, depth, href, felt).value.(id := id.value, depth := prof.value,
                                                                      url := JoinUrl(link))))
  {
    assert |Split(link, '/')| >= 2;
  }

  /** In an otherwise good row, the date and clock cells decide between
    * `BadTimestamp` and a record that differs only in its timestamp. */
  lemma TimestampDecides(row: Row, date: string, clock: string)
    requires ParseRow(row).Ok?
    ensures var r := ParseRow(row.(tds := row.tds[1 := date][2 := clock]));
      match ParseTimestamp(date + " " + clock)
      case None => r == Err(BadTimestamp)
      case Some(t) => r == Ok(ParseRow(row).value.(timestamp := t))
  {
    var row' := row.(tds := row.tds[1 := date][2 := clock]);
    var cells, cells' := Cells(row.tds), Cells(row'.tds);
    assert cells' == cells[0 := date][1 := clock];
    assert cells'[0] + " " + cells'[1] == date + " " + clock;
    var stamp := ParseTimestamp(cells[0] + " " + cells[1]).value;
    var depth := DepthToken(cells[4]).value;
    assert ParseRow(row) == ParseLinked(cells, stamp, depth, row.href, row.redMarker);
    match ParseTimestamp(date + " " + clock)
    case None =>
    case Some(t) =>
      assert ParseRow(row') == ParseLinked(cells', t, depth, row.href, row.redMarker);
      LinkedTimestamp(cells, stamp, depth, row.href, row.redMarker, date, clock, t);
  }

  /** Other date and clock cells change only the timestamp. */
  lemma LinkedTimestamp(cells: seq<string>, date: DateTime, depth: string, href: Option<string>,
                        felt: bool, dateCell: string, clockCell: string, date': DateTime)
    requires |cells| >= 5 && ParseLinked(cells, date, depth, href, felt).Ok?
    ensures ParseLinked(cells[0 := dateCell][1 := clockCell], date', depth, href, felt)
      == Ok(ParseLinked(cells, date, depth, href, felt).value.(timestamp := date'))
  {
  }

  // ---------------------------------------------------------------------
  // The order of the checks, for any row

  /** Fewer than four `td`s leave `cells` without index 0 or 1. */
  lemma ShortRowRaises(row: Row)
    requires |row.tds| < 4
    ensures ParseRow(row) == Err(MissingCell(if |row.tds| < 3 then 0 else 1))
  {
  }

  /** `strptime` runs before anything else is read from the row, so a refused
    * timestamp raises whatever the other cells and the link hold. */
  lemma BadTimestampFirst(row: Row)
    requires |row.tds| >= 4
    requires ParseTimestamp(row.tds[1] + " " + row.tds[2]).None?
    ensures ParseRow(row) == Err(BadTimestamp)
  {
    var cells := Cells(row.tds);
    assert cells[0] + " " + cells[1] == row.tds[1] + " " + row.tds[2];
  }

  /** After the timestamp, the depth cell is read before the link: a missing
    * or blank depth cell raises whatever the link holds. */
  lemma DepthBeforeLink(row: Row)
    requires |row.tds| >= 4
    requires ParseTimestamp(row.tds[1] + " " + row.tds[2]).Some?
    ensures |row.tds| < 7 ==> ParseRow(row) == Err(MissingCell(4))
    ensures |row.tds| >= 7 && AllSpace(row.tds[5]) ==> ParseRow(row) == Err(BlankDepth)
  {
    var cells := Cells(row.tds);
    assert cells[0] + " " + cells[1] == row.tds[1] + " " + row.tds[2];
  }

  /** After the depth token, the link is read (and split) before cells 5 to
    * 7: no link or no id segment raises even in a short row, and a short
    * row with an id segment raises at its first missing cell. */
  lemma LinkBeforeCells(row: Row)
    requires |row.tds| >= 7
    requires ParseTimestamp(row.tds[1] + " " + row.tds[2]).Some? && !AllSpace(row.tds[5])
    ensures row.href.None? ==> ParseRow(row) == Err(NoLink)
    ensures row.href.Some? && '/' !in row.href.value ==> ParseRow(row) == Err(NoIdSegment)
    ensures row.href.Some? && '/' in row.href.value && |row.tds| < 10 ==>
      ParseRow(row) == Err(MissingCell(|row.tds| - 2))
  {
    var cells := Cells(row.tds);
    assert cells[0] + " " + cells[1] == row.tds[1] + " " + row.tds[2];
    var date := ParseTimestamp(cells[0] + " " + cells[1]).value;
    var depth := DepthToken(cells[4]).value;
    assert ParseRow(row) == ParseLinked(cells, date, depth, row.href, row.redMarker);
  }

  /** `tds[1:-1]` reads cells 0 to 7 only: a good row with one more `td`
    * before its last gives the same record. */
  lemma ExtraCellIgnored(row: Row, c: string)
    requires ParseRow(row).Ok?
    ensures ParseRow(row.(tds := row.tds[..|row.tds| - 1] + [c] + [row.tds[|row.tds| - 1]]))
      == ParseRow(row)
  {
    var row' := row.(tds := row.tds[..|row.tds| - 1] + [c] + [row.tds[|row.tds| - 1]]);
    var cells := Cells(row.tds);
    assert |cells| >= 8;
    CellsExtra(row.tds, c);
    var cells' := cells + [c];
    assert cells'[0] + " " + cells'[1] == cells[0] + " " + cells[1];
    assert cells'[4] == cells[4];
    var date := ParseTimestamp(cells[0] + " " + cells[1]).value;
    var depth := DepthToken(cells[4]).value;
    assert ParseRow(row) == ParseLinked(cells, date, depth, row.href, row.redMarker);
    assert ParseRow(row') == ParseLinked(cells', date, depth, row.href, row.redMarker);
    LinkedExtra(cells, c, date, depth, row.href, row.redMarker);
  }

  lemma CellsExtra(tds: seq<string>, c: string)
    requires |tds| >= 2
    ensures Cells(tds[..|tds| - 1] + [c] + [tds[|tds| - 1]]) == Cells(tds) + [c]
  {
    var tds' := tds[..|tds| - 1] + [c] + [tds[|tds| - 1]];
    assert Cells(tds') == tds'[1..|tds'| - 1];
    assert tds'[1..|tds'| - 1] == tds[1..|tds| - 1] + [c];
  }

  /** The link stage reads cells 2 to 7 only. */
  lemma LinkedExtra(cells: seq<string>, c: string, date: DateTime, depth: string,
                    href: Option<string>, felt: bool)
    requires |cells| >= 8
    ensures ParseLinked(cells + [c], date, depth, href, felt) == ParseLinked(cells, date, depth, href, felt)
  {
    var cells' := cells + [c];
    assert cells'[2] == cells[2] && cells'[3] == cells[3] && cells'[5] == cells[5];
    assert cells'[6] == cells[6] && cells'[7] == cells[7];
  }


  /** A good row cut to its first `k` cells, the anchor of its last cell
    * kept, raises an IndexError at the first cell index the shorter
    * `cells` lacks: 0 or 1 for the timestamp, 4 for the depth, or one of
    * 5..7 for magnitude, intensity and province. */
  lemma TruncatedRowRaises(row: Row, k: nat)
    requires ParseRow(row).Ok? && k < 10
    ensures ParseRow(row.(tds := row.tds[..k]))
      == Err(MissingCell(if k < 3 then 0 else if k < 4 then 1 else if k < 7 then 4 else k - 2))
  {
    ParseRowFields(row);
    var row' := row.(tds := row.tds[..k]);
    var cells, cells' := Cells(row.tds), Cells(row'.tds);
    if k >= 7 {
      assert cells'[0] + " " + cells'[1] == cells[0] + " " + cells[1];
      assert cells'[4] == cells[4];
      var stamp := ParseTimestamp(cells[0] + " " + cells[1]).value;
      var depth := DepthToken(cells[4]).value;
      assert ParseRow(row') == ParseLinked(cells', stamp, depth, row.href, row.redMarker);
      LinkedShort(cells', stamp, depth, row.href, row.redMarker);
    } else if k >= 4 {
      assert cells'[0] + " " + cells'[1] == cells[0] + " " + cells[1];
    }
  }

  /** The link stage with fewer than eight cells raises at the first missing
    * one, once the link has an id segment. */
  lemma LinkedShort(cells: seq<string>, date: DateTime, depth: string, href: Option<string>, felt: bool)
    requires 5 <= |cells| < 8 && href.Some? && '/' in href.value
    ensures ParseLinked(cells, date, depth, href, felt) == Err(MissingCell(|cells|))
  {
  }


  /** Replacing the depth cell and its token changes only the depth. */
  lemma LinkedDepth(cells: seq<string>, date: DateTime, depth: string, href: Option<string>,
                    felt: bool, cell: string, depth': string)
    requires |cells| >= 5 && ParseLinked(cells, date, depth, href, felt).Ok?
    ensures var r := ParseLinked(cells[4 := cell], date, depth', href, felt);
      && (ParseInt(depth').None? ==> r == Err(Invalid(["profundidad"])))
      && (ParseInt(depth').Some? ==>
            r == Ok(ParseLinked(cells, date, depth, href, felt).value.(depth := ParseInt(depth').value)))
  {
    var id := ParseInt(Split(href.value, '/')[1]);
    assert id.Some?;
    assert InvalidFields(id, ParseInt(depth')) == (if ParseInt(depth').None? then ["profundidad"] else []);
  }


  /** "33 Km" and "33 \n Km" give the token "33", worth 33. */
  lemma DepthTokenWithUnit()
    ensures DepthToken("33 Km") == Some("33") && DepthToken("33 \n Km") == Some("33")
  {
    assert "33 Km" == "33" + " Km";
    DepthTokenOfWord("33", " Km");
    assert "33 \n Km" == "33" + " \n Km";
    DepthTokenOfWord("33", " \n Km");
  }

  lemma ThirtyThree()
    ensures ParseInt("33") == Some(33)
  {
    assert ShowNat(33) == "33";
    ParseShowNat(33);
  }

  lemma DepthTokenOfWord(w: string, unit: string)
    requires forall i :: 0 <= i < |w| ==> IsDigit(w[i])
    requires w != [] && (unit == [] || IsSpace(unit[0]))
    ensures DepthToken(w + unit) == Some(w)
  {
    DigitsAreWord(w);
    FirstWordOfWordThenSpace(w, unit);
  }


  /** A depth cell with whitespace around the number, as `string()` gives it
    * for an indented `td`: the token is the number's digits. */
  lemma DepthTokenAfterBlank(b: string, n: nat, unit: string)
    requires AllSpace(b)
    requires unit == [] || IsSpace(unit[0])
    ensures DepthToken(b + ShowNat(n) + unit) == Some(ShowNat(n))
  {
    DigitsAreWord(ShowNat(n));
    FirstWordAfterBlank(b, ShowNat(n), unit);
  }

  /** "33Km" is a single token, and not a number. */
  lemma DepthTokenGluedUnit()
    ensures DepthToken("33Km") == Some("33Km") && ParseInt("33Km") == None
  {
    assert IsWord("33Km") by {
      assert !IsSpace("33Km"[2]) && !IsSpace("33Km"[3]);
    }
    assert "33Km" + [] == "33Km";
    FirstWordOfWordThenSpace("33Km", []);
    ForeignCharRejected("33Km", 2);
  }

  /** A blank depth cell has no token at all. */
  lemma DepthTokenBlank()
    ensures DepthToken(" \n ") == None
  {
    assert AllSpace(" \n ");
  }

  /** The same cells in an otherwise good row. */
  lemma DepthExamples(row: Row)
    requires ParseRow(row).Ok?
    ensures ParseRow(row.(tds := row.tds[5 := "33 Km"])) == Ok(ParseRow(row).value.(depth := 33))
    ensures ParseRow(row.(tds := row.tds[5 := "33 \n Km"])) == Ok(ParseRow(row).value.(depth := 33))
    ensures ParseRow(row.(tds := row.tds[5 := "33Km"])) == Err(Invalid(["profundidad"]))
    ensures ParseRow(row.(tds := row.tds[5 := " \n "])) == Err(BlankDepth)
  {
    DepthTokenWithUnit();
    ThirtyThree();
    DepthTokenGluedUnit();
    DepthTokenBlank();
    DepthCellDecides(row, "33 Km");
    DepthCellDecides(row, "33 \n Km");
    DepthCellDecides(row, "33Km");
    DepthCellDecides(row, " \n ");
  }

  /** What the detail link decides, all else being a good row: no anchor is an
    * AttributeError, a link without a slash an IndexError, and otherwise its
    * second segment is coerced into the identifier (or fails validation of
    * `id`) while the URL is the base URL joined with the whole link. */
  lemma LinkDecides(row: Row, href: Option<string>)
    requires ParseRow(row).Ok?
    ensures var r := ParseRow(row.(href := href));
      && (href.None? ==> r == Err(NoLink))
      && (href.Some? && '/' !in href.value ==> r == Err(NoIdSegment))
      && (href.Some? && '/' in href.value ==>
            var id := ParseInt(Split(href.value, '/')[1]);
            && (id.None? ==> r == Err(Invalid(["id"])))
            && (id.Some? ==> r == Ok(ParseRow(row).value.(id := id.value, url := JoinUrl(href.value)))))
  {
    var rec := ParseRow(row).value;
    var cells := Cells(row.tds);
    var date := ParseTimestamp(cells[0] + " " + cells[1]).value;
    var depth := DepthToken(cells[4]).value;
    assert |cells| >= 8;
    assert ParseRow(row) == ParseLinked(cells, date, depth, row.href, row.redMarker);
    assert row.(href := href).tds == row.tds;
    assert ParseRow(row.(href := href)) == ParseLinked(cells, date, depth, href, row.redMarker);
    var prof := ParseInt(depth);
    assert prof == Some(rec.depth);
    if href.Some? && '/' in href.value {
      var id := ParseInt(Split(href.value, '/')[1]);
      assert InvalidFields(id, prof) == (if id.None? then ["id"] else []);
    }
  }


  lemma ShowNat482910()
    ensures ShowNat(482910) == "482910"
  {
    assert ShowNat(4) == "4";
    assert ShowNat(48) == "48";
    assert ShowNat(482) == "482";
    assert ShowNat(4829) == "4829";
    assert ShowNat(48291) == "48291";
  }

  /** The second segment of "ver/482910/detalle" is "482910", worth 482910. */
  lemma LinkExampleSegment()
    ensures |Split("ver/482910/detalle", '/')| >= 2
    ensures Split("ver/482910/detalle", '/')[1] == "482910"
    ensures ParseInt("482910") == Some(482910)
  {
    ShowNat482910();
    DigitsAreWord("482910");
    ParseShowNat(482910);
    assert "ver/482910/detalle" == "ver" + "/" + "482910" + "/detalle";
    SplitLink("ver", "482910", "/detalle");
  }

  /** The link "ver/482910/detalle" gives identifier 482910 and the detail URL
    * `base_url + "/ver/482910/detalle"`. */
  lemma DetailLinkExample(row: Row, href: string)
    requires ParseRow(row).Ok?
    requires href == "ver/482910/detalle"
    ensures ParseRow(row.(href := Some(href)))
      == Ok(ParseRow(row).value.(id := 482910, url := JoinUrl(href)))
  {
    LinkExampleSegment();
    LinkDecides(row, Some(href));
  }

  /** A detail link whose identifier segment holds a character `int()` does
    * not accept, such as the separator U+001C, which `int()` does not strip
    * although `str.isspace()` holds for it: validation of `id` fails. */
  lemma ForeignCharInIdRejected(row: Row, prefix: string, idText: string, tail: string, i: nat)
    requires ParseRow(row).Ok?
    requires '/' !in prefix && '/' !in idText && (tail == [] || tail[0] == '/')
    requires i < |idText|
    requires !IntSpace(idText[i]) && !IsDigit(idText[i])
    requires idText[i] != '+' && idText[i] != '-' && idText[i] != '_'
    ensures ParseRow(row.(href := Some(prefix + "/" + idText + tail))) == Err(Invalid(["id"]))
  {
    var href := prefix + "/" + idText + tail;
    SplitLink(prefix, idText, tail);
    ForeignCharRejected(idText, i);
    LinkDecides(row, Some(href));
  }
}
