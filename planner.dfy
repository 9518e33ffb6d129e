/**
 * `InpresSpider.fill_form`: the date window of the search form, computed from
 * the output of earlier runs, and the form fields sent with it.
 */
module Planner {

  import opened Wrappers
  import opened Dates

  /** The earliest day the catalogue offers, used when earlier output is empty. */
  const Epoch := Date(1998, 7, 29)

  /** The output file of earlier runs as `pd.read_csv` finds it: absent, without
    * any content (which raises `EmptyDataError`), or a table whose `fecha`
    * column holds the given timestamps (possibly none, for a header alone). */
  datatype PriorOutput = Missing | NoContent | Table(fecha: seq<DateTime>)

  /** Why `fill_form` raised: `FileNotFoundError` from `read_csv`, or the
    * `strftime` of the maximum of an empty column (`NaT`). */
  datatype FormError = NoOutputFile | NoMaximum

  predicate AllValid(ts: seq<DateTime>)
  {
    forall i :: 0 <= i < |ts| ==> ValidDateTime(ts[i])
  }

  /** `df.fecha.max()`: the latest timestamp of a non-empty column. */
  function Latest(ts: seq<DateTime>): (m: DateTime)
    requires |ts| > 0
    ensures m in ts
    ensures forall i :: 0 <= i < |ts| ==> Key(ts[i]) <= Key(m)
  {
    if |ts| == 1 then ts[0]
    else
      var rest := Latest(ts[1..]);
      assert forall i :: 1 <= i < |ts| ==> ts[i] == ts[1..][i - 1];
      if Key(ts[0]) < Key(rest) then rest else ts[0]
  }

  /** `date_from`: the default epoch when the file has no content, the day of
    * the latest earlier timestamp otherwise. */
  function DateFrom(prior: PriorOutput): (r: Result<string, FormError>)
    requires prior.Table? ==> AllValid(prior.fecha)
    ensures r == Err(NoOutputFile) <==> prior.Missing?
    ensures r == Err(NoMaximum) <==> prior == Table([])
    ensures r.Ok? ==> |r.value| == 10 && r.value[2] == '/' && r.value[5] == '/'
  {
    match prior
    case Missing => Err(NoOutputFile)
    case NoContent => Ok(FormatDate(Epoch))
    case Table(ts) =>
      if ts == [] then Err(NoMaximum)
      else
        var m := Latest(ts);
        assert ValidDateTime(m);
        Ok(FormatDate(m.date))
  }

  /** The three form fields: the window's first and last day and the
    * checkbox that asks for every event. */
  function FormData(prior: PriorOutput, now: DateTime): (r: Result<map<string, string>, FormError>)
    requires prior.Table? ==> AllValid(prior.fecha)
    requires ValidDateTime(now)
    ensures r.Ok? <==> DateFrom(prior).Ok?
    ensures r.Err? ==> r.error == DateFrom(prior).error
    ensures r.Ok? ==>
      && r.value.Keys == {"datepicker", "datepicker2", "tilde1"}
      && r.value["datepicker"] == DateFrom(prior).value
      && r.value["datepicker2"] == FormatDate(now.date)
      && r.value["tilde1"] == "checkbox"
  {
    match DateFrom(prior)
    case Err(e) => Err(e)
    case Ok(from) =>
      Ok(map["datepicker" := from, "datepicker2" := FormatDate(now.date), "tilde1" := "checkbox"])
  }

  /** An output file without content starts the window on 29/07/1998. */
  lemma EpochDefault()
    ensures DateFrom(NoContent) == Ok("29/07/1998")
  {
    assert Pad2(29) == "29" && Pad2(7) == "07";
    assert Pad4(1998) == "1998";
    assert FormatDate(Epoch) == "29" + "/" + "07" + "/" + "1998";
    assert DateFrom(NoContent) == Ok(FormatDate(Epoch));
    assert "29" + "/" + "07" + "/" + "1998" == "29/07/1998";
  }

  /** With earlier records, the window starts on the day of the latest one:
    * no earlier record falls on a later day, and the day is one of theirs. */
  lemma DateFromLatestDay(ts: seq<DateTime>)
    requires AllValid(ts) && |ts| > 0
    ensures exists i :: 0 <= i < |ts| && DateFrom(Table(ts)) == Ok(FormatDate(ts[i].date))
    ensures forall d :: ValidDate(d) && DateFrom(Table(ts)) == Ok(FormatDate(d)) ==>
      forall i :: 0 <= i < |ts| ==> DateKey(ts[i].date) <= DateKey(d)
  {
    var m := Latest(ts);
    var j :| 0 <= j < |ts| && ts[j] == m;
    assert DateFrom(Table(ts)) == Ok(FormatDate(ts[j].date));
    forall d | ValidDate(d) && DateFrom(Table(ts)) == Ok(FormatDate(d))
      ensures forall i :: 0 <= i < |ts| ==> DateKey(ts[i].date) <= DateKey(d)
    {
      FormatDateInjective(d, m.date);
      forall i | 0 <= i < |ts|
        ensures DateKey(ts[i].date) <= DateKey(d)
      {
        KeyOrdersDates(ts[i], m);
      }
    }
  }

  /** More earlier output never moves the window's start back. */
  lemma {:induction false} LatestMonotone(ts: seq<DateTime>, more: seq<DateTime>)
    requires |ts| > 0
    ensures Key(Latest(ts)) <= Key(Latest(ts + more))
  {
    var m := Latest(ts);
    var j :| 0 <= j < |ts| && ts[j] == m;
    assert (ts + more)[j] == m;
  }

  /** The search starts, at the latest, on the day of the last record already
    * collected, so the record that ended the earlier run is asked for again. */
  lemma DateFromMonotone(ts: seq<DateTime>, more: seq<DateTime>)
    requires AllValid(ts) && AllValid(more) && |ts| > 0
    ensures AllValid(ts + more)
    ensures DateKey(Latest(ts).date) <= DateKey(Latest(ts + more).date)
  {
    assert forall i :: 0 <= i < |ts + more| ==>
      (ts + more)[i] == if i < |ts| then ts[i] else more[i - |ts|];
    LatestMonotone(ts, more);
    KeyOrdersDates(Latest(ts), Latest(ts + more));
  }
}
