/**
 * The data model shared by every page: one row of the interaction log
 * (interactions.csv), one row of the report-submission log
 * (reports/report_submissions.csv), and the queries over the interaction log
 * that several pages ask.
 */
module Data {

  datatype Option<+T> = None | Some(value: T)

  /**
   * One interaction record.  `infection` is the infection_intervention column
   * (1 = infection attempt, 0 = intervention), `success` the success column,
   * `value` the intervention_value column (None stands for a missing value,
   * NaN), `itype` the intervention_type column (None when missing; infection
   * rows carry the sentinel "-1"), `timestamp` the event time in whole seconds.
   */
  datatype Row = Row(
    actor: string,
    audience: string,
    infection: bool,
    success: bool,
    value: Option<real>,
    itype: Option<string>,
    timestamp: int)

  /**
   * One entry of the report-submission log.  `timestamp` is the text written
   * to the CSV ("YYYY-MM-DD HH:MM:SS"); it is compared as a string.
   */
  datatype Entry = Entry(username: string, filename: string, sizeKb: real, timestamp: string)

  predicate IsSuccessfulInfection(row: Row) {
    row.infection && row.success
  }

  /** The users who have been successfully infected: the contagious ones. */
  function InfectedSet(log: seq<Row>): set<string> {
    set i | 0 <= i < |log| && IsSuccessfulInfection(log[i]) :: log[i].audience
  }

  lemma InfectedSetAppend(log: seq<Row>, row: Row)
    ensures InfectedSet(log + [row]) ==
            InfectedSet(log) + (if IsSuccessfulInfection(row) then {row.audience} else {})
  {
    var log' := log + [row];
    forall x | x in InfectedSet(log')
      ensures x in InfectedSet(log) + (if IsSuccessfulInfection(row) then {row.audience} else {})
    {
      var i :| 0 <= i < |log'| && IsSuccessfulInfection(log'[i]) && log'[i].audience == x;
      if i < |log| { assert log'[i] == log[i]; }
    }
    forall x | x in InfectedSet(log)
      ensures x in InfectedSet(log')
    {
      var i :| 0 <= i < |log| && IsSuccessfulInfection(log[i]) && log[i].audience == x;
      assert log'[i] == log[i];
    }
    if IsSuccessfulInfection(row) {
      assert log'[|log|] == row;
    }
  }

  /**
   * The greatest timestamp among the rows that `sel` selects, or None when it
   * selects none.
   */
  function MaxTimestamp(log: seq<Row>, sel: Row -> bool): (m: Option<int>)
    ensures m.None? <==> forall i :: 0 <= i < |log| ==> !sel(log[i])
    ensures m.Some? ==> exists i :: 0 <= i < |log| && sel(log[i]) && log[i].timestamp == m.value
    ensures m.Some? ==> forall i :: 0 <= i < |log| && sel(log[i]) ==> log[i].timestamp <= m.value
  {
    if log == [] then None
    else
      var rest := MaxTimestamp(log[1..], sel);
      if !sel(log[0]) then
        assert forall i :: 1 <= i < |log| ==> log[i] == log[1..][i - 1];
        rest
      else
        assert forall i :: 1 <= i < |log| ==> log[i] == log[1..][i - 1];
        match rest
        case None => Some(log[0].timestamp)
        case Some(t) => Some(if t < log[0].timestamp then log[0].timestamp else t)
  }

  /**
   * The least timestamp among the rows that `sel` selects, or None when it
   * selects none.
   */
  function MinTimestamp(log: seq<Row>, sel: Row -> bool): (m: Option<int>)
    ensures m.None? <==> forall i :: 0 <= i < |log| ==> !sel(log[i])
    ensures m.Some? ==> exists i :: 0 <= i < |log| && sel(log[i]) && log[i].timestamp == m.value
    ensures m.Some? ==> forall i :: 0 <= i < |log| && sel(log[i]) ==> m.value <= log[i].timestamp
  {
    if log == [] then None
    else
      var rest := MinTimestamp(log[1..], sel);
      if !sel(log[0]) then
        assert forall i :: 1 <= i < |log| ==> log[i] == log[1..][i - 1];
        rest
      else
        assert forall i :: 1 <= i < |log| ==> log[i] == log[1..][i - 1];
        match rest
        case None => Some(log[0].timestamp)
        case Some(t) => Some(if log[0].timestamp < t then log[0].timestamp else t)
  }

  /** The rows that `keep` selects, in log order (a boolean-mask selection). */
  function Select<T(!new)>(xs: seq<T>, keep: T -> bool): (r: seq<T>)
    ensures |r| <= |xs|
    ensures forall k :: 0 <= k < |r| ==> keep(r[k])
    ensures forall x :: x in r <==> x in xs && keep(x)
  {
    if xs == [] then []
    else
      var init := Select(xs[..|xs| - 1], keep);
      var last := xs[|xs| - 1];
      assert xs == xs[..|xs| - 1] + [last];
      if keep(last) then init + [last] else init
  }

  /** Selection distributes over concatenation: it keeps log order. */
  lemma {:induction false} SelectAppend<T(!new)>(xs: seq<T>, ys: seq<T>, keep: T -> bool)
    ensures Select(xs + ys, keep) == Select(xs, keep) + Select(ys, keep)
    decreases |ys|
  {
    if ys == [] {
      assert xs + ys == xs;
    } else {
      var ys' := ys[..|ys| - 1];
      assert (xs + ys)[..|xs + ys| - 1] == xs + ys';
      SelectAppend(xs, ys', keep);
    }
  }

  /**
   * pandas `unique()`: the distinct values, each once.  The order of first
   * appearance is kept by construction but is not part of the contract.
   */
  function Unique<T(==,!new)>(xs: seq<T>): (r: seq<T>)
    ensures forall x :: x in r <==> x in xs
    ensures forall j, k :: 0 <= j < k < |r| ==> r[j] != r[k]
  {
    if xs == [] then []
    else
      var init := Unique(xs[..|xs| - 1]);
      var last := xs[|xs| - 1];
      assert xs == xs[..|xs| - 1] + [last];
      if last in init then init else init + [last]
  }
}
