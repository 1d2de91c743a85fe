/**
 State tracking: how many rows, and how long, a predicate has held without a break.
 */
module StateTracking {
  import opened Options
  import opened Integers

  /** A row's time, and the predicate's answer for it: `None` when evaluating it failed. */
  datatype Row = Row(time: int, matches: Option<bool>)

  datatype Emission = Emission(row: Row, count: int, duration: int)

  // ----- runs -----

  /** The rows whose predicate could be evaluated. */
  function Judged(rows: seq<Row>): (js: seq<Row>)
    ensures forall i :: 0 <= i < |js| ==> js[i].matches.Some?
  {
    if rows == [] then [] else
    var n := |rows| - 1;
    Judged(rows[..n]) + if rows[n].matches.Some? then [rows[n]] else []
  }

  predicate Holds(r: Row) {
    r.matches == Some(true)
  }

  /** How many rows at the end of `js` match without a break. */
  function Run(js: seq<Row>): (r: nat)
    ensures r <= |js|
  {
    if js == [] || !Holds(js[|js| - 1]) then 0 else 1 + Run(js[..|js| - 1])
  }

  /** Whether the rows numbered `k` to `i` are the whole of an unbroken run of matches, as far as `i`. */
  ghost predicate IsRun(js: seq<Row>, k: nat, i: nat)
    requires i < |js|
  {
    && k <= i
    && (forall m :: k <= m <= i ==> Holds(js[m]))
    && (k > 0 ==> !Holds(js[k - 1]))
  }

  lemma {:induction false} RunExact(js: seq<Row>, k: nat)
    requires js != []
    ensures Run(js) > 0 <==> Holds(js[|js| - 1])
    ensures IsRun(js, k, |js| - 1) <==> Run(js) > 0 && k == |js| - Run(js)
  {
    var n := |js| - 1;
    if Holds(js[n]) && n > 0 {
      RunExact(js[..n], k);
      assert forall m :: 0 <= m < n ==> js[..n][m] == js[m];
      assert k < n ==> (IsRun(js, k, n) <==> IsRun(js[..n], k, n - 1));
    }
  }

  lemma JudgedLast(rows: seq<Row>, row: Row)
    ensures Judged(rows + [row]) == if row.matches.Some? then Judged(rows) + [row] else Judged(rows)
  {
    assert (rows + [row])[..|rows|] == rows;
  }

  lemma RunLast(js: seq<Row>, row: Row)
    ensures Run(js + [row]) == if Holds(row) then Run(js) + 1 else 0
  {
    assert (js + [row])[..|js|] == js;
  }

  /** When the run that `js` ends with began, or `otherwise` when it ends with none. */
  function RunStart(js: seq<Row>, otherwise: int): int {
    if Run(js) > 0 then js[|js| - Run(js)].time else otherwise
  }

  /** The whole units between two times; none are counted without a unit. */
  function Elapsed(unit: int, from: int, to: int): int {
    if unit > 0 then Quot(to - from, unit) else 0
  }

  /** What is emitted for the last judged row. */
  function Last(unit: int, js: seq<Row>): Emission
    requires js != []
  {
    var r, row := Run(js), js[|js| - 1];
    if r == 0 then Emission(row, -1, -1) else Emission(row, r, Elapsed(unit, RunStart(js, row.time), row.time))
  }

  /** What is emitted for each judged row. */
  function Track(unit: int, js: seq<Row>): (es: seq<Emission>)
    ensures |es| == |js|
  {
    if js == [] then [] else Track(unit, js[..|js| - 1]) + [Last(unit, js)]
  }

  lemma {:induction false} TrackAt(unit: int, js: seq<Row>, i: nat)
    requires i < |js|
    ensures Track(unit, js)[i] == Last(unit, js[..i + 1])
  {
    var n := |js| - 1;
    if i < n {
      TrackAt(unit, js[..n], i);
      assert js[..n][..i + 1] == js[..i + 1];
    } else {
      assert js[..i + 1] == js;
    }
  }

  /**
    A row outside the state is emitted with -1 and -1; one inside it with the length of the unbroken
    run of matches that it ends, and the whole units since that run's first row.
   */
  lemma TrackExact(unit: int, js: seq<Row>, i: nat, k: nat)
    requires i < |js|
    ensures Track(unit, js)[i].row == js[i]
    ensures !Holds(js[i]) ==> Track(unit, js)[i].count == -1 && Track(unit, js)[i].duration == -1
    ensures Holds(js[i]) ==> 1 <= Track(unit, js)[i].count <= i + 1
    ensures IsRun(js, k, i) <==> Holds(js[i]) && Track(unit, js)[i].count == i - k + 1
    ensures IsRun(js, k, i) ==>
              Track(unit, js)[i].duration == Elapsed(unit, js[k].time, js[i].time)
  {
    var p := js[..i + 1];
    TrackAt(unit, js, i);
    RunExact(p, k);
    assert forall m :: 0 <= m <= i ==> p[m] == js[m];
    assert IsRun(js, k, i) <==> IsRun(p, k, i);
  }

  /** `d` whole units fit into the time `t`; a time that runs backwards counts negative ones. */
  predicate Units(unit: int, t: int, d: int) {
    if t >= 0 then d * unit <= t < (d + 1) * unit else (d - 1) * unit < t <= d * unit
  }

  lemma QuotientIsUnits(unit: int, t: int)
    requires unit > 0
    ensures Units(unit, t, Quot(t, unit))
  {
    QuotRem(t, unit);
  }

  lemma UnitsAreUnique(unit: int, t: int, d: int, e: int)
    requires unit > 0 && Units(unit, t, d) && Units(unit, t, e)
    ensures d <= e
  {
    if d > e {
      Multiples(unit, e + 1, d);
      Multiples(unit, e, d - 1);
    }
  }

  lemma Multiples(unit: int, d: int, e: int)
    requires unit > 0 && d <= e
    ensures d * unit <= e * unit
  {
  }

  /**
    The duration of a row inside the state is the number of whole units since the first row of its
    run; without a unit it is 0.
   */
  lemma DurationIff(unit: int, js: seq<Row>, i: nat, k: nat, d: int)
    requires i < |js| && IsRun(js, k, i)
    ensures Track(unit, js)[i].duration == d
            <==> if unit > 0 then Units(unit, js[i].time - js[k].time, d) else d == 0
  {
    TrackExact(unit, js, i, k);
    if unit > 0 {
      var t := js[i].time - js[k].time;
      QuotientIsUnits(unit, t);
      if Units(unit, t, d) {
        UnitsAreUnique(unit, t, d, Quot(t, unit));
        UnitsAreUnique(unit, t, Quot(t, unit), d);
      }
    }
  }

  lemma RunStartLast(js: seq<Row>, row: Row)
    requires Holds(row)
    ensures RunStart(js + [row], row.time) == RunStart(js, row.time)
  {
    RunLast(js, row);
  }

  lemma LastAppended(unit: int, js: seq<Row>, row: Row)
    ensures Last(unit, js + [row]) ==
              if Holds(row) then Emission(row, Run(js) + 1, Elapsed(unit, RunStart(js, row.time), row.time))
                else Emission(row, -1, -1)
  {
    RunLast(js, row);
    if Holds(row) {
      RunStartLast(js, row);
    }
  }

  /** Whether the tracker's variables describe the run that `js` ends with. */
  ghost predicate State(unit: int, js: seq<Row>, startTime: int, count: int, duration: int, inState: bool) {
    && (inState <==> Run(js) > 0)
    && (inState ==> count == Run(js) && startTime == RunStart(js, startTime))
    && (inState && unit <= 0 ==> duration == 0)
  }

  lemma StateAfterMatch(unit: int, js: seq<Row>, row: Row, startTime: int, count: int, duration: int, inState: bool)
    requires State(unit, js, startTime, count, duration, inState) && Holds(row)
    ensures var start := if inState then startTime else row.time;
            var count' := if inState then count + 1 else 1;
            && start == RunStart(js, row.time)
            && State(unit, js + [row], start, count', Elapsed(unit, start, row.time), true)
            && Last(unit, js + [row]) == Emission(row, count', Elapsed(unit, start, row.time))
  {
    RunLast(js, row);
    RunStartLast(js, row);
    LastAppended(unit, js, row);
  }

  lemma StateAfterMiss(unit: int, js: seq<Row>, row: Row, startTime: int)
    requires !Holds(row)
    ensures State(unit, js + [row], startTime, -1, -1, false)
    ensures Last(unit, js + [row]) == Emission(row, -1, -1)
  {
    RunLast(js, row);
  }

  lemma TrackLast(unit: int, js: seq<Row>, row: Row)
    ensures Track(unit, js + [row]) == Track(unit, js) + [Last(unit, js + [row])]
  {
    assert (js + [row])[..|js|] == js;
  }

  /** Whether the tracker's variables, and what it built, are those the rows seen call for. */
  ghost predicate Tracks(unit: int, seen: seq<Row>, built: seq<Emission>, v: Vars) {
    built == Track(unit, Judged(seen)) && State(unit, Judged(seen), v.startTime, v.count, v.duration, v.inState)
  }

  lemma TracksFailure(unit: int, seen: seq<Row>, built: seq<Emission>, v: Vars, row: Row)
    requires Tracks(unit, seen, built, v) && row.matches.None?
    ensures Tracks(unit, seen + [row], built, v)
  {
    JudgedLast(seen, row);
  }

  /** The tracker's variables after a row, given those before. */
  datatype Vars = Vars(startTime: int, count: int, duration: int, inState: bool)

  lemma TracksMiss(unit: int, seen: seq<Row>, built: seq<Emission>, v: Vars, row: Row)
    requires Tracks(unit, seen, built, v) && row.matches == Some(false)
    ensures Tracks(unit, seen + [row], built + [Emission(row, -1, -1)], Vars(v.startTime, -1, -1, false))
  {
    JudgedLast(seen, row);
    TrackLast(unit, Judged(seen), row);
    StateAfterMiss(unit, Judged(seen), row, v.startTime);
  }

  lemma TracksMatch(unit: int, seen: seq<Row>, built: seq<Emission>, v: Vars, row: Row)
    requires Tracks(unit, seen, built, v) && row.matches == Some(true)
    ensures var start := if v.inState then v.startTime else row.time;
            var count := if v.inState then v.count + 1 else 1;
            var duration := Elapsed(unit, start, row.time);
            Tracks(unit, seen + [row], built + [Emission(row, count, duration)], Vars(start, count, duration, true))
    ensures v.inState && unit <= 0 ==> v.duration == 0
  {
    JudgedLast(seen, row);
    TrackLast(unit, Judged(seen), row);
    StateAfterMatch(unit, Judged(seen), row, v.startTime, v.count, v.duration, v.inState);
  }

  // ----- the tracker -----

  class StateTracker {
    const durationUnit: int
    var startTime: int
    var count: int
    var duration: int
    var inState: bool
    var built: seq<Emission>
    /** Every row given so far, over all chunks. */
    ghost var seen: seq<Row>

    ghost predicate Valid()
      reads this
    {
      Tracks(durationUnit, seen, built, Vars(startTime, count, duration, inState))
    }

    constructor (durationUnit: int)
      ensures Valid() && seen == [] && built == [] && this.durationUnit == durationUnit
    {
      this.durationUnit := durationUnit;
      startTime, count, duration, inState, built, seen := 0, 0, 0, false, [], [];
    }

    /** One chunk of rows: however the rows are split, what is built is what the whole run of rows gives. */
    method DoTime(rows: seq<Row>)
      requires Valid()
      modifies this
      ensures Valid() && seen == old(seen) + rows
      ensures built == Track(durationUnit, Judged(old(seen) + rows))
    {
      for i := 0 to |rows|
        invariant Valid() && seen == old(seen) + rows[..i]
      {
        Do(rows[i]);
        assert rows[..i + 1] == rows[..i] + [rows[i]];
      }
      assert rows[..|rows|] == rows;
    }

    /** The variables after a row whose predicate was evaluated. */
    method Advance(tm: int, matches: bool)
      modifies this`startTime, this`count, this`duration, this`inState
      ensures !matches ==> startTime == old(startTime) && count == duration == -1 && !inState
      ensures matches ==>
                && inState
                && startTime == (if old(inState) then old(startTime) else tm)
                && count == (if old(inState) then old(count) else 0) + 1
                && duration == if durationUnit > 0 then Elapsed(durationUnit, startTime, tm)
                  else if old(inState) then old(duration) else 0
    {
      if !matches {
        count := -1;
        duration := -1;
        inState := false;
      } else {
        if !inState {
          startTime := tm;
          duration := 0;
          count := 0;
          inState := true;
        }
        if durationUnit > 0 {
          duration := Quot(tm - startTime, durationUnit);
        }
        count := count + 1;
      }
    }

    /** The body of the loop over a chunk. */
    method Do(row: Row)
      requires Valid()
      modifies this
      ensures Valid() && seen == old(seen) + [row]
    {
      ghost var was, v := seen, Vars(startTime, count, duration, inState);
      seen := seen + [row];
      if row.matches.None? {
        TracksFailure(durationUnit, was, built, v, row);
        return;
      }
      ghost var before := built;
      Advance(row.time, row.matches.value);
      built := built + [Emission(row, count, duration)];
      if row.matches.value {
        TracksMatch(durationUnit, was, before, v, row);
      } else {
        TracksMiss(durationUnit, was, before, v, row);
      }
    }
  }
}
