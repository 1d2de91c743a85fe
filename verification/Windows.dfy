/**
 Fixed windows: the bounds a time is assigned to, and the rows each window's builder receives.
 */
module Windows {
  import opened Integers
  import opened Sequences

  // ----- times and bounds -----

  type Time = int

  datatype Bounds = Bounds(start: Time, stop: Time) {
    predicate Contains(t: Time) {
      start <= t < stop
    }
  }

  /** Drops the part of a time past the last multiple of `d`, towards zero. */
  function Truncate(t: Time, d: int): Time {
    if d <= 0 then t else t - Rem(t, d)
  }

  lemma TruncateIsAligned(t: Time, d: int) returns (q: int)
    requires d > 0
    ensures Truncate(t, d) == q * d
    ensures 0 <= t ==> t - d < q * d <= t
    ensures t < 0 ==> t <= q * d < t + d
  {
    q := Quot(t, d);
    QuotRem(t, d);
  }

  // ----- the grid of windows -----

  datatype Window = Window(every: int, period: int, start: Time) {
    /** Where the window numbered `j` of the grid through `start` ends. */
    function Stop(j: int): Time {
      start + j * every
    }

    function At(j: int): Bounds {
      Bounds(Stop(j) - period, Stop(j))
    }

    /** The first window of the grid that ends after `t`. */
    function FirstAfter(t: Time): int
      requires every > 0
    {
      (t - start) / every + 1
    }
  }

  lemma MultiplesAreMonotone(i: int, j: int, d: int)
    requires i <= j && d > 0
    ensures i * d <= j * d
  {
    assert (j - i) * d >= 0;
  }

  lemma EndsAfter(w: Window, t: Time, j: int)
    requires w.every > 0
    ensures w.Stop(j) > t <==> j >= w.FirstAfter(t)
  {
    var q := (t - w.start) / w.every;
    assert q * w.every <= t - w.start < (q + 1) * w.every;
    if j >= q + 1 {
      MultiplesAreMonotone(q + 1, j, w.every);
    } else {
      MultiplesAreMonotone(j, q, w.every);
    }
  }

  /** The windows containing a time are those numbered from one point up to another. */
  lemma ContainedIff(w: Window, now: Time, j: int)
    requires w.every > 0
    ensures w.At(j).Contains(now) <==> w.FirstAfter(now) <= j < w.FirstAfter(now + w.period)
  {
    EndsAfter(w, now, j);
    EndsAfter(w, now + w.period, j);
  }

  function Clamp(b: Bounds, global: Bounds): Bounds {
    Bounds(
      if b.start < global.start then global.start else b.start,
      if b.stop > global.stop then global.stop else b.stop)
  }

  /** Clamping is intersection. */
  lemma ClampIsIntersection(b: Bounds, global: Bounds, t: Time)
    ensures Clamp(b, global).Contains(t) <==> b.Contains(t) && global.Contains(t)
  {
  }

  /** The windows numbered from `i` up to `j`, in order, clamped. */
  ghost function Between(w: Window, global: Bounds, i: int, j: int): (r: seq<Bounds>)
    ensures |r| == if i < j then j - i else 0
    ensures forall k :: 0 <= k < |r| ==> r[k] == Clamp(w.At(i + k), global)
    decreases j - i
  {
    if j <= i then [] else Between(w, global, i, j - 1) + [Clamp(w.At(j - 1), global)]
  }

  /** What a time is due: every window of the grid containing it, clamped, if it is inside the global bounds. */
  ghost function Due(w: Window, global: Bounds, now: Time): seq<Bounds>
    requires w.every > 0
  {
    if global.Contains(now) then Between(w, global, w.FirstAfter(now), w.FirstAfter(now + w.period)) else []
  }

  // ----- assigning windows -----

  /** The first window end tried for a time. */
  function FirstStop(w: Window, now: Time): Time {
    var offset := w.start - Truncate(w.start, w.every);
    Truncate(now, w.every) + offset
  }

  /** Whether the search starts past the first window containing the time. */
  predicate Misses(w: Window, global: Bounds, now: Time) {
    var earlier := Bounds(FirstStop(w, now) - w.every - w.period, FirstStop(w, now) - w.every);
    global.Contains(now) && earlier.Contains(now)
  }

  /** In terms of the remainders of the start and of the time: the former exceeds the latter by
      more than the interval, and by no more than interval and period together. */
  lemma MissesIff(w: Window, global: Bounds, now: Time)
    requires w.every > 0
    ensures Misses(w, global, now)
            <==> global.Contains(now)
                 && w.every < Rem(w.start, w.every) - Rem(now, w.every) <= w.every + w.period
  {
  }

  lemma StopShifts(w: Window, j: int, k: int)
    ensures w.Stop(j + k) == w.Stop(j) + k * w.every
  {
  }

  lemma FirstStopOnGrid(w: Window, now: Time) returns (j: int)
    requires w.every > 0
    ensures FirstStop(w, now) == w.Stop(j)
    ensures w.FirstAfter(now) - 2 <= j <= w.FirstAfter(now) + 1
    ensures now >= 0 ==> j <= w.FirstAfter(now)
  {
    var q := TruncateIsAligned(now, w.every);
    var p := TruncateIsAligned(w.start, w.every);
    j := q - p;
    StopShifts(w, q, 0 - p);
    EndsAfter(w, now, j + 2);
    EndsAfter(w, now, j - 2);
    EndsAfter(w, now, j - 1);
    StopShifts(w, j, 2);
    StopShifts(w, j, -1);
    StopShifts(w, j, -2);
  }

  /** The windows actually assigned: those due, without the first where the search starts past it.
      Without a positive interval there is no grid, and none are. */
  ghost function Assigned(w: Window, global: Bounds, now: Time): seq<Bounds> {
    if w.every <= 0 then [] else
    var due := Due(w, global, now);
    if Misses(w, global, now) && due != [] then due[1..] else due
  }

  /** Where the first window tried starts. */
  function FirstStart(w: Window, now: Time): Time {
    (if now >= FirstStop(w, now) then FirstStop(w, now) + w.every else FirstStop(w, now)) - w.period
  }

  /** Whether the search goes on after `k` windows. */
  predicate GoesOn(w: Window, now: Time, k: nat) {
    now >= FirstStart(w, now) + k * w.every
  }

  /** The intervals and periods for which the search ends: without a positive interval, those for
      which it does not begin. */
  predicate Ends(w: Window) {
    w.every > 0 || w.period < w.every
  }

  lemma NoGrid(w: Window, now: Time)
    requires w.every <= 0
    ensures FirstStart(w, now) == now + w.every - w.period
  {
  }

  lemma StepsAddUp(k: nat, d: int)
    requires d > 0
    ensures k * d >= k
  {
    MultiplesAreMonotone(0, k, d);
    assert k * d == k * (d - 1) + k;
  }

  lemma StepsDoNotAddUp(k: nat, d: int)
    requires d <= 0
    ensures k * d <= 0
  {
    assert k * (0 - d) >= 0;
  }

  lemma GridSearchEnds(w: Window, now: Time)
    requires w.every > 0
    ensures exists k: nat :: !GoesOn(w, now, k)
  {
    var d := now - FirstStart(w, now);
    var k: nat := if d >= 0 then d + 1 else 0;
    StepsAddUp(k, w.every);
    assert !GoesOn(w, now, k);
  }

  lemma SearchWithoutGrid(w: Window, now: Time, k: nat)
    requires w.every <= 0
    ensures w.period >= w.every ==> GoesOn(w, now, k)
    ensures w.period < w.every ==> !GoesOn(w, now, 0)
  {
    NoGrid(w, now);
    StepsDoNotAddUp(k, w.every);
  }

  /** The search for the windows of a time ends if and only if the interval is positive or longer
      than the period. */
  lemma SearchEndsIff(w: Window, now: Time)
    ensures (exists k: nat :: !GoesOn(w, now, k)) <==> Ends(w)
  {
    if w.every > 0 {
      GridSearchEnds(w, now);
    } else {
      forall k: nat ensures w.period >= w.every ==> GoesOn(w, now, k) { SearchWithoutGrid(w, now, k); }
      SearchWithoutGrid(w, now, 0);
    }
  }

  lemma MissesFirst(w: Window, global: Bounds, now: Time, j: int)
    requires w.every > 0
    requires FirstStop(w, now) == w.Stop(j)
    requires w.FirstAfter(now) - 2 <= j <= w.FirstAfter(now) + 1
    ensures Misses(w, global, now)
            <==> global.Contains(now) && j == w.FirstAfter(now) + 1 && w.FirstAfter(now) < w.FirstAfter(now + w.period)
  {
    StopShifts(w, j, -1);
    ContainedIff(w, now, j - 1);
  }

  lemma BetweenTail(w: Window, global: Bounds, i: int, j: int)
    requires i < j
    ensures Between(w, global, i, j)[1..] == Between(w, global, i + 1, j)
  {
  }

  /** The number of the first window tried, once its end has been moved past `now` where it was not. */
  lemma SearchStart(w: Window, global: Bounds, now: Time) returns (j: int)
    requires w.every > 0
    ensures w.Stop(j) == if now >= FirstStop(w, now) then FirstStop(w, now) + w.every else FirstStop(w, now)
    ensures w.FirstAfter(now) - 1 <= j <= w.FirstAfter(now) + 1
    ensures now >= 0 ==> j <= w.FirstAfter(now)
    ensures Misses(w, global, now)
            <==> global.Contains(now) && j == w.FirstAfter(now) + 1 && w.FirstAfter(now) < w.FirstAfter(now + w.period)
  {
    j := FirstStopOnGrid(w, now);
    MissesFirst(w, global, now, j);
    EndsAfter(w, now, j);
    if now >= FirstStop(w, now) {
      StopShifts(w, j, 1);
      j := j + 1;
    }
  }

  /** What trying the window numbered `j` decides. */
  lemma Tried(w: Window, global: Bounds, now: Time, j: int)
    requires w.every > 0
    ensures Clamp(w.At(j), global).Contains(now)
            <==> global.Contains(now) && w.FirstAfter(now) <= j < w.FirstAfter(now + w.period)
    ensures now >= w.At(j).start <==> j < w.FirstAfter(now + w.period)
    ensures w.At(j + 1) == Bounds(w.At(j).start + w.every, w.At(j).stop + w.every)
  {
    ContainedIff(w, now, j);
    EndsAfter(w, now + w.period, j);
    StopShifts(w, j, 1);
  }

  /** The windows found when the search starts at number `j`. */
  ghost function Found(w: Window, global: Bounds, now: Time, j: int, end: int): seq<Bounds>
    requires w.every > 0
  {
    var first := w.FirstAfter(now);
    if global.Contains(now) then Between(w, global, if j < first then first else j, end) else []
  }

  /** Where the search stands before it tries the window numbered `j`. */
  ghost predicate SearchState(
    w: Window, global: Bounds, now: Time, from: int, j: int, next: Bounds, found: seq<Bounds>)
    requires w.every > 0
  {
    && next == w.At(j)
    && from <= j && (j == from || j <= w.FirstAfter(now + w.period))
    && from <= w.FirstAfter(now) + 1
    && (Misses(w, global, now)
        <==> global.Contains(now) && from == w.FirstAfter(now) + 1 && w.FirstAfter(now) < w.FirstAfter(now + w.period))
    && found == Found(w, global, now, from, j)
  }

  /** Trying a window takes the search one step further. */
  lemma SearchStep(w: Window, global: Bounds, now: Time, from: int, j: int, next: Bounds, found: seq<Bounds>)
    requires w.every > 0 && SearchState(w, global, now, from, j, next, found) && now >= next.start
    ensures var b := Clamp(next, global);
            SearchState(w, global, now, from, j + 1, Bounds(next.start + w.every, next.stop + w.every),
              if b.Contains(now) then found + [b] else found)
  {
    Tried(w, global, now, j);
  }

  /** And when there is no window left to try, what was found is what is assigned. */
  lemma SearchDone(w: Window, global: Bounds, now: Time, from: int, j: int, next: Bounds, found: seq<Bounds>)
    requires w.every > 0 && SearchState(w, global, now, from, j, next, found) && now < next.start
    ensures found == Assigned(w, global, now)
  {
    Tried(w, global, now, j);
    FoundIsAssigned(w, global, now, from);
  }

  lemma FoundIsAssigned(w: Window, global: Bounds, now: Time, j: int)
    requires w.every > 0
    requires j <= w.FirstAfter(now) + 1
    requires Misses(w, global, now)
             <==> global.Contains(now) && j == w.FirstAfter(now) + 1 && w.FirstAfter(now) < w.FirstAfter(now + w.period)
    ensures Found(w, global, now, j, w.FirstAfter(now + w.period)) == Assigned(w, global, now)
  {
    var first, end := w.FirstAfter(now), w.FirstAfter(now + w.period);
    if Misses(w, global, now) {
      BetweenTail(w, global, first, end);
    }
  }

  // ----- what the assignment means -----

  /** The windows due are, in grid order, the clamps of exactly the grid windows containing the time. */
  lemma DueExact(w: Window, global: Bounds, now: Time, j: int)
    requires w.every > 0
    ensures var due, k := Due(w, global, now), j - w.FirstAfter(now);
            && (global.Contains(now) && w.At(j).Contains(now) <==> 0 <= k < |due|)
            && (0 <= k < |due| ==> due[k] == Clamp(w.At(j), global) && due[k].Contains(now))
  {
    ContainedIff(w, now, j);
  }

  /** Every window due is assigned, except where the search starts too late; a non-negative time never does. */
  lemma AssignedIsDueIff(w: Window, global: Bounds, now: Time)
    requires w.every > 0
    ensures Assigned(w, global, now) == Due(w, global, now) <==> !Misses(w, global, now)
    ensures Misses(w, global, now) ==>
              Due(w, global, now) == [Clamp(w.At(w.FirstAfter(now)), global)] + Assigned(w, global, now)
    ensures now >= 0 ==> !Misses(w, global, now)
  {
    var j := SearchStart(w, global, now);
    var due := Due(w, global, now);
    if Misses(w, global, now) {
      assert due == [due[0]] + due[1..];
      assert |due[1..]| != |due|;
    }
  }

  /** A time before the epoch can lose its window: it is truncated upwards. */
  lemma NegativeTimeIsMissed()
    ensures var w, global := Window(10, 10, 5), Bounds(-100, 100);
            && global.Contains(-8)
            && Due(w, global, -8) == [Bounds(-15, -5)]
            && Assigned(w, global, -8) == []
  {
    var w, global := Window(10, 10, 5), Bounds(-100, 100);
    assert w.FirstAfter(-8) == -1 && w.FirstAfter(2) == 0;
    assert Truncate(-8, 10) == 0 && Truncate(5, 10) == 0;
    assert Due(w, global, -8) == Between(w, global, -1, 0);
    assert w.At(-1) == Bounds(-15, -5);
  }

  /** Two windows clamp to the same bounds exactly when both cover the global bounds. */
  lemma ClampsMeetIff(w: Window, global: Bounds, i: int, j: int)
    requires w.every > 0 && i < j
    ensures Clamp(w.At(i), global) == Clamp(w.At(j), global)
            <==> w.At(j).start <= global.start && w.At(i).stop >= global.stop
  {
    StopShifts(w, i, j - i);
    MultiplesAreMonotone(1, j - i, w.every);
  }

  ghost predicate Distinct(bs: seq<Bounds>) {
    forall i, j :: 0 <= i < j < |bs| ==> bs[i] != bs[j]
  }

  /** The first window ending at or after the global bounds do. */
  function FirstCovering(w: Window, global: Bounds): int
    requires w.every > 0
  {
    w.FirstAfter(global.stop - 1)
  }

  lemma CoveringPair(w: Window, global: Bounds, now: Time, from: int, k: int)
    requires w.every > 0 && global.Contains(now)
    requires w.FirstAfter(now) <= from <= k && FirstCovering(w, global) <= k
    requires w.At(k + 1).start <= global.start
    ensures !Distinct(Between(w, global, from, w.FirstAfter(now + w.period)))
  {
    EndsAfter(w, global.stop - 1, k);
    StopShifts(w, k, 1);
    ClampsMeetIff(w, global, k, k + 1);
    ContainedIff(w, now, k + 1);
    var bs := Between(w, global, from, w.FirstAfter(now + w.period));
    assert bs[k - from] == bs[k + 1 - from];
  }

  lemma NoCoveringPair(w: Window, global: Bounds, k: int, i: int, j: int)
    requires w.every > 0 && i < j && k <= i
    requires w.At((if FirstCovering(w, global) > k then FirstCovering(w, global) else k) + 1).start > global.start
    ensures Clamp(w.At(i), global) != Clamp(w.At(j), global)
  {
    var m := if FirstCovering(w, global) > k then FirstCovering(w, global) else k;
    ClampsMeetIff(w, global, i, j);
    EndsAfter(w, global.stop - 1, i);
    if i >= m {
      MultiplesAreMonotone(m + 1, j, w.every);
    }
  }

  /** The windows from number `from` on that contain a time clamp to different bounds exactly when
      no two of them cover the global bounds. */
  lemma BetweenIsDistinctIff(w: Window, global: Bounds, now: Time, from: int)
    requires w.every > 0 && global.Contains(now) && w.FirstAfter(now) <= from
    ensures var k := if FirstCovering(w, global) > from then FirstCovering(w, global) else from;
            Distinct(Between(w, global, from, w.FirstAfter(now + w.period))) <==> w.At(k + 1).start > global.start
  {
    var k := if FirstCovering(w, global) > from then FirstCovering(w, global) else from;
    if w.At(k + 1).start <= global.start {
      CoveringPair(w, global, now, from, k);
    } else {
      var bs := Between(w, global, from, w.FirstAfter(now + w.period));
      forall i, j | 0 <= i < j < |bs| ensures bs[i] != bs[j] {
        NoCoveringPair(w, global, from, from + i, from + j);
      }
    }
  }

  lemma CoveringContains(w: Window, global: Bounds, now: Time)
    requires w.every > 0 && global.Contains(now)
    ensures w.FirstAfter(now) <= FirstCovering(w, global)
  {
    EndsAfter(w, global.stop - 1, FirstCovering(w, global));
    EndsAfter(w, now, FirstCovering(w, global));
  }

  /** A time inside the global bounds is due the same bounds twice exactly when two windows of the
      grid cover the global bounds, whatever the time. */
  lemma DueIsDistinctIff(w: Window, global: Bounds, now: Time)
    requires w.every > 0 && global.Contains(now)
    ensures Distinct(Due(w, global, now)) <==> w.At(FirstCovering(w, global) + 1).start > global.start
  {
    CoveringContains(w, global, now);
    BetweenIsDistinctIff(w, global, now, w.FirstAfter(now));
  }

  /** The first covering window that is assigned: where the first window due is missed, a later one. */
  function FirstCoveringAssigned(w: Window, global: Bounds, now: Time): int
    requires w.every > 0
  {
    var first := w.FirstAfter(now);
    if Misses(w, global, now) && FirstCovering(w, global) == first then first + 1 else FirstCovering(w, global)
  }

  /** And it is assigned the same bounds twice exactly when two such windows are assigned. */
  lemma AssignedIsDistinctIff(w: Window, global: Bounds, now: Time)
    requires w.every > 0 && global.Contains(now)
    ensures Distinct(Assigned(w, global, now)) <==> w.At(FirstCoveringAssigned(w, global, now) + 1).start > global.start
  {
    var first, end := w.FirstAfter(now), w.FirstAfter(now + w.period);
    CoveringContains(w, global, now);
    var j := SearchStart(w, global, now);
    if Misses(w, global, now) {
      BetweenTail(w, global, first, end);
      BetweenIsDistinctIff(w, global, now, first + 1);
    } else {
      BetweenIsDistinctIff(w, global, now, first);
    }
  }

  lemma CoveringWindowsRepeat(w: Window, global: Bounds, now: Time)
    requires w.every > 0 && global.Contains(now) && now >= 0
    requires w.At(FirstCovering(w, global) + 1).start <= global.start
    ensures !Distinct(Assigned(w, global, now))
  {
    AssignedIsDueIff(w, global, now);
    DueIsDistinctIff(w, global, now);
  }

  /** Windows a hundred long over bounds of ten: a row is given the same bounds many times over. */
  lemma LongWindowsRepeat()
    ensures !Distinct(Assigned(Window(1, 100, 0), Bounds(0, 10), 5))
  {
    var w, global := Window(1, 100, 0), Bounds(0, 10);
    assert FirstCovering(w, global) == 10;
    assert w.At(11).start == -89;
    CoveringWindowsRepeat(w, global, 5);
  }

  // ----- tumbling windows -----

  /** The one window due to a time when windows neither overlap nor leave gaps. */
  function TumblingWindow(w: Window, global: Bounds, now: Time): Bounds
    requires w.every > 0
  {
    Clamp(w.At(w.FirstAfter(now)), global)
  }

  /** A time inside the global bounds is assigned exactly one window, or none where the search starts too late. */
  lemma TumblingAssignsOne(w: Window, global: Bounds, now: Time)
    requires w.every > 0 && w.period == w.every
    ensures Assigned(w, global, now) ==
              if global.Contains(now) && !Misses(w, global, now) then [TumblingWindow(w, global, now)] else []
    ensures global.Contains(now) ==> TumblingWindow(w, global, now).Contains(now)
  {
    var first := w.FirstAfter(now);
    EndsAfter(w, now, first);
    EndsAfter(w, now, first - 1);
    StopShifts(w, first, -1);
    ContainedIff(w, now, first);
    StopShifts(w, first, 1);
    ContainedIff(w, now, first + 1);
    AssignedIsDueIff(w, global, now);
  }

  lemma TumblingDisjoint(w: Window, global: Bounds, a: Time, b: Time, t: Time)
    requires w.every > 0 && w.period == w.every
    ensures TumblingWindow(w, global, a).Contains(t) && TumblingWindow(w, global, b).Contains(t)
            ==> TumblingWindow(w, global, a) == TumblingWindow(w, global, b)
  {
    var i, j := w.FirstAfter(a), w.FirstAfter(b);
    ContainedIff(w, t, i);
    ContainedIff(w, t, j);
    TumblingStep(w, t);
  }

  lemma TumblingStep(w: Window, t: Time)
    requires w.every > 0 && w.period == w.every
    ensures w.FirstAfter(t + w.period) == w.FirstAfter(t) + 1
  {
    var first := w.FirstAfter(t);
    EndsAfter(w, t, first);
    EndsAfter(w, t, first - 1);
    StopShifts(w, first, -1);
    StopShifts(w, first, 1);
    EndsAfter(w, t + w.period, first + 1);
    EndsAfter(w, t + w.period, first);
  }

  // ----- rows and builders -----

  datatype Row = Row(time: Time, values: seq<real>)

  /** One append: a row to the builder of these bounds. */
  datatype Placement = Placement(bounds: Bounds, row: Row)

  ghost function Each(bs: seq<Bounds>, r: Row): seq<Placement> {
    if bs == [] then [] else Each(bs[..|bs| - 1], r) + [Placement(bs[|bs| - 1], r)]
  }

  /** Every append due for the rows, in order: one for each window a row's time is assigned. */
  ghost function Placed(assign: Time -> seq<Bounds>, rows: seq<Row>): seq<Placement> {
    if rows == [] then [] else
    var n := |rows| - 1;
    Placed(assign, rows[..n]) + Each(assign(rows[n].time), rows[n])
  }

  /** The rows that the builder for `key` receives. */
  ghost function Pick(ps: seq<Placement>, key: Bounds): seq<Row> {
    if ps == [] then [] else
    var n := |ps| - 1;
    Pick(ps[..n], key) + Chosen(ps[n], key)
  }

  ghost function Chosen(p: Placement, key: Bounds): seq<Row> {
    if p.bounds == key then [p.row] else []
  }

  lemma PickLast(ps: seq<Placement>, p: Placement, key: Bounds)
    ensures Pick(ps + [p], key) == Pick(ps, key) + Chosen(p, key)
  {
    assert (ps + [p])[..|ps|] == ps;
  }

  lemma EachOne(b: Bounds, r: Row)
    ensures Each([b], r) == [Placement(b, r)]
  {
    assert [b][..0] == [];
  }

  lemma EachLast(bs: seq<Bounds>, k: nat, r: Row)
    requires k < |bs|
    ensures Each(bs[..k + 1], r) == Each(bs[..k], r) + [Placement(bs[k], r)]
  {
    assert bs[..k + 1][..k] == bs[..k];
  }

  /** The rows, in order, that have a window and whose window is `key`. */
  ghost function RowsOf(has: Time -> bool, window: Time -> Bounds, key: Bounds, rows: seq<Row>): seq<Row> {
    if rows == [] then [] else
    var n := |rows| - 1;
    RowsOf(has, window, key, rows[..n]) + if has(rows[n].time) && window(rows[n].time) == key then [rows[n]] else []
  }

  /** Where each time is assigned at most one window, the builders partition the rows. */
  lemma {:induction false} Partitions(
    assign: Time -> seq<Bounds>, has: Time -> bool, window: Time -> Bounds, key: Bounds, rows: seq<Row>)
    requires forall t :: assign(t) == if has(t) then [window(t)] else []
    ensures Pick(Placed(assign, rows), key) == RowsOf(has, window, key, rows)
  {
    if rows != [] {
      var n := |rows| - 1;
      var r := rows[n];
      Partitions(assign, has, window, key, rows[..n]);
      if has(r.time) {
        EachOne(window(r.time), r);
        PickLast(Placed(assign, rows[..n]), Placement(window(r.time), r), key);
      } else {
        assert Placed(assign, rows) == Placed(assign, rows[..n]);
      }
    }
  }

  ghost function Assignment(w: Window, global: Bounds): Time -> seq<Bounds> {
    t => Assigned(w, global, t)
  }

  /**
    With tumbling windows the builders partition the rows: each receives, once and in order, exactly
    the rows that lie inside the global bounds, are not missed, and have its bounds as their window.
   */
  lemma TumblingPartitions(w: Window, global: Bounds, key: Bounds, rows: seq<Row>)
    requires w.every > 0 && w.period == w.every
    ensures Pick(Placed(Assignment(w, global), rows), key)
            == RowsOf(t => global.Contains(t) && !Misses(w, global, t), t => TumblingWindow(w, global, t), key, rows)
  {
    forall t ensures Assigned(w, global, t)
                     == if global.Contains(t) && !Misses(w, global, t) then [TumblingWindow(w, global, t)] else [] {
      TumblingAssignsOne(w, global, t);
    }
    Partitions(Assignment(w, global), t => global.Contains(t) && !Misses(w, global, t),
      t => TumblingWindow(w, global, t), key, rows);
  }

  /** The builders of one set of tags, by bounds. */
  type Builders = map<Bounds, seq<Row>>

  function Contents(m: Builders, key: Bounds): seq<Row> {
    if key in m then m[key] else []
  }

  /** Whether every builder gained the rows placed in it, in order. */
  ghost predicate Gained(before: Builders, after: Builders, ps: seq<Placement>) {
    forall key :: Contents(after, key) == Contents(before, key) + Pick(ps, key)
  }

  lemma ContentsPut(m: Builders, p: Placement, key: Bounds)
    ensures Contents(m[p.bounds := Contents(m, p.bounds) + [p.row]], key) == Contents(m, key) + Chosen(p, key)
  {
  }

  lemma GainedStep(before: Builders, m: Builders, ps: seq<Placement>, p: Placement)
    requires Gained(before, m, ps)
    ensures Gained(before, m[p.bounds := Contents(m, p.bounds) + [p.row]], ps + [p])
  {
    var after := m[p.bounds := Contents(m, p.bounds) + [p.row]];
    forall key ensures Contents(after, key) == Contents(before, key) + Pick(ps + [p], key) {
      PickLast(ps, p, key);
      ContentsPut(m, p, key);
      Associates(Contents(before, key), Pick(ps, key), Chosen(p, key));
    }
  }

  lemma {:induction false} PickConcat(ps: seq<Placement>, qs: seq<Placement>, key: Bounds)
    ensures Pick(ps + qs, key) == Pick(ps, key) + Pick(qs, key)
  {
    if qs == [] {
      assert ps + qs == ps;
    } else {
      var n := |qs| - 1;
      PickConcat(ps, qs[..n], key);
      assert ps + qs == ps + qs[..n] + [qs[n]];
      PickLast(ps + qs[..n], qs[n], key);
      Associates(Pick(ps, key), Pick(qs[..n], key), Chosen(qs[n], key));
    }
  }

  lemma GainedTransitive(a: Builders, b: Builders, c: Builders, ps: seq<Placement>, qs: seq<Placement>)
    requires Gained(a, b, ps) && Gained(b, c, qs)
    ensures Gained(a, c, ps + qs)
  {
    forall key ensures Contents(c, key) == Contents(a, key) + Pick(ps + qs, key) {
      PickConcat(ps, qs, key);
      Associates(Contents(a, key), Pick(ps, key), Pick(qs, key));
    }
  }

  lemma PlacedLast(assign: Time -> seq<Bounds>, rows: seq<Row>, i: nat)
    requires i < |rows|
    ensures Placed(assign, rows[..i + 1]) == Placed(assign, rows[..i]) + Each(assign(rows[i].time), rows[i])
  {
    assert rows[..i + 1][..i] == rows[..i];
  }

  class FixedWindowTransformation {
    const w: Window
    const bounds: Bounds
    const offset: int
    /** The builders already made, by the tags and bounds of their block. */
    var cache: map<string, Builders>

    ghost predicate Valid() {
      offset == w.start - Truncate(w.start, w.every)
    }

    constructor (bounds: Bounds, w: Window)
      ensures Valid() && this.w == w && this.bounds == bounds && cache == map[]
    {
      this.bounds, this.w := bounds, w;
      offset := w.start - Truncate(w.start, w.every);
      cache := map[];
    }

    method GetWindowBounds(now: Time) returns (found: seq<Bounds>)
      requires Valid() && Ends(w)
      ensures found == Assigned(w, bounds, now)
    {
      var stop := Truncate(now, w.every) + offset;
      if now >= stop {
        stop := stop + w.every;
      }
      var start := stop - w.period;
      found := [];
      ghost var from := 0;
      if w.every > 0 {
        from := SearchStart(w, bounds, now);
      } else {
        NoGrid(w, now);
      }
      ghost var j := from;
      while now >= start
        invariant w.every <= 0 ==> now < start && found == []
        invariant w.every > 0 ==> SearchState(w, bounds, now, from, j, Bounds(start, stop), found)
        decreases now - start
      {
        SearchStep(w, bounds, now, from, j, Bounds(start, stop), found);
        var bnds := Bounds(start, stop);
        if bnds.stop > bounds.stop {
          bnds := bnds.(stop := bounds.stop);
        }
        if bnds.start < bounds.start {
          bnds := bnds.(start := bounds.start);
        }
        if bnds.Contains(now) {
          found := found + [bnds];
        }
        stop := stop + w.every;
        start := start + w.every;
        j := j + 1;
      }
      if w.every > 0 {
        SearchDone(w, bounds, now, from, j, Bounds(start, stop), found);
      }
    }

    function BuildersOf(tags: string): Builders
      reads this
    {
      if tags in cache then cache[tags] else map[]
    }

    /** Appends a row to one builder. */
    method Place(tags: string, b: Bounds, r: Row)
      modifies this
      ensures BuildersOf(tags) == old(BuildersOf(tags))[b := Contents(old(BuildersOf(tags)), b) + [r]]
      ensures forall t :: t != tags ==> BuildersOf(t) == old(BuildersOf(t))
    {
      var builder := Contents(BuildersOf(tags), b);
      cache := cache[tags := BuildersOf(tags)[b := builder + [r]]];
    }

    /** Appends a row to the builder of each of its windows. */
    method AppendRow(tags: string, r: Row, found: seq<Bounds>)
      modifies this
      ensures Gained(old(BuildersOf(tags)), BuildersOf(tags), Each(found, r))
      ensures forall t :: t != tags ==> BuildersOf(t) == old(BuildersOf(t))
    {
      for k := 0 to |found|
        invariant Gained(old(BuildersOf(tags)), BuildersOf(tags), Each(found[..k], r))
        invariant forall t :: t != tags ==> BuildersOf(t) == old(BuildersOf(t))
      {
        GainedStep(old(BuildersOf(tags)), BuildersOf(tags), Each(found[..k], r), Placement(found[k], r));
        EachLast(found, k, r);
        Place(tags, found[k], r);
      }
      assert found[..|found|] == found;
    }

    /** The builders of the block's tags gain the rows assigned their bounds, in order; no other changes. */
    method Process(tags: string, rows: seq<Row>)
      requires Valid() && Ends(w)
      modifies this
      ensures Gained(old(BuildersOf(tags)), BuildersOf(tags), Placed(Assignment(w, bounds), rows))
      ensures forall t :: t != tags ==> BuildersOf(t) == old(BuildersOf(t))
    {
      ghost var assign := Assignment(w, bounds);
      for i := 0 to |rows|
        invariant Gained(old(BuildersOf(tags)), BuildersOf(tags), Placed(assign, rows[..i]))
        invariant forall t :: t != tags ==> BuildersOf(t) == old(BuildersOf(t))
      {
        ghost var before := BuildersOf(tags);
        var found := GetWindowBounds(rows[i].time);
        AppendRow(tags, rows[i], found);
        PlacedLast(assign, rows, i);
        GainedTransitive(old(BuildersOf(tags)), before, BuildersOf(tags), Placed(assign, rows[..i]),
          Each(found, rows[i]));
      }
      assert rows[..|rows|] == rows;
    }
  }
}
