/**
 Sampling: every N-th row from an offset, whatever the chunks the rows come in.
 */
module Sample {
  /** The indices from `start` on, `step` apart, below `total`. */
  function Strided(start: int, step: int, total: int): seq<int>
    requires step > 0 || start >= total
    decreases total - start
  {
    if start >= total then [] else [start] + Strided(start + step, step, total)
  }

  /** The first index from `start` on, in steps, that is not below `total`. */
  function Next(start: int, step: int, total: int): int
    requires step > 0 || start >= total
    decreases total - start
  {
    if start >= total then start else Next(start + step, step, total)
  }

  lemma SameClass(a: int, b: int, step: int)
    requires step > 0
    ensures (a - (b + step)) % step == 0 <==> (a - b) % step == 0
  {
    var d := a - b;
    var q := d / step;
    assert d - step == (q - 1) * step + d % step;
    assert (d - step) / step == q - 1 by { DivisionIsUnique(d - step, step, q - 1, d % step); }
  }

  lemma DivisionIsUnique(d: int, step: int, q: int, r: int)
    requires step > 0 && d == q * step + r && 0 <= r < step
    ensures d / step == q && d % step == r
  {
    var e := d / step - q;
    assert e * step == r - d % step;
    assert e > 0 ==> e * step >= step;
    assert e < 0 ==> e * step <= 0 - step;
  }

  lemma BelowOneStep(d: int, step: int)
    requires 0 < d < step
    ensures d % step != 0
  {
    DivisionIsUnique(d, step, 0, d);
  }

  /** Which indices are selected: those from the start, below the total, a whole number of steps apart. */
  lemma {:induction false} StridedExact(start: int, step: int, total: int, i: int)
    requires step > 0
    ensures i in Strided(start, step, total) <==> start <= i < total && (i - start) % step == 0
    decreases total - start
  {
    if start < total {
      StridedExact(start + step, step, total, i);
      SameClass(i, start, step);
      if start < i < start + step {
        BelowOneStep(i - start, step);
      }
    }
  }

  /** The indices increase, so each is selected once. */
  lemma {:induction false} StridedIncreases(start: int, step: int, total: int, a: nat, b: nat)
    requires step > 0 && a < b < |Strided(start, step, total)|
    ensures start <= Strided(start, step, total)[a] < Strided(start, step, total)[b]
    decreases total - start
  {
    if a > 0 {
      StridedIncreases(start + step, step, total, a - 1, b - 1);
    } else {
      StridedIsBounded(start + step, step, total, b - 1);
    }
  }

  lemma {:induction false} StridedIsBounded(start: int, step: int, total: int, b: nat)
    requires step > 0 && b < |Strided(start, step, total)|
    ensures start <= Strided(start, step, total)[b]
    decreases total - start
  {
    if b > 0 {
      StridedIsBounded(start + step, step, total, b - 1);
    }
  }

  /** Selecting up to a total can stop anywhere and go on from the next index. */
  lemma {:induction false} StridedSplits(start: int, step: int, middle: int, total: int)
    requires (step > 0 || start >= total) && middle <= total
    ensures Strided(start, step, total) == Strided(start, step, middle)
            + Strided(Next(start, step, middle), step, total)
    ensures Next(start, step, total) == Next(Next(start, step, middle), step, total)
    decreases total - start
  {
    if start < middle {
      StridedSplits(start + step, step, middle, total);
    }
  }

  function Shifted(s: seq<int>, d: int): seq<int> {
    if s == [] then [] else [s[0] + d] + Shifted(s[1..], d)
  }

  lemma {:induction false} StridedShifts(start: int, step: int, total: int, d: int)
    requires step > 0 || start >= total
    ensures Strided(start + d, step, total + d) == Shifted(Strided(start, step, total), d)
    ensures Next(start + d, step, total + d) == Next(start, step, total) + d
    decreases total - start
  {
    if start < total {
      StridedShifts(start + step, step, total, d);
      assert start + d + step == start + step + d;
    }
  }

  /** What the chunk's own indices, from the offset the last chunk left, are among all rows. */
  lemma ChunkContinues(start: int, step: int, total: int, offset: int, l: nat)
    requires step > 0 || (start >= total && offset >= l)
    requires total + offset == Next(start, step, total)
    ensures Strided(start, step, total + l) == Strided(start, step, total) + Shifted(Strided(offset, step, l), total)
    ensures Next(start, step, total + l) == Next(offset, step, l) + total
  {
    StridedSplits(start, step, total, total + l);
    StridedShifts(offset, step, l, total);
    assert offset + total == total + offset && l + total == total + l;
  }

  /** Stepping from an offset passes the end of a chunk if and only if the step is positive, or the
      offset lies there already. */
  lemma SteppingEndsIff(offset: int, step: int, l: int)
    ensures (exists k: nat :: offset + Steps(k, step) >= l) <==> step > 0 || offset >= l
  {
    if step > 0 {
      var k: nat := if l > offset then l - offset else 0;
      StepsGrow(k, step);
      assert offset + Steps(k, step) >= l;
    } else {
      forall k: nat ensures Steps(k, step) <= 0 { StepsGrow(k, step); }
      assert Steps(0, step) == 0;
    }
  }

  function Steps(k: nat, step: int): int {
    if k == 0 then 0 else Steps(k - 1, step) + step
  }

  lemma {:induction false} StepsGrow(k: nat, step: int)
    ensures step > 0 ==> Steps(k, step) >= k
    ensures step <= 0 ==> Steps(k, step) <= 0
  {
    if k > 0 { StepsGrow(k - 1, step); }
  }

  class SampleSelector {
    const n: int
    const pos: int
    var offset: int
    var selected: seq<int>
    /** Where sampling started, how many rows have passed, and which of them were selected. */
    ghost var start: int
    ghost var total: nat
    ghost var all: seq<int>

    ghost predicate Valid()
      reads this
    {
      && (n > 0 || start >= total)
      && 0 <= start
      && 0 <= offset
      && total + offset == Next(start, n, total)
      && all == Strided(start, n, total)
    }

    /** `random` is the number drawn below `n` for a negative position. */
    constructor (n: int, pos: int, random: nat)
      requires pos < 0 ==> random < n
      ensures Valid() && this.n == n && this.pos == pos
      ensures start == (if pos < 0 then random else pos) && total == 0 && all == []
    {
      this.n, this.pos := n, pos;
      selected := [];
      var p := if pos < 0 then random else pos;
      offset, start, total, all := p, p, 0, [];
    }

    method Reset(random: nat)
      requires pos < 0 ==> random < n
      modifies this
      ensures Valid()
      ensures start == (if pos < 0 then random else pos) && total == 0 && all == []
    {
      var p := pos;
      if p < 0 {
        p := random;
      }
      offset := p;
      start, total, all := p, 0, [];
    }

    /** The loop over a chunk of `l` rows ends. */
    predicate Ends(l: nat)
      reads this
    {
      n > 0 || offset >= l
    }

    /** One chunk of `l` rows: selects, by their index in the chunk, the rows due among all rows so far. */
    method SelectSample(l: nat) returns (r: seq<int>)
      requires Valid() && Ends(l)
      modifies this
      ensures Valid() && start == old(start) && total == old(total) + l
      ensures r == selected && all == old(all) + Shifted(r, old(total))
      ensures all == Strided(start, n, total)
    {
      var i := offset;
      selected := [];
      while i < l
        invariant offset <= i
        invariant offset == old(offset) && start == old(start) && total == old(total) && all == old(all)
        invariant selected + Strided(i, n, l) == Strided(offset, n, l)
        invariant Next(i, n, l) == Next(offset, n, l)
        decreases l - i
      {
        assert selected + ([i] + Strided(i + n, n, l)) == selected + [i] + Strided(i + n, n, l);
        selected := selected + [i];
        i := i + n;
      }
      assert selected == Strided(offset, n, l) by {
        assert selected + [] == selected;
      }
      ChunkContinues(start, n, total, offset, l);
      offset := i - l;
      all := all + Shifted(selected, total);
      total := total + l;
      r := selected;
    }
  }
}
