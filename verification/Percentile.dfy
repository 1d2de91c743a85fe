/**
 The exact percentile: values gathered over chunks, sorted, and read out by linear interpolation.
 */
module Percentile {
  import opened Options

  // ----- sorting -----

  ghost predicate Sorted(s: seq<real>) {
    forall i, j :: 0 <= i <= j < |s| ==> s[i] <= s[j]
  }

  ghost predicate AllAtMost(s: seq<real>, v: real) {
    forall i :: 0 <= i < |s| ==> s[i] <= v
  }

  lemma SortedAppend(s: seq<real>, v: real)
    requires Sorted(s) && AllAtMost(s, v)
    ensures Sorted(s + [v])
  {
  }

  lemma MultisetLast(s: seq<real>, n: nat)
    requires |s| == n + 1
    ensures multiset(s) == multiset(s[..n]) + multiset{s[n]}
  {
    assert s == s[..n] + [s[n]];
  }

  function Insert(s: seq<real>, v: real): seq<real> {
    if s == [] || s[|s| - 1] <= v then s + [v] else Insert(s[..|s| - 1], v) + [s[|s| - 1]]
  }

  lemma {:induction false} InsertSorts(s: seq<real>, v: real, b: real)
    requires Sorted(s)
    ensures Sorted(Insert(s, v))
    ensures AllAtMost(s, b) && v <= b ==> AllAtMost(Insert(s, v), b)
  {
    if s == [] || s[|s| - 1] <= v {
      SortedAppend(s, v);
    } else {
      var n := |s| - 1;
      InsertSorts(s[..n], v, s[n]);
      SortedAppend(Insert(s[..n], v), s[n]);
      InsertSorts(s[..n], v, b);
    }
  }

  lemma {:induction false} InsertAdds(s: seq<real>, v: real)
    ensures multiset(Insert(s, v)) == multiset(s) + multiset{v}
  {
    if s != [] && s[|s| - 1] > v {
      var n := |s| - 1;
      InsertAdds(s[..n], v);
      MultisetLast(s, n);
    }
  }

  function Sort(s: seq<real>): seq<real> {
    if s == [] then [] else Insert(Sort(s[..|s| - 1]), s[|s| - 1])
  }

  lemma {:induction false} SortSorts(s: seq<real>)
    ensures Sorted(Sort(s)) && multiset(Sort(s)) == multiset(s)
  {
    if s != [] {
      var n := |s| - 1;
      SortSorts(s[..n]);
      InsertSorts(Sort(s[..n]), s[n], s[n]);
      InsertAdds(Sort(s[..n]), s[n]);
      MultisetLast(s, n);
    }
  }

  lemma SameLength(a: seq<real>, b: seq<real>)
    requires multiset(a) == multiset(b)
    ensures |a| == |b|
  {
    assert |multiset(a)| == |a| && |multiset(b)| == |b|;
  }

  lemma LastIsGreatest(s: seq<real>, n: nat, v: real)
    requires Sorted(s) && |s| == n + 1 && v in multiset(s)
    ensures v <= s[n]
  {
  }

  lemma SameLast(a: seq<real>, b: seq<real>, n: nat)
    requires Sorted(a) && Sorted(b) && multiset(a) == multiset(b) && |a| == |b| == n + 1
    ensures a[n] == b[n]
  {
    assert a[n] in multiset(a) && b[n] in multiset(b);
    LastIsGreatest(a, n, b[n]);
    LastIsGreatest(b, n, a[n]);
  }

  lemma Cancel(a: multiset<real>, b: multiset<real>, v: real)
    requires a + multiset{v} == b + multiset{v}
    ensures a == b
  {
    assert a == a + multiset{v} - multiset{v};
    assert b == b + multiset{v} - multiset{v};
  }

  /** Sorting has one result: it depends on the values alone. */
  lemma {:induction false} SortedIsUnique(a: seq<real>, b: seq<real>)
    requires Sorted(a) && Sorted(b) && multiset(a) == multiset(b)
    ensures a == b
  {
    SameLength(a, b);
    if a != [] {
      var n := |a| - 1;
      SameLast(a, b, n);
      MultisetLast(a, n);
      MultisetLast(b, n);
      Cancel(multiset(a[..n]), multiset(b[..n]), a[n]);
      SortedIsUnique(a[..n], b[..n]);
      assert a == a[..n] + [a[n]] && b == b[..n] + [b[n]];
    }
  }

  // ----- reading out -----

  function Ceil(x: real): (c: int)
    ensures x <= c as real < x + 1.0
    ensures c == x.Floor <==> x == x.Floor as real
  {
    if x == x.Floor as real then x.Floor else x.Floor + 1
  }

  /** The position of a quantile among `n` sorted values. */
  function Position(q: real, n: int): real {
    q * (n - 1) as real
  }

  /** The values at a position, interpolated; `None` where an index is out of range. */
  function ReadAt(s: seq<real>, x: real): Option<real> {
    var x0, x1 := x.Floor, Ceil(x);
    if x0 < 0 || x1 >= |s| then None
    else if x0 == x1 then Some(s[x0])
    else Some(Blend(s[x0], s[x1], x - x0 as real, x1 as real - x))
  }

  function Blend(y0: real, y1: real, right: real, left: real): real {
    y0 * left + y1 * right
  }

  /** The percentile of the sorted values. */
  function ReadOut(s: seq<real>, q: real): Option<real> {
    ReadAt(s, Position(q, |s|))
  }

  lemma BlendIsBetween(y0: real, y1: real, right: real, left: real)
    requires y0 <= y1 && right >= 0.0 && left >= 0.0 && left + right == 1.0
    ensures y0 <= Blend(y0, y1, right, left) <= y1
  {
    assert y0 * left + y0 * right == y0;
    assert y1 * left + y1 * right == y1;
    NonNegativeProduct(y1 - y0, right);
    NonNegativeProduct(y1 - y0, left);
  }

  lemma NonNegativeProduct(x: real, y: real)
    requires x >= 0.0 && y >= 0.0
    ensures x * y >= 0.0
  {
  }

  lemma BlendIsMonotone(y0: real, y1: real, right: real, left: real, right': real, left': real)
    requires y0 <= y1 && right <= right' && left + right == left' + right'
    ensures Blend(y0, y1, right, left) <= Blend(y0, y1, right', left')
  {
    NonNegativeProduct(y1 - y0, right' - right);
  }

  /** The point a fraction `f` of the way from one value to another. */
  function Along(y0: real, y1: real, f: real): real {
    y0 + f * (y1 - y0)
  }

  lemma BlendIsAlong(y0: real, y1: real, f: real)
    ensures Blend(y0, y1, f, 1.0 - f) == Along(y0, y1, f)
    ensures Along(y0, y1, 0.0) == y0 && Along(y0, y1, 1.0) == y1
  {
  }

  /** Reading is linear interpolation: from each sorted value to the next along a straight line. */
  lemma ReadIsLinear(s: seq<real>, k: nat, f: real)
    requires k + 1 < |s| && 0.0 <= f <= 1.0
    ensures ReadAt(s, k as real + f) == Some(Along(s[k], s[k + 1], f))
  {
    var x := k as real + f;
    BlendIsAlong(s[k], s[k + 1], f);
    if f == 1.0 {
      assert x == (k + 1) as real;
    } else {
      assert x.Floor == k;
    }
  }

  lemma QuotientTimes(x: real, y: real)
    requires y != 0.0
    ensures x / y * y == x
  {
  }

  /** In terms of the quantile: the values are spread evenly from 0 to 1. */
  lemma ReadOutIsLinear(s: seq<real>, k: nat, f: real)
    requires k + 1 < |s| && 0.0 <= f <= 1.0
    ensures ReadOut(s, (k as real + f) / (|s| - 1) as real) == Some(Along(s[k], s[k + 1], f))
  {
    QuotientTimes(k as real + f, (|s| - 1) as real);
    assert Position((k as real + f) / (|s| - 1) as real, |s|) == k as real + f;
    ReadIsLinear(s, k, f);
  }

  /** The value read at a position splits the sorted values there: those up to it are below, those from it on above. */
  lemma ReadSplits(s: seq<real>, x: real, i: int)
    requires Sorted(s)
    requires ReadAt(s, x).Some? && 0 <= i < |s|
    ensures i <= x.Floor ==> s[i] <= ReadAt(s, x).value
    ensures i >= Ceil(x) ==> s[i] >= ReadAt(s, x).value
  {
    var x0, x1 := x.Floor, Ceil(x);
    if x0 != x1 {
      BlendIsBetween(s[x0], s[x1], x - x0 as real, x1 as real - x);
    }
  }

  lemma ReadIsMonotone(s: seq<real>, x: real, x': real)
    requires Sorted(s)
    requires x <= x' && ReadAt(s, x).Some? && ReadAt(s, x').Some?
    ensures ReadAt(s, x).value <= ReadAt(s, x').value
  {
    if Ceil(x) <= x'.Floor {
      ReadSplits(s, x, Ceil(x));
      ReadSplits(s, x', Ceil(x));
    } else {
      var k := x.Floor;
      assert x'.Floor == k;
      if x == k as real {
        ReadSplits(s, x', k);
      } else {
        BlendIsMonotone(s[k], s[k + 1], x - k as real, (k + 1) as real - x, x' - k as real, (k + 1) as real - x');
      }
    }
  }

  lemma PositionInRangeIff(q: real, n: int)
    requires n >= 2
    ensures 0.0 <= Position(q, n) <= (n - 1) as real <==> 0.0 <= q <= 1.0
  {
    var m := (n - 1) as real;
    if q < 0.0 {
      assert (0.0 - q) * m > 0.0;
    } else if q > 1.0 {
      assert (q - 1.0) * m > 0.0;
    } else {
      assert q * m >= 0.0 && (1.0 - q) * m >= 0.0;
    }
  }

  /** Reading out stays in range exactly for a single value, or several and a quantile between 0 and 1. */
  lemma ReadOutDefinedIff(s: seq<real>, q: real)
    ensures ReadOut(s, q).Some? <==> |s| == 1 || (|s| >= 2 && 0.0 <= q <= 1.0)
  {
    var x := Position(q, |s|);
    if |s| == 1 {
      assert x == 0.0;
    } else if |s| >= 2 {
      PositionInRangeIff(q, |s|);
    }
  }

  lemma PositionIsMonotone(q: real, q': real, n: int)
    requires q <= q' && n >= 1
    ensures Position(q, n) <= Position(q', n)
  {
    ScalesUp(q, q', (n - 1) as real);
  }

  lemma ScalesUp(q: real, q': real, m: real)
    requires q <= q' && m >= 0.0
    ensures q * m <= q' * m
  {
    assert (q' - q) * m >= 0.0;
  }

  /** The percentile lies between the least and the greatest value, which are those of 0 and 1, and grows with the
      quantile. */
  lemma PercentileIsWellBehaved(s: seq<real>, q: real, q': real)
    requires Sorted(s) && s != []
    requires 0.0 <= q <= q' <= 1.0
    ensures ReadOut(s, q).Some? && ReadOut(s, q').Some?
    ensures s[0] <= ReadOut(s, q).value <= ReadOut(s, q').value <= s[|s| - 1]
    ensures ReadOut(s, 0.0) == Some(s[0]) && ReadOut(s, 1.0) == Some(s[|s| - 1])
  {
    ReadOutDefinedIff(s, q);
    ReadOutDefinedIff(s, q');
    PositionIsMonotone(q, q', |s|);
    ReadIsMonotone(s, Position(q, |s|), Position(q', |s|));
    ReadSplits(s, Position(q, |s|), 0);
    ReadSplits(s, Position(q', |s|), |s| - 1);
    assert Position(0.0, |s|) == 0.0 && Position(1.0, |s|) == (|s| - 1) as real;
  }

  /** The percentile does not depend on the order of the values. */
  lemma OrderIsIrrelevant(a: seq<real>, b: seq<real>, q: real)
    requires multiset(a) == multiset(b)
    ensures ReadOut(Sort(a), q) == ReadOut(Sort(b), q)
  {
    SortIsShared(a, b);
  }

  lemma SortIsShared(a: seq<real>, b: seq<real>)
    requires multiset(a) == multiset(b)
    ensures Sort(a) == Sort(b) && Sorted(Sort(a)) && multiset(Sort(a)) == multiset(b) && |Sort(a)| == |b|
  {
    SortSorts(a);
    SortSorts(b);
    SortedIsUnique(Sort(a), Sort(b));
    SameLength(Sort(a), b);
  }

  // ----- the aggregate -----

  method Interpolate(data: seq<real>, quantile: real) returns (r: Option<real>)
    ensures r == ReadOut(data, quantile)
  {
    var x := Position(quantile, |data|);
    var x0 := x.Floor;
    var x1 := Ceil(x);
    if x0 == x1 {
      if x0 < 0 || x0 >= |data| {
        return None;
      }
      return Some(data[x0]);
    }
    if x0 < 0 || x1 >= |data| {
      return None;
    }
    var y0 := data[x0];
    var y1 := data[x1];
    var y := Blend(y0, y1, x - x0 as real, x1 as real - x);
    return Some(y);
  }

  class ExactPercentileAgg {
    const quantile: real
    var data: seq<real>
    /** Every value given since the last reset, in the order given. */
    ghost var seen: seq<real>

    ghost predicate Valid()
      reads this
    {
      multiset(data) == multiset(seen)
    }

    constructor (quantile: real)
      ensures Valid() && seen == [] && this.quantile == quantile
    {
      this.quantile := quantile;
      data, seen := [], [];
    }

    method Reset()
      modifies this
      ensures Valid() && seen == []
    {
      data, seen := [], [];
    }

    method DoFloat(vs: seq<real>)
      requires Valid()
      modifies this
      ensures Valid() && seen == old(seen) + vs
    {
      data := data + vs;
      seen := seen + vs;
    }

    /** Sorts the values in place and interpolates; `None` is a run-time failure. */
    method ValueFloat() returns (r: Option<real>)
      requires Valid()
      modifies this
      ensures Valid() && seen == old(seen) && Sorted(data)
      ensures r == ReadOut(Sort(seen), quantile)
      ensures r.Some? <==> |seen| == 1 || (|seen| >= 2 && 0.0 <= quantile <= 1.0)
    {
      SortIsShared(data, seen);
      data := Sort(data);
      ReadOutDefinedIff(data, quantile);
      r := Interpolate(data, quantile);
    }
  }
}
