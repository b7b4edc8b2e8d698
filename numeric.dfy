/**
 * The numpy and scipy primitives the hazard core relies on, as functions on
 * sequences of reals: ascending sort, maximum, the count of positive
 * entries, the percentile score with linear interpolation, and the
 * np.where / fancy-indexing pair used by the statistics filters.
 */
module Numeric {

  /** Ascending order, the order np.sort produces. */
  predicate Sorted(s: seq<real>) {
    forall i, j :: 0 <= i < j < |s| ==> s[i] <= s[j]
  }

  /** Inserts x in front of the first element that is not smaller than it. */
  function Insert(x: real, s: seq<real>): (r: seq<real>)
    requires Sorted(s)
    ensures Sorted(r)
    ensures multiset(r) == multiset(s) + multiset{x}
    ensures |r| == |s| + 1
  {
    if s == [] || x <= s[0] then [x] + s
    else
      var t := Insert(x, s[1..]);
      assert Sorted([s[0]] + t) by {
        HeadBelow(s[0], x, s[1..], t);
        SortedCons(s[0], t);
      }
      assert multiset([s[0]] + t) == multiset(s) + multiset{x} by {
        assert s == [s[0]] + s[1..];
      }
      [s[0]] + t
  }

  /** A head no larger than any entry of a sorted tail keeps the sequence sorted. */
  lemma SortedCons(h: real, t: seq<real>)
    requires Sorted(t) && forall k :: 0 <= k < |t| ==> h <= t[k]
    ensures Sorted([h] + t)
  {
    var r := [h] + t;
    forall i, j | 0 <= i < j < |r|
      ensures r[i] <= r[j]
    {
      assert r[j] == t[j - 1];
      if i > 0 {
        assert r[i] == t[i - 1];
      }
    }
  }

  /** A rearrangement of entries that are all at least h is still bounded below by h. */
  lemma HeadBelow(h: real, x: real, rest: seq<real>, t: seq<real>)
    requires h < x && forall k :: 0 <= k < |rest| ==> h <= rest[k]
    requires multiset(t) == multiset(rest) + multiset{x}
    ensures forall k :: 0 <= k < |t| ==> h <= t[k]
  {
    forall k | 0 <= k < |t|
      ensures h <= t[k]
    {
      assert t[k] in multiset(t);
      if t[k] != x {
        assert t[k] in multiset(rest);
      }
    }
  }

  /** np.sort of a one-dimensional array: ascending and a permutation of the input. */
  function Sort(s: seq<real>): (r: seq<real>)
    ensures Sorted(r)
    ensures multiset(r) == multiset(s)
    ensures |r| == |s|
  {
    if s == [] then []
    else
      assert s == [s[0]] + s[1..];
      Insert(s[0], Sort(s[1..]))
  }

  /** Sorting what is already sorted changes nothing (np.sort after ndarray.sort). */
  lemma {:induction false} SortSorted(s: seq<real>)
    requires Sorted(s)
    ensures Sort(s) == s
  {
    if s != [] {
      SortSorted(s[1..]);
      assert s == [s[0]] + s[1..];
    }
  }

  /** ndarray.max of a non-empty array: an element that bounds all others. */
  function MaxOf(s: seq<real>): (r: real)
    requires |s| > 0
    ensures r in s
    ensures forall k :: 0 <= k < |s| ==> s[k] <= r
  {
    if |s| == 1 then s[0]
    else
      var m := MaxOf(s[1..]);
      assert forall k :: 1 <= k < |s| ==> s[k] == s[1..][k - 1];
      if s[0] >= m then s[0] else m
  }

  /** Sorting does not change the maximum: the degeneracy test reads the same before and after. */
  lemma SortKeepsMax(s: seq<real>)
    requires |s| > 0
    ensures MaxOf(Sort(s)) == MaxOf(s)
  {
    var t := Sort(s);
    var a, b := MaxOf(t), MaxOf(s);
    assert a <= b by {
      assert a in multiset(t);
      assert a in multiset(s);
      var k :| 0 <= k < |s| && s[k] == a;
    }
    assert b <= a by {
      assert b in multiset(s);
      assert b in multiset(t);
      var k :| 0 <= k < |t| && t[k] == b;
    }
  }

  /** Number of entries that are strictly positive (valid storm-affected observations). */
  function CountPositive(s: seq<real>): (r: nat)
    ensures r <= |s|
  {
    if s == [] then 0 else (if s[0] > 0.0 then 1 else 0) + CountPositive(s[1..])
  }

  lemma {:induction false} CountPositiveInsert(x: real, s: seq<real>)
    requires Sorted(s)
    ensures CountPositive(Insert(x, s)) == (if x > 0.0 then 1 else 0) + CountPositive(s)
  {
    if s != [] && x > s[0] {
      CountPositiveInsert(x, s[1..]);
      assert ([s[0]] + Insert(x, s[1..]))[1..] == Insert(x, s[1..]);
    } else {
      assert ([x] + s)[1..] == s;
    }
  }

  /** Sorting keeps the number of positive samples, which the fitter's record threshold reads. */
  lemma {:induction false} SortKeepsCountPositive(s: seq<real>)
    ensures CountPositive(Sort(s)) == CountPositive(s)
  {
    if s != [] {
      SortKeepsCountPositive(s[1..]);
      CountPositiveInsert(s[0], Sort(s[1..]));
    }
  }

  /** Linear interpolation between a and b at the given fraction. */
  function Interpolate(a: real, b: real, fraction: real): (r: real)
    ensures fraction == 0.0 ==> r == a
    ensures fraction == 1.0 ==> r == b
    ensures a <= b && 0.0 <= fraction <= 1.0 ==> a <= r <= b
  {
    var d := b - a;
    if a <= b && 0.0 <= fraction <= 1.0 then
      NonNegativeProduct(d, fraction);
      NonNegativeProduct(d, 1.0 - fraction);
      assert d - d * fraction == d * (1.0 - fraction);
      a + d * fraction
    else a + d * fraction
  }

  /**
   * The position of the requested percentile among n sorted values, as a
   * whole part and a fraction (scipy: idx = per/100 * (n - 1)).
   */
  function Position(n: nat, per: real): (idx: real)
    requires n > 0 && 0.0 <= per <= 100.0
    ensures 0.0 <= idx <= (n - 1) as real
  {
    var f, m := per / 100.0, (n - 1) as real;
    assert f * m <= m by {
      NonNegativeProduct(1.0 - f, m);
      assert m - f * m == (1.0 - f) * m;
    }
    NonNegativeProduct(f, m);
    f * m
  }

  /** The percentile read off an already sorted sequence. */
  function ScoreSorted(v: seq<real>, per: real): (r: real)
    requires |v| > 0 && 0.0 <= per <= 100.0
    ensures per == 0.0 ==> r == v[0]
    ensures per == 100.0 ==> r == v[|v| - 1]
    ensures Sorted(v) ==> v[0] <= r <= v[|v| - 1]
  {
    var idx := Position(|v|, per);
    var lo := idx.Floor;
    if idx == lo as real then v[lo] else Interpolate(v[lo], v[lo + 1], idx - lo as real)
  }

  /**
   * scipy.stats.scoreatpercentile(a, per): sort, then interpolate linearly
   * between the two order statistics around per/100 * (n - 1).
   */
  function Score(a: seq<real>, per: real): (r: real)
    requires |a| > 0 && 0.0 <= per <= 100.0
    ensures exists k :: 0 <= k < |a| && a[k] <= r
    ensures exists k :: 0 <= k < |a| && r <= a[k]
  {
    var v := Sort(a);
    assert v[0] in multiset(a) && v[|v| - 1] in multiset(a);
    ScoreSorted(v, per)
  }

  /** The score lies between the order statistics that bracket its position. */
  lemma ScoreSortedBracket(v: seq<real>, per: real)
    requires |v| > 0 && 0.0 <= per <= 100.0 && Sorted(v)
    ensures var idx := Position(|v|, per);
            var lo := idx.Floor;
            var hi := if idx == lo as real then lo else lo + 1;
            0 <= lo <= hi < |v| && v[lo] <= ScoreSorted(v, per) <= v[hi]
  {
    var idx := Position(|v|, per);
    var lo := idx.Floor;
    if idx != lo as real {
      assert lo as real < idx <= (|v| - 1) as real;
      assert lo + 1 < |v|;
      var f := idx - lo as real;
      assert 0.0 < f < 1.0;
      var d := v[lo + 1] - v[lo];
      assert d >= 0.0;
      NonNegativeProduct(d, f);
      assert d * f <= d by {
        NonNegativeProduct(d, 1.0 - f);
        assert d - d * f == d * (1.0 - f);
      }
      assert ScoreSorted(v, per) == v[lo] + d * f;
      assert v[lo] + d == v[lo + 1];
    }
  }

  /** A higher percentile never scores lower, on the same data. */
  lemma ScoreMonotone(a: seq<real>, p: real, q: real)
    requires |a| > 0 && 0.0 <= p <= q <= 100.0
    ensures Score(a, p) <= Score(a, q)
  {
    var v := Sort(a);
    var n := |v|;
    var ip, iq := Position(n, p), Position(n, q);
    PositionMonotone(n, p, q);
    var lp, lq := ip.Floor, iq.Floor;
    ScoreSortedBracket(v, p);
    ScoreSortedBracket(v, q);
    if lp < lq {
      assert v[if ip == lp as real then lp else lp + 1] <= v[lq];
    } else if ip != lp as real && iq != lq as real {
      SameCellMonotone(v[lp], v[lp + 1], ip - lp as real, iq - lq as real);
    }
  }

  lemma PositionMonotone(n: nat, p: real, q: real)
    requires n > 0 && 0.0 <= p <= q <= 100.0
    ensures Position(n, p) <= Position(n, q)
  {
    var m := (n - 1) as real;
    NonNegativeProduct(m, q / 100.0 - p / 100.0);
    assert (q / 100.0) * m == (p / 100.0) * m + (q / 100.0 - p / 100.0) * m;
  }

  lemma NonNegativeProduct(x: real, y: real)
    requires x >= 0.0 && y >= 0.0
    ensures x * y >= 0.0 && y * x >= 0.0
  {
  }

  lemma SameCellMonotone(a: real, b: real, f: real, g: real)
    requires a <= b && f <= g
    ensures Interpolate(a, b, f) <= Interpolate(a, b, g)
  {
    NonNegativeProduct(b - a, g - f);
    assert (b - a) * g == (b - a) * f + (b - a) * (g - f);
  }

  /**
   * np.where(mask)[0]: the ascending indices at which the mask holds,
   * each exactly once.
   */
  function Where(mask: seq<bool>): (r: seq<nat>)
    ensures forall t :: 0 <= t < |r| ==> r[t] < |mask| && mask[r[t]]
    ensures forall i :: 0 <= i < |mask| && mask[i] ==> i in r
    ensures forall s, t :: 0 <= s < t < |r| ==> r[s] < r[t]
  {
    if mask == [] then []
    else
      var front := Where(mask[..|mask| - 1]);
      assert forall i :: 0 <= i < |mask| - 1 ==> mask[..|mask| - 1][i] == mask[i];
      if mask[|mask| - 1] then front + [|mask| - 1] else front
  }

  /** One more mask entry adds its index at the end when it is set. */
  lemma WhereSnoc(mask: seq<bool>, b: bool)
    ensures Where(mask + [b]) == Where(mask) + if b then [|mask|] else []
  {
    assert (mask + [b])[..|mask|] == mask;
  }

  /** The position at which np.where reports a true index of the mask. */
  lemma WhereFind(mask: seq<bool>, i: nat) returns (t: nat)
    requires i < |mask| && mask[i]
    ensures t < |Where(mask)| && Where(mask)[t] == i
  {
    assert i in Where(mask);
    t :| 0 <= t < |Where(mask)| && Where(mask)[t] == i;
  }

  /** x[1:] of a one-dimensional array (empty when x is empty). */
  function Tail<T>(x: seq<T>): (r: seq<T>)
    ensures |r| == if |x| == 0 then 0 else |x| - 1
    ensures forall i :: 0 <= i < |r| ==> r[i] == x[i + 1]
  {
    if |x| == 0 then [] else x[1..]
  }

  /** x[:-1] of a one-dimensional array (empty when x is empty). */
  function Init<T>(x: seq<T>): (r: seq<T>)
    ensures |r| == if |x| == 0 then 0 else |x| - 1
    ensures forall i :: 0 <= i < |r| ==> r[i] == x[i]
  {
    if |x| == 0 then [] else x[..|x| - 1]
  }

  /** Fancy indexing a[idx]: the entries of a at the given positions, in that order. */
  function Take<T>(a: seq<T>, idx: seq<nat>): (r: seq<T>)
    requires forall t :: 0 <= t < |idx| ==> idx[t] < |a|
    ensures |r| == |idx|
    ensures forall t :: 0 <= t < |idx| ==> r[t] == a[idx[t]]
  {
    if idx == [] then [] else [a[idx[0]]] + Take(a, idx[1..])
  }

  /** np.diff, or a[1:] - a[:-1]: the step from each entry to the next. */
  function Diffs(a: seq<real>): (r: seq<real>)
    ensures |r| == if |a| == 0 then 0 else |a| - 1
    ensures forall i :: 0 <= i < |r| ==> r[i] == a[i + 1] - a[i]
  {
    if |a| == 0 then [] else seq(|a| - 1, i requires 0 <= i < |a| - 1 => a[i + 1] - a[i])
  }
}
