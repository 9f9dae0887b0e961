/** What the edge lists of src/base/ranges.c mean, and what setting a region does. */
module RangeSet {

  /** Strictly increasing. */
  predicate Sorted(es: seq<int>) {
    forall i, j | 0 <= i < j < |es| :: es[i] < es[j]
  }

  /** An edge list as ranges_for_each reads it: from each edge with an even index up to
      the next one. */
  predicate Covers(es: seq<int>, x: int) {
    exists i | 0 <= i < |es| / 2 :: InPair(es, i, x)
  }

  predicate InPair(es: seq<int>, i: nat, x: int)
    requires 2 * i + 1 < |es|
  {
    es[2 * i] <= x < es[2 * i + 1]
  }

  predicate IsRangeSet(es: seq<int>) { Sorted(es) && |es| % 2 == 0 }

  predicate Odd(n: nat) { n % 2 == 1 }

  /** The first index from k on whose edge is not below x: where the loops over
      cur stop. */
  function First(es: seq<int>, k: nat, x: int): (r: nat)
    requires k <= |es|
    ensures k <= r <= |es| && (forall i | k <= i < r :: es[i] < x) && (r < |es| ==> es[r] >= x)
    decreases |es| - k
  {
    if k < |es| && es[k] < x then First(es, k + 1, x) else k
  }

  /** The edges after ranges_set_region_to. */
  function SetRegion(es: seq<int>, start: int, end: int, inc: bool): seq<int> {
    var k := First(es, 0, start);
    var m := First(es, k, end + 1);
    es[..k]
    + (if inc != Odd(k) then [start] else [])
    + (if inc != Odd(m) then [end] else [])
    + es[m..]
  }

  /** In an increasing list a point is covered when an odd number of edges is not
      above it. */
  lemma CoversParity(es: seq<int>, x: int)
    requires IsRangeSet(es)
    ensures Covers(es, x) <==> Odd(First(es, 0, x + 1))
  {
    var r := First(es, 0, x + 1);
    if Odd(r) {
      assert InPair(es, r / 2, x);
    } else {
      forall i | 0 <= i < |es| / 2 ensures !InPair(es, i, x) {
        if 2 * i < r { assert es[2 * i + 1] < x + 1; } else { assert es[2 * i] >= es[r]; }
      }
    }
  }

  /** In an increasing list First is determined by what is around it. */
  lemma FirstIs(es: seq<int>, x: int, r: nat)
    requires Sorted(es) && r <= |es|
    requires (r > 0 ==> es[r - 1] < x) && (r < |es| ==> es[r] >= x)
    ensures First(es, 0, x) == r
  {
    FirstFrom(es, x, 0, r);
  }

  lemma {:induction false} FirstFrom(es: seq<int>, x: int, k: nat, r: nat)
    requires Sorted(es) && k <= r <= |es|
    requires (r > 0 ==> es[r - 1] < x) && (r < |es| ==> es[r] >= x)
    ensures First(es, k, x) == r
    decreases r - k
  {
    if k < r {
      assert es[k] <= es[r - 1];
      FirstFrom(es, x, k + 1, r);
    }
  }

  /** Setting a region keeps the representation and changes exactly that region. */
  lemma SetRegionMeaning(es: seq<int>, start: int, end: int, inc: bool)
    requires IsRangeSet(es) && start < end
    ensures IsRangeSet(SetRegion(es, start, end, inc))
    ensures forall x :: Covers(SetRegion(es, start, end, inc), x) <==> if start <= x < end then inc else Covers(es, x)
  {
    SetRegionSorted(es, start, end, inc);
    forall x
      ensures Covers(SetRegion(es, start, end, inc), x) <==> if start <= x < end then inc else Covers(es, x)
    {
      SetRegionAt(es, start, end, inc, x);
    }
  }

  /** The pieces SetRegion puts together: what is kept in front, what is kept behind,
      and where the two new edges go. */
  lemma Pieces(es: seq<int>, start: int, end: int, inc: bool) returns (k: nat, a: nat, b: nat, m: nat)
    requires start < end && Sorted(es)
    ensures k == First(es, 0, start) && m == First(es, k, end + 1)
    ensures a == k + (if inc != Odd(k) then 1 else 0) && b == a + (if inc != Odd(m) then 1 else 0)
    ensures var rs := SetRegion(es, start, end, inc);
            && |rs| == b + |es| - m
            && (forall i | 0 <= i < k :: rs[i] == es[i] < start)
            && (a > k ==> rs[k] == start)
            && (b > a ==> rs[a] == end)
            && (forall i | b <= i < |rs| :: rs[i] == es[i - b + m] > end)
  {
    hide Odd, First;
    k := First(es, 0, start);
    m := First(es, k, end + 1);
    var s, e := if inc != Odd(k) then [start] else [], if inc != Odd(m) then [end] else [];
    a := k + |s|;
    b := a + |e|;
    assert m < |es| ==> es[m] > end;
    FourParts(es[..k], s, e, es[m..]);
    KeptBehind(es, m, end, SetRegion(es, start, end, inc), b);
  }

  lemma KeptBehind(es: seq<int>, m: nat, end: int, rs: seq<int>, b: nat)
    requires Sorted(es) && m <= |es| && (m < |es| ==> es[m] > end)
    requires |rs| == b + |es| - m && forall i | b <= i < |rs| :: rs[i] == es[m..][i - b]
    ensures forall i | b <= i < |rs| :: rs[i] == es[i - b + m] > end
  {
    assert forall i | m <= i < |es| :: es[i] >= es[m] > end;
  }

  lemma FourParts(p: seq<int>, s: seq<int>, e: seq<int>, t: seq<int>)
    ensures var rs, a, b := p + s + e + t, |p| + |s|, |p| + |s| + |e|;
            && (forall i | 0 <= i < |p| :: rs[i] == p[i])
            && (s != [] ==> rs[|p|] == s[0])
            && (e != [] ==> rs[a] == e[0])
            && (forall i | b <= i < |rs| :: rs[i] == t[i - b])
  {
  }

  /** Both new edges together keep the number of edges even. */
  lemma PiecesEven(k: nat, a: nat, b: nat, m: nat, n: nat, inc: bool)
    requires m <= n && n % 2 == 0
    requires a == k + (if inc != Odd(k) then 1 else 0) && b == a + (if inc != Odd(m) then 1 else 0)
    ensures (b + n - m) % 2 == 0 && Odd(a) == inc
  {
    hide Odd;
    OddNext(k);
    OddNext(a);
    EvenLength(b, m, n);
  }

  lemma OddNext(k: nat)
    ensures Odd(k + 1) == !Odd(k)
  {
  }

  lemma EvenLength(b: nat, m: nat, n: nat)
    requires Odd(b) == Odd(m) && m <= n && n % 2 == 0
    ensures (b + n - m) % 2 == 0
  {
    var x, y, z := b / 2, m / 2, n / 2;
    assert b + n - m == 2 * (x + z - y);
  }

  lemma SetRegionSorted(es: seq<int>, start: int, end: int, inc: bool)
    requires IsRangeSet(es) && start < end
    ensures IsRangeSet(SetRegion(es, start, end, inc))
  {
    hide SetRegion, First, Odd;
    var k, a, b, m := Pieces(es, start, end, inc);
    PiecesEven(k, a, b, m, |es|, inc);
    PiecesSorted(es, SetRegion(es, start, end, inc), start, end, k, a, b, m);
  }

  lemma PiecesSorted(es: seq<int>, rs: seq<int>, start: int, end: int, k: nat, a: nat, b: nat, m: nat)
    requires Sorted(es) && start < end && k <= a <= k + 1 && a <= b <= a + 1 && k <= m <= |es|
    requires |rs| == b + |es| - m
    requires forall i | 0 <= i < k :: rs[i] == es[i] < start
    requires (a > k ==> rs[k] == start) && (b > a ==> rs[a] == end)
    requires forall i | b <= i < |rs| :: rs[i] == es[i - b + m] > end
    ensures Sorted(rs)
  {
    forall i, j | 0 <= i < j < |rs| ensures rs[i] < rs[j] {
      if i >= b {
        assert rs[i] == es[i - b + m] && rs[j] == es[j - b + m];
      } else if j >= b {
        assert rs[i] <= end < rs[j];
      }
    }
  }

  lemma SetRegionAt(es: seq<int>, start: int, end: int, inc: bool, x: int)
    requires IsRangeSet(es) && start < end
    ensures Covers(SetRegion(es, start, end, inc), x) <==> if start <= x < end then inc else Covers(es, x)
  {
    hide SetRegion, Covers;
    if x < start {
      BeforeRegion(es, start, end, inc, x);
    } else if x < end {
      InRegion(es, start, end, inc, x);
    } else {
      BehindRegion(es, start, end, inc, x);
    }
  }

  lemma BeforeRegion(es: seq<int>, start: int, end: int, inc: bool, x: int)
    requires IsRangeSet(es) && x < start < end
    ensures Covers(SetRegion(es, start, end, inc), x) <==> Covers(es, x)
  {
    hide SetRegion, Covers, First, Odd;
    var k, a, b, m := Pieces(es, start, end, inc);
    SetRegionSorted(es, start, end, inc);
    CoversParity(es, x);
    CoversParity(SetRegion(es, start, end, inc), x);
    FirstBelow(es, start, x + 1);
    InFront(es, SetRegion(es, start, end, inc), k, start, x);
  }

  lemma InRegion(es: seq<int>, start: int, end: int, inc: bool, x: int)
    requires IsRangeSet(es) && start <= x < end
    ensures Covers(SetRegion(es, start, end, inc), x) <==> inc
  {
    hide SetRegion, Covers, First, Odd;
    var k, a, b, m := Pieces(es, start, end, inc);
    PiecesEven(k, a, b, m, |es|, inc);
    SetRegionSorted(es, start, end, inc);
    CoversParity(SetRegion(es, start, end, inc), x);
    FirstIs(SetRegion(es, start, end, inc), x + 1, a);
  }

  lemma BehindRegion(es: seq<int>, start: int, end: int, inc: bool, x: int)
    requires IsRangeSet(es) && start < end <= x
    ensures Covers(SetRegion(es, start, end, inc), x) <==> Covers(es, x)
  {
    hide SetRegion, Covers, First, Odd;
    var k, a, b, m := Pieces(es, start, end, inc);
    PiecesEven(k, a, b, m, |es|, inc);
    SetRegionSorted(es, start, end, inc);
    CoversParity(es, x);
    CoversParity(SetRegion(es, start, end, inc), x);
    FirstAbove(es, k, end + 1, x + 1);
    Behind(es, SetRegion(es, start, end, inc), m, b, end, x);
    SameParity(First(es, 0, x + 1), m, b, |es|);
  }

  lemma InFront(es: seq<int>, rs: seq<int>, k: nat, start: int, x: int)
    requires Sorted(es) && Sorted(rs) && k <= |es| && k <= |rs| && x < start && First(es, 0, x + 1) <= k
    requires forall i | 0 <= i < k :: rs[i] == es[i]
    requires k < |rs| ==> rs[k] > x
    ensures First(rs, 0, x + 1) == First(es, 0, x + 1)
  {
    FirstIs(rs, x + 1, First(es, 0, x + 1));
  }

  lemma Behind(es: seq<int>, rs: seq<int>, m: nat, b: nat, end: int, x: int)
    requires Sorted(es) && Sorted(rs) && m <= |es| && |rs| == b + |es| - m && end <= x && m <= First(es, 0, x + 1)
    requires forall i | b <= i < |rs| :: rs[i] == es[i - b + m]
    requires b > 0 ==> rs[b - 1] <= x
    ensures First(rs, 0, x + 1) == First(es, 0, x + 1) - m + b
  {
    var f := First(es, 0, x + 1);
    assert f > m ==> rs[f - m + b - 1] == es[f - 1] < x + 1;
    FirstIs(rs, x + 1, f - m + b);
  }

  lemma SameParity(f: nat, m: nat, b: nat, n: nat)
    requires m <= f && m <= n && n % 2 == 0 && (b + n - m) % 2 == 0
    ensures Odd(f - m + b) == Odd(f)
  {
  }

  lemma FirstBelow(es: seq<int>, start: int, y: int)
    requires Sorted(es) && y <= start
    ensures First(es, 0, y) <= First(es, 0, start)
  {
    var f, k := First(es, 0, y), First(es, 0, start);
    assert k < |es| ==> es[k] >= start;
  }

  lemma FirstAbove(es: seq<int>, k: nat, e: int, y: int)
    requires Sorted(es) && k <= |es| && e <= y && (forall i | 0 <= i < k :: es[i] < y)
    ensures First(es, k, e) <= First(es, 0, y)
  {
    var m, f := First(es, k, e), First(es, 0, y);
    assert forall i | 0 <= i < m :: es[i] < y;
  }

  /** With the bounds the wrong way round the list survives if and only if nothing was
      to be changed just below start; then nothing is changed at all. */
  lemma SetRegionReversed(es: seq<int>, start: int, end: int, inc: bool)
    requires IsRangeSet(es) && end < start
    ensures IsRangeSet(SetRegion(es, start, end, inc)) <==> Covers(es, start - 1) == inc
    ensures Covers(es, start - 1) == inc ==> SetRegion(es, start, end, inc) == es
  {
    CoversParity(es, start - 1);
    var k := First(es, 0, start);
    assert First(es, k, end + 1) == k;
    var rs := SetRegion(es, start, end, inc);
    if inc != Odd(k) {
      assert rs[k] == start && rs[k + 1] == end;
    } else {
      assert rs == es[..k] + [] + [] + es[k..] == es;
    }
  }

  /** Two lists for the same set are the same list. */
  lemma Canonical(a: seq<int>, b: seq<int>)
    requires IsRangeSet(a) && IsRangeSet(b) && forall x :: Covers(a, x) <==> Covers(b, x)
    ensures a == b
  {
    hide Covers;
    if |a| <= |b| {
      CanonicalPrefix(a, b, |a|);
      NothingBehind(a, b);
    } else {
      CanonicalPrefix(b, a, |b|);
      NothingBehind(b, a);
    }
  }

  lemma NothingBehind(a: seq<int>, b: seq<int>)
    requires IsRangeSet(a) && IsRangeSet(b) && forall x :: Covers(a, x) <==> Covers(b, x)
    requires |a| <= |b| && b[..|a|] == a
    ensures a == b
  {
    if |a| < |b| {
      var x := b[|a|];
      assert forall i | 0 <= i < |a| :: a[i] == b[i];
      FirstIs(a, x + 1, |a|);
      FirstIs(b, x + 1, |a| + 1);
      CoversParity(a, x);
      CoversParity(b, x);
    }
  }

  lemma {:induction false} CanonicalPrefix(a: seq<int>, b: seq<int>, n: nat)
    requires IsRangeSet(a) && IsRangeSet(b) && forall x :: Covers(a, x) <==> Covers(b, x)
    requires n <= |a| <= |b|
    ensures a[..n] == b[..n]
  {
    hide Covers;
    if n > 0 {
      CanonicalPrefix(a, b, n - 1);
      SameEdge(a, b, n - 1);
      assert a[..n] == a[..n - 1] + [a[n - 1]] && b[..n] == b[..n - 1] + [b[n - 1]];
    }
  }

  lemma SameEdge(a: seq<int>, b: seq<int>, n: nat)
    requires IsRangeSet(a) && IsRangeSet(b) && forall x :: Covers(a, x) <==> Covers(b, x)
    requires n < |a| <= |b| && a[..n] == b[..n]
    ensures a[n] == b[n]
  {
    hide Covers;
    if a[n] != b[n] {
      if a[n] < b[n] { LowerEdge(a, b, n); } else { LowerEdge(b, a, n); }
    }
  }

  /** Where the lists first differ, the lower edge is covered differently. */
  lemma LowerEdge(a: seq<int>, b: seq<int>, n: nat)
    requires IsRangeSet(a) && IsRangeSet(b)
    requires n < |a| && n < |b| && a[..n] == b[..n] && a[n] < b[n]
    ensures Covers(a, a[n]) != Covers(b, a[n])
  {
    hide Covers;
    var x := a[n];
    assert n > 0 ==> b[n - 1] == b[..n][n - 1] == a[..n][n - 1] == a[n - 1] < x;
    FirstIs(a, x + 1, n + 1);
    FirstIs(b, x + 1, n);
    CoversParity(a, x);
    CoversParity(b, x);
  }

  // ---------------------------------------------------------------------------
  // Intervals
  // ---------------------------------------------------------------------------

  datatype Interval = Interval(start: int, end: int)

  /** The intervals ranges_for_each hands out, in order. */
  function Intervals(es: seq<int>): seq<Interval>
    decreases |es|
  {
    if |es| < 2 then [] else [Interval(es[0], es[1])] + Intervals(es[2..])
  }

  lemma IntervalsFrom(es: seq<int>, i: nat)
    requires i <= |es|
    ensures i + 2 <= |es| ==> Intervals(es[i..]) == [Interval(es[i], es[i + 1])] + Intervals(es[i + 2..])
    ensures |es| < i + 2 ==> Intervals(es[i..]) == []
  {
    if i + 2 <= |es| { assert es[i..][2..] == es[i + 2..]; }
  }

  lemma {:induction false} IntervalAt(es: seq<int>, i: nat)
    requires i < |es| / 2
    ensures |Intervals(es)| == |es| / 2 && Intervals(es)[i] == Interval(es[2 * i], es[2 * i + 1])
    decreases |es|
  {
    if i > 0 { IntervalAt(es[2..], i - 1); } else if |es| >= 4 { IntervalAt(es[2..], 0); }
  }

  lemma {:induction false} IntervalsLength(es: seq<int>)
    ensures |Intervals(es)| == |es| / 2
    decreases |es|
  {
    if |es| >= 2 { IntervalsLength(es[2..]); }
  }

  /** They are the maximal intervals of the set: not empty, in order, with a gap
      between any two, and together the whole set. */
  lemma IntervalsMaximal(es: seq<int>)
    requires IsRangeSet(es)
    ensures var rs := Intervals(es);
            && (forall i | 0 <= i < |rs| :: rs[i].start < rs[i].end)
            && (forall i, j | 0 <= i < j < |rs| :: rs[i].end < rs[j].start)
            && (forall x :: Covers(es, x) <==> exists i | 0 <= i < |rs| :: rs[i].start <= x < rs[i].end)
  {
    var rs := Intervals(es);
    IntervalsLength(es);
    forall i | 0 <= i < |rs| ensures rs[i] == Interval(es[2 * i], es[2 * i + 1]) { IntervalAt(es, i); }
    forall x
      ensures Covers(es, x) <==> exists i | 0 <= i < |rs| :: rs[i].start <= x < rs[i].end
    {
      if Covers(es, x) {
        var i :| 0 <= i < |es| / 2 && InPair(es, i, x);
        assert rs[i].start <= x < rs[i].end;
      }
      if i :| 0 <= i < |rs| && rs[i].start <= x < rs[i].end {
        assert InPair(es, i, x);
      }
    }
  }
}
