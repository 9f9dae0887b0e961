/** What update_memory of src/boot/fit.c leaves in the memory set for a map that is sorted
    by address: when the final edge list is a set, although ranges may have been added back
    to front on the way. */
module MemoryOrder {
  import opened Machine
  import opened RangeSet
  import opened MemoryMap

  predicate Ascending(e820: seq<E820Range>) {
    forall i, j | 0 <= i < j < |e820| :: e820[i].base + e820[i].size <= e820[j].base
  }

  /** RAM with whole MiB blocks that begins where the MiB block of r ends. */
  predicate Repairs(q: E820Range, r: E820Range) {
    q.ram && AlignUp(q.base) == AlignUp(r.base) < AlignDown(End(q))
  }

  /** One of the ranges between i and n does. */
  predicate Repaired(e820: seq<E820Range>, i: nat, n: nat)
    requires i < |e820| && n <= |e820|
  {
    exists j | i < j < n :: Repairs(e820[j], e820[i])
  }

  predicate AllRepaired(e820: seq<E820Range>, n: nat)
    requires n <= |e820|
  {
    forall i | 0 <= i < n && !Ordered(e820[i]) :: Repaired(e820, i, n)
  }

  function Mem(e820: seq<E820Range>, n: nat): seq<int>
    requires n <= |e820|
  {
    Built(e820[..n]).mem
  }

  /** Where the first n ranges end. */
  function Reached(e820: seq<E820Range>, n: nat): uint64
    requires n <= |e820|
  {
    if n == 0 then 0 else End(e820[n - 1])
  }

  // ---------------------------------------------------------------------------
  // Edge lists
  // ---------------------------------------------------------------------------

  /** Everything lies in front of start: both edges go behind it. */
  lemma Appended(es: seq<int>, start: int, end: int)
    requires |es| % 2 == 0 && forall i | 0 <= i < |es| :: es[i] < start
    ensures SetRegion(es, start, end, true) == es + [start, end]
  {
    var k := First(es, 0, start);
    assert k == |es|;
  }

  /** Back to front once more, where start is an edge already. */
  lemma InsertedAgain(es: seq<int>, p: nat, start: int, end: int)
    requires p < |es| && p % 2 == 0 && end < start == es[p] && forall i | 0 <= i < p :: es[i] < start
    ensures SetRegion(es, start, end, true) == es[..p] + [start, end] + es[p..]
  {
    var k := First(es, 0, start);
    assert k == p;
    var m := First(es, k, end + 1);
    assert m == p;
  }

  /** A region from start on that takes everything behind out. */
  lemma Swallowed(es: seq<int>, p: nat, start: int, end: int)
    requires p < |es| && p % 2 == 0 && |es| % 2 == 0 && es[p] == start < end
    requires (forall i | 0 <= i < p :: es[i] < start) && forall i | p <= i < |es| :: es[i] <= start
    ensures SetRegion(es, start, end, true) == es[..p] + [start, end]
  {
    var k := First(es, 0, start);
    assert k == p;
    var m := First(es, k, end + 1);
    assert m == |es|;
  }

  /** What lies in front of start stays. */
  lemma FrontStays(es: seq<int>, p: nat, start: int, end: int)
    requires p <= |es| && |es| % 2 == 0 && forall i | 0 <= i < p :: es[i] < start
    ensures var rs := SetRegion(es, start, end, true); |rs| >= p && rs[..p] == es[..p] && |rs| % 2 == 0
  {
    hide First, Odd;
    var k := First(es, 0, start);
    var m := First(es, k, end + 1);
    assert k >= p;
    OddNext(k);
    Parts(k, m, |es|);
  }

  lemma Parts(k: nat, m: nat, n: nat)
    requires k <= m <= n && n % 2 == 0
    ensures (k + (if Odd(k) then 0 else 1) + (if Odd(m) then 0 else 1) + (n - m)) % 2 == 0
  {
    var a, b := if Odd(k) then 0 else 1, if Odd(m) then 0 else 1;
    PiecesEven(k, k + a, k + a + b, m, n, true);
  }

  lemma AboveNone(es: seq<int>, start: int, end: int, top: int)
    requires (forall i | 0 <= i < |es| :: es[i] <= top) && start <= top && end <= top
    ensures var rs := SetRegion(es, start, end, true); forall i | 0 <= i < |rs| :: rs[i] <= top
  {
  }

  // ---------------------------------------------------------------------------
  // Alignment
  // ---------------------------------------------------------------------------

  lemma AlignDownMonotone(a: uint64, b: uint64)
    requires a <= b
    ensures AlignDown(a) <= AlignDown(b) <= b
  {
  }

  lemma AlignUpMonotone(q: E820Range, r: E820Range)
    requires Fits(q) && Fits(r) && q.ram && r.ram && q.base <= r.base
    ensures AlignUp(q.base) <= AlignUp(r.base)
  {
  }

  /** An unordered range lies inside the block that ends at its rounded start. */
  lemma OneBlock(r: E820Range)
    requires Fits(r) && !Ordered(r)
    ensures AlignDown(r.base) == AlignDown(End(r)) == AlignUp(r.base) - MIB && End(r) < AlignUp(r.base)
  {
    Alignment(r);
    AlignDownMonotone(r.base, End(r));
    BaseInBlock(r);
  }

  lemma BaseInBlock(r: E820Range)
    requires Fits(r) && r.ram
    ensures AlignDown(r.base) >= AlignUp(r.base) - MIB
    ensures AlignUp(r.base) > AlignDown(r.base) ==> AlignDown(r.base) == AlignUp(r.base) - MIB
  {
  }

  /** Rounding up goes beyond an aligned address exactly from behind it on. */
  lemma RoundsBeyond(r: E820Range, up: int)
    requires Fits(r) && r.ram && up % MIB == 0
    ensures AlignUp(r.base) <= up <==> r.base <= up
  {
    Alignment(r);
    var a, b := AlignUp(r.base) / MIB, up / MIB;
    assert AlignUp(r.base) == a * MIB && up == b * MIB;
  }

  // ---------------------------------------------------------------------------
  // The loop
  // ---------------------------------------------------------------------------

  /** A set with the cores of the ranges so far, none of it behind them. */
  ghost predicate Calm(e820: seq<E820Range>, n: nat)
    requires n <= |e820|
  {
    var es := Mem(e820, n);
    && IsRangeSet(es) && HasCores(es, e820[..n])
    && forall i | 0 <= i < |es| :: es[i] <= AlignDown(Reached(e820, n))
  }

  /** A set, then a block that was added back to front, then anything. */
  predicate Broken(es: seq<int>, up: int, p: nat) {
    && p + 1 < |es| && p % 2 == 0 && |es| % 2 == 0
    && es[p] == up && es[p + 1] == up - MIB
    && IsRangeSet(es[..p]) && forall i | 0 <= i < p :: es[i] < up
  }

  /** The set has the cores of the ranges so far, and nothing is behind the block. */
  ghost predicate Repairable(es: seq<int>, ranges: seq<E820Range>, up: int, p: nat)
    requires p <= |es|
  {
    HasCores(es[..p], ranges) && forall i | p <= i < |es| :: es[i] <= up
  }

  /** A range that was added back to front and has not been repaired. */
  ghost predicate Waits(e820: seq<E820Range>, i: nat, n: nat)
    requires i < |e820| && n <= |e820|
  {
    i < n && !Ordered(e820[i]) && !Repaired(e820, i, n)
  }

  /** The lowest block of such a range ends at up. */
  ghost predicate Lowest(e820: seq<E820Range>, n: nat, up: int)
    requires n <= |e820|
  {
    && (exists i | 0 <= i < n :: Waits(e820, i, n) && AlignUp(e820[i].base) == up)
    && forall i | 0 <= i < n && Waits(e820, i, n) :: up <= AlignUp(e820[i].base)
  }

  /** As long as no range has begun behind the lowest block it can be repaired. */
  ghost predicate Pending(e820: seq<E820Range>, n: nat, up: int, p: nat)
    requires n <= |e820|
  {
    var es := Mem(e820, n);
    Broken(es, up, p) && Lowest(e820, n, up) && (Reached(e820, n) <= up ==> Repairable(es, e820[..n], up, p))
  }

  lemma MemStep(e820: seq<E820Range>, n: nat)
    requires n < |e820|
    ensures Mem(e820, n + 1) == if e820[n].ram then Added(Mem(e820, n), AlignUp(e820[n].base), AlignDown(End(e820[n])))
                                else Mem(e820, n)
  {
    assert e820[..n + 1][..n] == e820[..n];
  }

  lemma ReachedStep(e820: seq<E820Range>, n: nat)
    requires Ascending(e820) && AllFit(e820) && n < |e820|
    ensures Reached(e820, n) <= e820[n].base <= Reached(e820, n + 1) == e820[n].base + e820[n].size
  {
    Alignment(e820[n]);
    if n > 0 { Alignment(e820[n - 1]); }
  }

  lemma EndsReached(e820: seq<E820Range>, n: nat)
    requires n < |e820|
    ensures Reached(e820, n + 1) == End(e820[n])
  {
  }

  lemma RepairedStep(e820: seq<E820Range>, i: nat, n: nat)
    requires i < n < |e820|
    ensures Repaired(e820, i, n + 1) <==> Repaired(e820, i, n) || Repairs(e820[n], e820[i])
    ensures !Repaired(e820, n, n + 1)
  {
    hide Repairs;
    if j :| i < j < n + 1 && Repairs(e820[j], e820[i]) {
      assert j < n || j == n;
    }
  }

  lemma CalmStep(e820: seq<E820Range>, n: nat)
    requires Ascending(e820) && AllFit(e820) && n < |e820| && Calm(e820, n) && AllRepaired(e820, n)
    requires Ordered(e820[n])
    ensures Calm(e820, n + 1) && AllRepaired(e820, n + 1)
  {
    hide IsRangeSet, SetRegion, AlignUp, AlignDown, HasCores, Repaired, Ascending, Fits, Reached, SomeCore, Built;
    var q := e820[n];
    ReachedStep(e820, n);
    MemStep(e820, n);
    assert Fits(q);
    EndsReached(e820, n);
    StepPlaced(e820, n);
    AlignDownMonotone(Reached(e820, n), Reached(e820, n + 1));
    if q.ram { AboveNone(Mem(e820, n), AlignUp(q.base), AlignDown(End(q)), AlignDown(End(q))); }
    forall i | 0 <= i < n && !Ordered(e820[i]) ensures Repaired(e820, i, n + 1) { RepairedStep(e820, i, n); }
  }

  lemma CalmBreaks(e820: seq<E820Range>, n: nat) returns (p: nat)
    requires Ascending(e820) && AllFit(e820) && n < |e820| && Calm(e820, n) && AllRepaired(e820, n)
    requires !Ordered(e820[n])
    ensures Pending(e820, n + 1, AlignUp(e820[n].base), p)
  {
    hide SetRegion, AlignUp, AlignDown, End, HasCores, Lowest, Ascending, Sorted, Broken, Repairable;
    hide Reached, Ordered, AllRepaired, Fits, Mem;
    var q, es := e820[n], Mem(e820, n);
    var up := AlignUp(q.base);
    p := |es|;
    ReachedStep(e820, n);
    MemStep(e820, n);
    OneBlock(q);
    UnorderedIsRam(q);
    AlignDownMonotone(Reached(e820, n), q.base);
    NoNewCore(e820, n, es);
    OnlyWaiting(e820, n);
    Appended(es, up, up - MIB);
    AppendedBreaks(es, e820[..n + 1], up);
  }

  lemma AppendedBreaks(es: seq<int>, ranges: seq<E820Range>, up: int)
    requires IsRangeSet(es) && HasCores(es, ranges) && forall i | 0 <= i < |es| :: es[i] < up
    ensures var rs := es + [up, up - MIB]; Broken(rs, up, |es|) && Repairable(rs, ranges, up, |es|)
  {
    hide Sorted, HasCores;
    var rs := es + [up, up - MIB];
    assert rs[..|es|] == es;
  }

  /** A range without a core leaves the cores as they were. */
  lemma NoNewCore(e820: seq<E820Range>, n: nat, es: seq<int>)
    requires n < |e820| && HasCores(es, e820[..n]) && (e820[n].ram ==> AlignUp(e820[n].base) >= AlignDown(End(e820[n])))
    ensures HasCores(es, e820[..n + 1])
  {
    hide Covers, AlignUp, AlignDown, End;
    assert e820[..n + 1][..n] == e820[..n];
    SomeSplit(e820[..n + 1]);
  }

  lemma OnlyWaiting(e820: seq<E820Range>, n: nat)
    requires n < |e820| && AllRepaired(e820, n) && !Ordered(e820[n])
    ensures Lowest(e820, n + 1, AlignUp(e820[n].base))
  {
    hide Repairs, Ordered, AlignUp, Repaired;
    assert !Repaired(e820, n, n + 1) by { NoneBehind(e820, n); }
    assert Waits(e820, n, n + 1);
    forall i | 0 <= i < n && !Ordered(e820[i]) ensures Repaired(e820, i, n + 1) { RepairedStep(e820, i, n); }
  }

  lemma NoneBehind(e820: seq<E820Range>, n: nat)
    requires n < |e820|
    ensures !Repaired(e820, n, n + 1)
  {
  }

  // A range that comes while a block is pending.

  /** The block is the lowest still, if the range does not repair it. */
  lemma LowestStays(e820: seq<E820Range>, n: nat, up: int)
    requires Ascending(e820) && AllFit(e820) && n < |e820| && Lowest(e820, n, up)
    requires !(e820[n].ram && AlignUp(e820[n].base) == up < AlignDown(End(e820[n])))
    ensures Lowest(e820, n + 1, up)
  {
    hide Ordered, AlignUp, AlignDown, End, Repaired, Fits, Ascending;
    var k :| 0 <= k < n && Waits(e820, k, n) && AlignUp(e820[k].base) == up;
    RepairedStep(e820, k, n);
    assert Waits(e820, k, n + 1);
    forall i | 0 <= i < n + 1 && Waits(e820, i, n + 1) ensures up <= AlignUp(e820[i].base) {
      if i < n {
        RepairedStep(e820, i, n);
      } else {
        UnorderedIsRam(e820[k]);
        UnorderedIsRam(e820[n]);
        BaseAscends(e820, k, n);
        AlignUpMonotone(e820[k], e820[n]);
      }
    }
  }

  lemma UnorderedIsRam(r: E820Range)
    requires !Ordered(r)
    ensures r.ram
  {
  }

  lemma BaseAscends(e820: seq<E820Range>, i: nat, j: nat)
    requires Ascending(e820) && i < j < |e820|
    ensures e820[i].base <= e820[i].base + e820[i].size <= e820[j].base
  {
  }

  /** Nor does a RAM range begin in front of the block. */
  lemma NotBefore(e820: seq<E820Range>, n: nat, up: int)
    requires Ascending(e820) && AllFit(e820) && n < |e820| && Lowest(e820, n, up) && e820[n].ram
    ensures up <= AlignUp(e820[n].base) && up % MIB == 0
  {
    hide Ordered, AlignUp, Repaired, Fits, Ascending;
    var k :| 0 <= k < n && Waits(e820, k, n) && AlignUp(e820[k].base) == up;
    UnorderedIsRam(e820[k]);
    BaseAscends(e820, k, n);
    AlignUpMonotone(e820[k], e820[n]);
    UpIsAligned(e820[k]);
  }

  lemma UpIsAligned(r: E820Range)
    requires Fits(r) && r.ram
    ensures AlignUp(r.base) % MIB == 0
  {
    Alignment(r);
  }

  /** What one range makes of the edges while it can not repair them. */
  lemma EdgesStay(es: seq<int>, up: int, p: nat, start: uint64, end: uint64)
    requires Broken(es, up, p) && up <= start && !(start == up < end) && (start == up > end ==> end == up - MIB)
    ensures Broken(Added(es, start, end), up, p) && Added(es, start, end)[..p] == es[..p]
    ensures start == up && (forall i | p <= i < |es| :: es[i] <= up) ==>
              forall i | p <= i < |Added(es, start, end)| :: Added(es, start, end)[i] <= up
  {
    hide SetRegion, Sorted;
    if start > up {
      FrontStays(es, p + 2, start, end);
      var rs := SetRegion(es, start, end, true);
      assert rs[..p] == rs[..p + 2][..p] == es[..p];
      assert rs[p] == rs[..p + 2][p] && rs[p + 1] == rs[..p + 2][p + 1];
    } else if start != end {
      InsertedAgain(es, p, start, end);
      var rs := SetRegion(es, start, end, true);
      assert rs == es[..p] + [start as int, end] + es[p..];
      assert rs[..p] == es[..p] && rs[p] == up && rs[p + 1] == up - MIB && |rs| == |es| + 2;
    }
  }

  lemma PendingStep(e820: seq<E820Range>, n: nat, up: int, p: nat)
    requires Ascending(e820) && AllFit(e820) && n < |e820| && Pending(e820, n, up, p)
    requires !(e820[n].ram && AlignUp(e820[n].base) == up < AlignDown(End(e820[n])))
    ensures Pending(e820, n + 1, up, p)
  {
    hide SetRegion, AlignUp, AlignDown, End, HasCores, Lowest, Ascending, Sorted, Broken;
    hide Reached, Ordered, Fits, Mem, Added;
    var q, es := e820[n], Mem(e820, n);
    ReachedStep(e820, n);
    MemStep(e820, n);
    LowestStays(e820, n, up);
    if q.ram {
      NotBefore(e820, n, up);
      ReversedByBlock(q);
      EdgesStay(es, up, p, AlignUp(q.base), AlignDown(End(q)));
      RoundsBeyond(q, up);
    }
    BrokenPlace(es, up, p);
    if Reached(e820, n + 1) <= up { NoNewCore(e820, n, es[..p]); }
  }

  lemma BrokenPlace(es: seq<int>, up: int, p: nat)
    requires Broken(es, up, p)
    ensures p + 1 < |es|
  {
  }

  lemma ReversedByBlock(q: E820Range)
    requires Fits(q)
    ensures AlignUp(q.base) > AlignDown(End(q)) && q.ram ==> AlignDown(End(q)) == AlignUp(q.base) - MIB
  {
    if !Ordered(q) { OneBlock(q); }
  }

  lemma RepairStep(e820: seq<E820Range>, n: nat, up: int, p: nat)
    requires Ascending(e820) && AllFit(e820) && n < |e820| && Pending(e820, n, up, p)
    requires e820[n].ram && AlignUp(e820[n].base) == up < AlignDown(End(e820[n]))
    ensures Calm(e820, n + 1) && AllRepaired(e820, n + 1)
  {
    hide SetRegion, AlignUp, AlignDown, HasCores, Lowest, Ascending, IsRangeSet, Broken, Covers;
    hide Ordered, Fits, Mem, AllRepaired, Reached, Repairable;
    AllWaitingRepaired(e820, n, up);
    var q, es := e820[n], Mem(e820, n);
    var down := AlignDown(End(q));
    ReachedStep(e820, n);
    EndsReached(e820, n);
    MemStep(e820, n);
    NotBefore(e820, n, up);
    RoundsBeyond(q, up);
    RepairedEdges(es, e820[..n], up, p, down);
    AddedCovers(es[..p], up, down);
    CoreAdded(e820, n, es[..p], Mem(e820, n + 1));
  }

  lemma RepairedEdges(es: seq<int>, ranges: seq<E820Range>, up: int, p: nat, down: int)
    requires Broken(es, up, p) && Repairable(es, ranges, up, p) && up < down
    ensures p <= |es| && IsRangeSet(es[..p]) && HasCores(es[..p], ranges)
    ensures var rs := SetRegion(es, up, down, true);
            rs == SetRegion(es[..p], up, down, true) && forall i | 0 <= i < |rs| :: rs[i] <= down
  {
    hide SetRegion, Sorted, HasCores;
    Swallowed(es, p, up, down);
    Appended(es[..p], up, down);
  }

  lemma CoreAdded(e820: seq<E820Range>, n: nat, es: seq<int>, rs: seq<int>)
    requires n < |e820| && HasCores(es, e820[..n])
    requires forall x :: Covers(rs, x) <==> InCore(e820[n], x) || Covers(es, x)
    ensures HasCores(rs, e820[..n + 1])
  {
    hide Covers, InCore;
    assert e820[..n + 1][..n] == e820[..n];
    SomeSplit(e820[..n + 1]);
  }

  /** The range repairs every block that is waiting: they all end at up. */
  lemma AllWaitingRepaired(e820: seq<E820Range>, n: nat, up: int)
    requires Ascending(e820) && AllFit(e820) && n < |e820| && Lowest(e820, n, up)
    requires e820[n].ram && AlignUp(e820[n].base) == up < AlignDown(End(e820[n]))
    ensures AllRepaired(e820, n + 1)
  {
    hide Ordered, AlignUp, AlignDown, End, Repaired, Fits, Ascending;
    forall i | 0 <= i < n + 1 && !Ordered(e820[i]) ensures Repaired(e820, i, n + 1) {
      if i == n {
        OrderedCore(e820[n]);
      } else {
        RepairedStep(e820, i, n);
        UnorderedIsRam(e820[i]);
        BaseAscends(e820, i, n);
        AlignUpMonotone(e820[i], e820[n]);
        assert !Repaired(e820, i, n) ==> Waits(e820, i, n);
      }
    }
  }

  lemma OrderedCore(r: E820Range)
    requires AlignUp(r.base) < AlignDown(End(r))
    ensures Ordered(r)
  {
  }

  lemma {:induction false} LoopState(e820: seq<E820Range>, n: nat) returns (up: int, p: nat)
    requires Ascending(e820) && AllFit(e820) && n <= |e820|
    ensures if AllRepaired(e820, n) then Calm(e820, n) else Pending(e820, n, up, p)
    decreases n
  {
    hide Calm, Pending, AlignUp, AlignDown, End, Ordered, Fits, Ascending;
    up, p := 0, 0;
    if n == 0 {
      NothingYet(e820);
    } else {
      up, p := LoopState(e820, n - 1);
      var q := e820[n - 1];
      if AllRepaired(e820, n - 1) {
        if Ordered(q) {
          CalmStep(e820, n - 1);
        } else {
          p := CalmBreaks(e820, n - 1);
          up := AlignUp(q.base);
          PendingNotRepaired(e820, n, up, p);
        }
      } else if q.ram && AlignUp(q.base) == up < AlignDown(End(q)) {
        RepairStep(e820, n - 1, up, p);
      } else {
        PendingStep(e820, n - 1, up, p);
        PendingNotRepaired(e820, n, up, p);
      }
    }
  }

  lemma NothingYet(e820: seq<E820Range>)
    ensures Calm(e820, 0)
  {
    assert e820[..0] == [];
  }

  lemma PendingNotRepaired(e820: seq<E820Range>, n: nat, up: int, p: nat)
    requires n <= |e820| && Pending(e820, n, up, p)
    ensures !AllRepaired(e820, n) && !IsRangeSet(Mem(e820, n))
  {
    hide Mem, Repairable;
  }

  /** For a sorted map the final list is a set if and only if every range that was added
      back to front is repaired by a later one; then it has exactly the cores. */
  lemma SortedMapIff(e820: seq<E820Range>)
    requires Ascending(e820) && AllFit(e820)
    ensures IsRangeSet(Built(e820).mem)
            <==> forall i | 0 <= i < |e820| && !Ordered(e820[i]) :: Repaired(e820, i, |e820|)
    ensures IsRangeSet(Built(e820).mem) ==> HasCores(Built(e820).mem, e820)
  {
    hide IsRangeSet, Ordered, Repaired, HasCores, Ascending;
    var up, p := LoopState(e820, |e820|);
    assert e820[..|e820|] == e820;
    if !AllRepaired(e820, |e820|) { PendingNotRepaired(e820, |e820|, up, p); }
  }
}
