/** The second half of update_memory of src/boot/fit.c: the memory set as the cells of a
    'reg' property, split where a size does not fit. */
module RegProperty {
  import opened Machine
  import opened RangeSet

  /** max_range. Other numbers of size cells shift by 64 bits or more, or by -1. */
  function MaxRange(sizeCells: nat): uint64
    requires 1 <= sizeCells <= 2
  {
    if sizeCells == 1 then 0x8000_0000 else 0x8000_0000_0000_0000
  }

  /** The size of the next piece, cut to the 32 bits of its variable. */
  function PieceSize(full: uint64, sizeCells: nat): (r: uint32)
    requires 1 <= sizeCells <= 2
    ensures r <= full && r <= MaxRange(sizeCells)
  {
    Mod32(if MaxRange(sizeCells) < full then MaxRange(sizeCells) else full)
  }

  // ---------------------------------------------------------------------------
  // When the splitting loop ends
  // ---------------------------------------------------------------------------

  /** full_size after n turns of the loop. */
  function Left(full: uint64, sizeCells: nat, n: nat): uint64
    requires 1 <= sizeCells <= 2
    decreases n
  {
    if n == 0 then full else Left(full - PieceSize(full, sizeCells), sizeCells, n - 1)
  }

  predicate Splits(full: int, sizeCells: nat) { sizeCells == 1 || full < 0x1_0000_0000 }

  /** The loop ends if and only if there is one size cell, or the range is below 4 GiB. */
  lemma SplittingEndsIff(full: uint64, sizeCells: nat)
    requires 1 <= sizeCells <= 2
    ensures (exists n :: Left(full, sizeCells, n) == 0) <==> Splits(full, sizeCells)
  {
    if Splits(full, sizeCells) {
      var n := TurnsLeft(full, sizeCells);
    } else {
      forall n ensures Left(full, sizeCells, n) != 0 { StuckAbove(full, n); }
    }
  }

  lemma {:induction false} TurnsLeft(full: uint64, sizeCells: nat) returns (n: nat)
    requires 1 <= sizeCells <= 2 && Splits(full, sizeCells)
    ensures Left(full, sizeCells, n) == 0
    decreases full
  {
    if full == 0 {
      n := 0;
    } else {
      n := TurnsLeft(full - PieceSize(full, sizeCells), sizeCells);
      n := n + 1;
    }
  }

  lemma {:induction false} StuckAbove(full: uint64, n: nat)
    requires full >= 0x1_0000_0000
    ensures Left(full, 2, n) >= 0x1_0000_0000
    decreases n
  {
    if n > 0 { StuckAbove(full - PieceSize(full, 2), n - 1); }
  }

  // ---------------------------------------------------------------------------
  // The pieces of a range
  // ---------------------------------------------------------------------------

  datatype Piece = Piece(start: nat, size: nat)

  function Pieces(start: nat, full: uint64, sizeCells: nat): seq<Piece>
    requires 1 <= sizeCells <= 2 && Splits(full, sizeCells)
    decreases full
  {
    if full == 0 then []
    else
      var size := PieceSize(full, sizeCells);
      [Piece(start, size)] + Pieces(start + size, full - size, sizeCells)
  }

  /** The pieces are not empty, are small enough, and follow each other from the start
      of the range to its end. */
  lemma {:induction false} PiecesTile(start: nat, full: uint64, sizeCells: nat)
    requires 1 <= sizeCells <= 2 && Splits(full, sizeCells)
    ensures var ps := Pieces(start, full, sizeCells);
            && (forall i | 0 <= i < |ps| ::
                  && 0 < ps[i].size <= MaxRange(sizeCells)
                  && start <= ps[i].start && ps[i].start + ps[i].size <= start + full)
            && (forall i | 0 <= i < |ps| - 1 :: ps[i].start + ps[i].size == ps[i + 1].start)
            && (full > 0 ==> ps != [] && ps[0].start == start && ps[|ps| - 1].start + ps[|ps| - 1].size == start + full)
    decreases full
  {
    if full > 0 {
      var size := PieceSize(full, sizeCells);
      PiecesTile(start + size, full - size, sizeCells);
    }
  }

  ghost predicate InPieces(ps: seq<Piece>, x: int) {
    exists i | 0 <= i < |ps| :: InPiece(ps[i], x)
  }

  predicate InPiece(p: Piece, x: int) { p.start <= x < p.start + p.size }

  lemma InPiecesConcat(ps: seq<Piece>, qs: seq<Piece>, x: int)
    ensures InPieces(ps + qs, x) <==> InPieces(ps, x) || InPieces(qs, x)
  {
    hide InPiece;
    if i :| 0 <= i < |ps| && InPiece(ps[i], x) { assert InPiece((ps + qs)[i], x); }
    if i :| 0 <= i < |qs| && InPiece(qs[i], x) { assert InPiece((ps + qs)[|ps| + i], x); }
  }

  lemma {:induction false} PiecesCover(start: nat, full: uint64, sizeCells: nat, x: int)
    requires 1 <= sizeCells <= 2 && Splits(full, sizeCells)
    ensures InPieces(Pieces(start, full, sizeCells), x) <==> start <= x < start + full
    decreases full
  {
    if full > 0 {
      var size := PieceSize(full, sizeCells);
      PiecesCover(start + size, full - size, sizeCells, x);
      InPiecesConcat([Piece(start, size)], Pieces(start + size, full - size, sizeCells), x);
      assert InPieces([Piece(start, size)], x) <==> InPiece([Piece(start, size)][0], x);
    }
  }

  /** What count_entries adds, with the wrap-around of ALIGN_UP. */
  function EntryCount(size: uint64, sizeCells: nat): nat
    requires 1 <= sizeCells <= 2
  {
    Mod64(size + (MaxRange(sizeCells) - 1)) / MaxRange(sizeCells)
  }

  lemma CountStep(full: uint64, sizeCells: nat)
    requires 1 <= sizeCells <= 2 && Splits(full, sizeCells) && full + MaxRange(sizeCells) <= 0x1_0000_0000_0000_0000
    ensures EntryCount(full, sizeCells) ==
              if full == 0 then 0 else 1 + EntryCount(full - PieceSize(full, sizeCells), sizeCells)
  {
    hide EntryCount;
    var d := MaxRange(sizeCells);
    CountPlain(full, sizeCells);
    CountPlain(full - PieceSize(full, sizeCells), sizeCells);
    DivideUp(full, d);
  }

  lemma CountPlain(full: uint64, sizeCells: nat)
    requires 1 <= sizeCells <= 2 && full + MaxRange(sizeCells) <= 0x1_0000_0000_0000_0000
    ensures EntryCount(full, sizeCells) == (full + (MaxRange(sizeCells) - 1)) / MaxRange(sizeCells)
  {
    assert Mod64(full + (MaxRange(sizeCells) - 1)) == full + (MaxRange(sizeCells) - 1);
  }

  lemma DivideUp(n: nat, d: nat)
    requires d > 0
    ensures (n + (d - 1)) / d == if n == 0 then 0 else 1 + (n - (if n < d then n else d) + (d - 1)) / d
  {
    if n < d {
      UniqueRemainder(d - 1, d, 0, d - 1);
      if n > 0 { UniqueRemainder(n + (d - 1), d, 1, n - 1); }
    } else {
      var q, r := (n - 1) / d, (n - 1) % d;
      UniqueRemainder(n + (d - 1), d, q + 1, r);
    }
  }

  lemma {:induction false} CountIsPieces(start: nat, full: uint64, sizeCells: nat)
    requires 1 <= sizeCells <= 2 && Splits(full, sizeCells) && full + MaxRange(sizeCells) <= 0x1_0000_0000_0000_0000
    ensures |Pieces(start, full, sizeCells)| == EntryCount(full, sizeCells)
    decreases full
  {
    hide EntryCount, MaxRange;
    CountStep(full, sizeCells);
    if full > 0 {
      var size := PieceSize(full, sizeCells);
      CountIsPieces(start + size, full - size, sizeCells);
    }
  }

  // ---------------------------------------------------------------------------
  // Cells
  // ---------------------------------------------------------------------------

  /** dt_write_int. */
  method WriteInt(dest: array<byte>, at: nat, src: uint64, length: nat)
    requires at + length <= dest.Length
    modifies dest
    ensures dest[..] == old(dest[..at]) + Bytes(src, length) + old(dest[at + length..])
  {
    var rest, len: nat := src, length;
    while len > 0
      invariant len <= length
      invariant dest[..at + len] == old(dest[..at + len]) && dest[at + length..] == old(dest[at + length..])
      invariant Bytes(src, length) == Bytes(rest, len) + dest[at + len..at + length]
    {
      len := len - 1;
      dest[at + len] := rest % 0x100;
      rest := rest / 0x100;
      assert dest[at + len..at + length] == [dest[at + len]] + dest[at + len + 1..at + length];
    }
    assert dest[..] == dest[..at] + dest[at..at + length] + dest[at + length..];
  }

  // Below, addr and size are the numbers of bytes of the cells, four for each.

  function PieceBytes(p: Piece, addr: nat, size: nat): (b: seq<byte>)
    ensures |b| == addr + size
  {
    Bytes(p.start, addr) + Bytes(p.size, size)
  }

  function RegBytes(ps: seq<Piece>, addr: nat, size: nat): seq<byte> {
    if ps == [] then [] else PieceBytes(ps[0], addr, size) + RegBytes(ps[1..], addr, size)
  }

  lemma {:induction false} RegLength(ps: seq<Piece>, addr: nat, size: nat)
    ensures |RegBytes(ps, addr, size)| == |ps| * (addr + size)
  {
    hide PieceBytes;
    if ps != [] {
      RegLength(ps[1..], addr, size);
      assert |ps| * (addr + size) == (|ps| - 1) * (addr + size) + (addr + size);
    }
  }

  lemma {:induction false} RegConcat(ps: seq<Piece>, qs: seq<Piece>, addr: nat, size: nat)
    ensures RegBytes(ps + qs, addr, size) == RegBytes(ps, addr, size) + RegBytes(qs, addr, size)
  {
    hide PieceBytes;
    if ps == [] {
      assert ps + qs == qs;
    } else {
      assert (ps + qs)[1..] == ps[1..] + qs;
      RegConcat(ps[1..], qs, addr, size);
    }
  }

  /** The property as its reader takes it apart. */
  function Decode(b: seq<byte>, addr: nat, size: nat): seq<Piece>
    requires size > 0
    decreases |b|
  {
    if |b| < addr + size then []
    else [DecodeOne(b[..addr + size], addr)] + Decode(b[addr + size..], addr, size)
  }

  function DecodeOne(b: seq<byte>, addr: nat): Piece
    requires addr <= |b|
  {
    Piece(BigEndian(b[..addr]), BigEndian(b[addr..]))
  }

  predicate FitCells(ps: seq<Piece>, addr: nat, size: nat) {
    forall i | 0 <= i < |ps| :: ps[i].start < Pow256(addr) && ps[i].size < Pow256(size)
  }

  lemma DecodePiece(p: Piece, addr: nat, size: nat)
    requires p.start < Pow256(addr) && p.size < Pow256(size)
    ensures DecodeOne(PieceBytes(p, addr, size), addr) == p
  {
    hide Bytes, BigEndian, Pow256;
    var b := PieceBytes(p, addr, size);
    assert b[..addr] == Bytes(p.start, addr) && b[addr..] == Bytes(p.size, size);
    BytesRoundTrip(p.start, addr);
    BytesRoundTrip(p.size, size);
    UniqueRemainder(p.start, Pow256(addr), 0, p.start);
    UniqueRemainder(p.size, Pow256(size), 0, p.size);
  }

  lemma {:induction false} DecodeReg(ps: seq<Piece>, addr: nat, size: nat)
    requires size > 0 && FitCells(ps, addr, size)
    ensures Decode(RegBytes(ps, addr, size), addr, size) == ps
  {
    hide PieceBytes, DecodeOne;
    if ps != [] {
      var b := RegBytes(ps, addr, size);
      assert b[..addr + size] == PieceBytes(ps[0], addr, size) && b[addr + size..] == RegBytes(ps[1..], addr, size);
      DecodePiece(ps[0], addr, size);
      DecodeReg(ps[1..], addr, size);
    }
  }

  // ---------------------------------------------------------------------------
  // All ranges
  // ---------------------------------------------------------------------------

  predicate AllSplit(rs: seq<Interval>, sizeCells: nat) {
    forall i | 0 <= i < |rs| ::
      0 <= rs[i].start <= rs[i].end < 0x1_0000_0000_0000_0000 && Splits(rs[i].end - rs[i].start, sizeCells)
  }

  function AllPieces(rs: seq<Interval>, sizeCells: nat): seq<Piece>
    requires 1 <= sizeCells <= 2 && AllSplit(rs, sizeCells)
  {
    if rs == [] then [] else Pieces(rs[0].start, rs[0].end - rs[0].start, sizeCells) + AllPieces(rs[1..], sizeCells)
  }

  predicate InInterval(r: Interval, x: int) { r.start <= x < r.end }

  ghost predicate InSome(rs: seq<Interval>, x: int) {
    exists i | 0 <= i < |rs| :: InInterval(rs[i], x)
  }

  lemma InSomeFirst(rs: seq<Interval>, x: int)
    requires rs != []
    ensures InSome(rs, x) <==> InInterval(rs[0], x) || InSome(rs[1..], x)
  {
    hide InInterval;
    if i :| 0 <= i < |rs| && InInterval(rs[i], x) && i > 0 { assert InInterval(rs[1..][i - 1], x); }
    if i :| 0 <= i < |rs[1..]| && InInterval(rs[1..][i], x) { assert InInterval(rs[i + 1], x); }
  }

  lemma {:induction false} AllPiecesCover(rs: seq<Interval>, sizeCells: nat, x: int)
    requires 1 <= sizeCells <= 2 && AllSplit(rs, sizeCells)
    ensures InPieces(AllPieces(rs, sizeCells), x) <==> InSome(rs, x)
  {
    if rs != [] {
      hide InPieces, InSome, Pieces;
      PiecesCover(rs[0].start, rs[0].end - rs[0].start, sizeCells, x);
      InPiecesConcat(Pieces(rs[0].start, rs[0].end - rs[0].start, sizeCells), AllPieces(rs[1..], sizeCells), x);
      AllPiecesCover(rs[1..], sizeCells, x);
      InSomeFirst(rs, x);
    }
  }

  /** The body of the loop of update_mem_property. */
  method WritePiece(data: array<byte>, at: nat, p: Piece, addr: nat, size: nat) returns (next: nat)
    requires at + addr + size <= data.Length && p.start < 0x1_0000_0000_0000_0000 && p.size < 0x1_0000_0000
    modifies data
    ensures next == at + addr + size
    ensures data[..] == old(data[..at]) + PieceBytes(p, addr, size) + old(data[next..])
  {
    hide Bytes;
    WriteInt(data, at, p.start, addr);
    ghost var b := data[..];
    WriteInt(data, at + addr, p.size, size);
    next := at + addr + size;
    TwoWrites(old(data[..]), b, data[..], at, Bytes(p.start, addr), Bytes(p.size, size));
  }

  lemma TwoWrites(a: seq<byte>, b: seq<byte>, c: seq<byte>, at: nat, x: seq<byte>, y: seq<byte>)
    requires at + |x| + |y| <= |a| && b == a[..at] + x + a[at + |x|..] && |b| == |a|
    requires c == b[..at + |x|] + y + b[at + |x| + |y|..]
    ensures c == a[..at] + (x + y) + a[at + |x| + |y|..]
  {
    assert b[..at + |x|] == a[..at] + x;
    assert b[at + |x| + |y|..] == a[at + |x| + |y|..];
  }

  /** Every piece has a size that a property can hold and ends inside its range. */
  predicate PieceWithin(p: Piece, sizeCells: nat, limit: nat)
    requires 1 <= sizeCells <= 2
  {
    0 < p.size <= MaxRange(sizeCells) && p.start + p.size <= limit
  }

  lemma PiecesWithin(start: nat, full: uint64, sizeCells: nat, limit: nat)
    requires 1 <= sizeCells <= 2 && Splits(full, sizeCells) && start + full <= limit
    ensures forall p | p in Pieces(start, full, sizeCells) :: PieceWithin(p, sizeCells, limit)
  {
    hide MaxRange, PieceSize;
    var ps := Pieces(start, full, sizeCells);
    PiecesTile(start, full, sizeCells);
    forall p | p in ps ensures PieceWithin(p, sizeCells, limit) {
      var i :| 0 <= i < |ps| && ps[i] == p;
    }
  }

  lemma {:induction false} AllPiecesWithin(rs: seq<Interval>, sizeCells: nat, limit: nat)
    requires 1 <= sizeCells <= 2 && AllSplit(rs, sizeCells)
    requires forall i | 0 <= i < |rs| :: rs[i].end <= limit
    ensures forall p | p in AllPieces(rs, sizeCells) :: PieceWithin(p, sizeCells, limit)
  {
    hide Pieces, PieceWithin;
    if rs != [] {
      PiecesWithin(rs[0].start, rs[0].end - rs[0].start, sizeCells, limit);
      AllPiecesWithin(rs[1..], sizeCells, limit);
    }
  }

  /** update_mem_property for one range: its pieces are written behind each other. */
  method UpdateMemProperty(data: array<byte>, at: nat, from: uint64, end: uint64, addr: nat, sizeCells: nat)
      returns (next: nat)
    requires 1 <= sizeCells <= 2 && from <= end && Splits(end - from, sizeCells)
    requires at + |RegBytes(Pieces(from, end - from, sizeCells), addr, 4 * sizeCells)| <= data.Length
    modifies data
    ensures next == at + |RegBytes(Pieces(from, end - from, sizeCells), addr, 4 * sizeCells)|
    ensures data[..] ==
              old(data[..at]) + RegBytes(Pieces(from, end - from, sizeCells), addr, 4 * sizeCells) + old(data[next..])
  {
    hide PieceBytes, PieceSize;
    var start: nat, fullSize: uint64 := from, end - from;
    next := at;
    ghost var reg := RegBytes(Pieces(from, end - from, sizeCells), addr, 4 * sizeCells);
    ghost var was := data[..];
    ghost var rest := reg;
    while fullSize != 0
      invariant start + fullSize == end && at <= next && Splits(fullSize, sizeCells)
      invariant rest == RegBytes(Pieces(start, fullSize, sizeCells), addr, 4 * sizeCells)
      invariant next + |rest| == at + |reg| && data[..next] + rest == was[..at] + reg
      invariant data[next..] == was[next..]
      decreases fullSize
    {
      var size := PieceSize(fullSize, sizeCells);
      ghost var before := data[..];
      rest := RegBytes(Pieces(start + size, fullSize - size, sizeCells), addr, 4 * sizeCells);
      next := WritePiece(data, next, Piece(start, size), addr, 4 * sizeCells);
      start := start + size;
      fullSize := fullSize - size;
    }
    assert data[..] == data[..next] + data[next..];
  }

  /** ALIGN_UP does not wrap in count_entries. */
  predicate Countable(rs: seq<Interval>, sizeCells: nat)
    requires 1 <= sizeCells <= 2
  {
    forall i | 0 <= i < |rs| :: rs[i].end - rs[i].start + MaxRange(sizeCells) <= 0x1_0000_0000_0000_0000
  }

  lemma Mod32Add(a: int, b: int)
    ensures Mod32(Mod32(a) + b) == Mod32(a + b)
  {
  }

  /** count_entries, for every call of ranges_for_each: the number of pieces, modulo the
      width of the counter. */
  method CountEntries(rs: seq<Interval>, sizeCells: nat) returns (count: uint32)
    requires 1 <= sizeCells <= 2 && AllSplit(rs, sizeCells) && Countable(rs, sizeCells)
    ensures count == Mod32(|AllPieces(rs, sizeCells)|)
  {
    hide Mod32, Pieces, EntryCount, MaxRange;
    count := 0;
    var i := 0;
    assert rs[0..] == rs;
    while i < |rs|
      invariant i <= |rs|
      invariant Mod32(count + |AllPieces(rs[i..], sizeCells)|) == Mod32(|AllPieces(rs, sizeCells)|)
    {
      ghost var was, rest := count, |AllPieces(rs[i + 1..], sizeCells)|;
      var size := rs[i].end - rs[i].start;
      CountIsPieces(rs[i].start, size, sizeCells);
      assert rs[i..][1..] == rs[i + 1..];
      count := Mod32(count as int + EntryCount(size, sizeCells));
      Mod32Add(was + EntryCount(size, sizeCells), rest);
      i := i + 1;
    }
    assert Mod32(count) == count by { SmallMod32(count); }
  }

  lemma SmallMod32(n: uint32)
    ensures Mod32(n) == n
  {
  }

  /** update_mem_property, for every call of ranges_for_each. */
  method FillReg(data: array<byte>, rs: seq<Interval>, addr: nat, sizeCells: nat) returns (end: nat)
    requires 1 <= sizeCells <= 2 && AllSplit(rs, sizeCells)
    requires data.Length >= |RegBytes(AllPieces(rs, sizeCells), addr, 4 * sizeCells)|
    modifies data
    ensures end <= data.Length && data[..end] == RegBytes(AllPieces(rs, sizeCells), addr, 4 * sizeCells)
  {
    hide Pieces, PieceBytes, RegBytes;
    end := 0;
    var i := 0;
    ghost var reg := RegBytes(AllPieces(rs, sizeCells), addr, 4 * sizeCells);
    ghost var rest := reg;
    assert rs[0..] == rs;
    while i < |rs|
      invariant i <= |rs| && end + |rest| == |reg| && data[..end] + rest == reg
      invariant rest == RegBytes(AllPieces(rs[i..], sizeCells), addr, 4 * sizeCells)
    {
      assert rs[i..][1..] == rs[i + 1..];
      ghost var ps := Pieces(rs[i].start, rs[i].end - rs[i].start, sizeCells);
      RegConcat(ps, AllPieces(rs[i + 1..], sizeCells), addr, 4 * sizeCells);
      ghost var was := data[..end];
      end := UpdateMemProperty(data, end, rs[i].start, rs[i].end, addr, sizeCells);
      rest := RegBytes(AllPieces(rs[i + 1..], sizeCells), addr, 4 * sizeCells);
      assert data[..end] == was + RegBytes(ps, addr, 4 * sizeCells);
      i := i + 1;
    }
    assert rest == [] by { RegEmpty(addr, 4 * sizeCells); }
  }

  lemma RegEmpty(addr: nat, size: nat)
    ensures RegBytes([], addr, size) == []
  {
  }

  /** The length that is allocated, with the wrap-arounds of the counter and of the
      multiplication by the number of cells. */
  function RegAllocation(count: uint32, cells: nat): nat { Mod32(count * cells) * 4 }

  /** The allocated length is the written one, as update_memory asserts in the end, if
      and only if the cells can be counted in 32 bits. */
  lemma AllocationExactIff(pieces: nat, cells: nat)
    requires cells > 0
    ensures RegAllocation(Mod32(pieces), cells) == pieces * (4 * cells) <==> pieces * cells < 0x1_0000_0000
  {
    if pieces * cells < 0x1_0000_0000 {
      assert pieces <= pieces * cells;
    }
    assert pieces * (4 * cells) == 4 * (pieces * cells);
  }
}
