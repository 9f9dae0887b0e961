/** The Internet checksum of src/net/uip.c and of src/base/ipchecksum.c. */
module Checksum {
  import opened Machine

  /** The one's-complement number for a sum: zero only for zero. */
  function Fold(n: nat): uint16 { if n == 0 then 0 else (n - 1) % 0xFFFF + 1 }

  /** The sum of the 16-bit words in network order, a last odd byte padded with zero. */
  function Words(b: seq<byte>): nat
    decreases |b|
  {
    if b == [] then 0
    else if |b| == 1 then b[0] as int * 0x100
    else b[0] as int * 0x100 + b[1] + Words(b[2..])
  }

  /** The same sum byte by byte: those at even places count 256 times. */
  function Weighted(b: seq<byte>, n: nat): nat
    requires n <= |b|
  {
    if n == 0 then 0 else Weighted(b, n - 1) + b[n - 1] as int * if n % 2 == 1 then 0x100 else 1
  }

  lemma {:induction false} WordsAreWeighted(b: seq<byte>)
    ensures Words(b) == Weighted(b, |b|)
    decreases |b|
  {
    if |b| > 1 {
      WordsAreWeighted(b[2..]);
      WeightedBehind(b, |b|);
    } else if |b| == 1 {
      assert Weighted(b, 0) == 0;
    }
  }

  lemma {:induction false} WeightedBehind(b: seq<byte>, n: nat)
    requires 2 <= n <= |b|
    ensures Weighted(b, n) == b[0] as int * 0x100 + b[1] + Weighted(b[2..], n - 2)
  {
    if n == 2 {
      assert Weighted(b, 1) == b[0] as int * 0x100;
    } else {
      WeightedBehind(b, n - 1);
    }
  }

  /** RFC 1071: the words with the checksum among them add up to all ones. */
  predicate Passes(b: seq<byte>) { Words(b) > 0 && Words(b) % 0xFFFF == 0 }

  lemma FoldAdd(n: nat, t: nat)
    ensures Fold(Fold(n) as int + t) == Fold(n + t)
  {
  }

  lemma FoldIs(n: nat, r: uint16)
    requires (n == 0 <==> r == 0) && (n - r) % 0xFFFF == 0
    ensures Fold(n) == r
  {
  }

  /** The addition in the loop of chksum: 16 bits, with the carry put back. */
  method AddCarry(sum: uint16, t: uint16) returns (r: uint16)
    ensures r == Fold(sum as int + t)
  {
    r := (sum as int + t) % 0x1_0000;
    if r < t { r := r + 1; }
  }

  /** chksum: the one's-complement sum, started from any value. */
  method Chksum(start: uint16, data: seq<byte>) returns (sum: uint16)
    ensures sum == Fold(start as int + Words(data))
  {
    hide Fold;
    sum := start;
    var i := 0;
    assert data[0..] == data;
    FoldAdd(start, 0);
    FoldSmall(start);
    while i < |data| - 1
      invariant i <= |data|
      invariant Fold(sum as int + Words(data[i..])) == Fold(start as int + Words(data))
      decreases |data| - i
    {
      ghost var was, rest := sum, Words(data[i + 2..]);
      var t := data[i] as int * 0x100 + data[i + 1];
      sum := AddCarry(sum, t);
      assert data[i..][2..] == data[i + 2..];
      FoldAdd(was as int + t, rest);
      i := i + 2;
    }
    if i == |data| - 1 {
      sum := AddCarry(sum, data[i] as int * 0x100);
    }
    FoldSmall(sum);
  }

  lemma FoldSmall(r: uint16)
    ensures Fold(r) == r
  {
  }

  /** The sum can be taken in parts, as long as all but the last have an even length. */
  lemma {:induction false} WordsConcat(a: seq<byte>, b: seq<byte>)
    requires |a| % 2 == 0
    ensures Words(a + b) == Words(a) + Words(b)
    decreases |a|
  {
    if a == [] {
      assert a + b == b;
    } else {
      assert (a + b)[2..] == a[2..] + b;
      WordsConcat(a[2..], b);
    }
  }

  // ---------------------------------------------------------------------------
  // Packets: what is sent passes the check on the receiving side
  // ---------------------------------------------------------------------------

  const IP_HEADER := 20
  const PROTO_TCP: byte := 6
  const PROTO_UDP: byte := 17
  const TCP_CHECKSUM_AT := 36
  const UDP_CHECKSUM_AT := 26

  /** The results of uip_ipchksum and upper_layer_chksum never are zero. */
  function Nonzero(sum: uint16): uint16 { if sum == 0 then 0xFFFF else sum }

  /** uip_ipchksum. */
  function IpSum(p: seq<byte>): uint16
    requires |p| >= IP_HEADER
  {
    Nonzero(Fold(Words(p[..IP_HEADER])))
  }

  function UpperLength(p: seq<byte>): int
    requires |p| >= IP_HEADER
  {
    p[2] as int * 0x100 + p[3] - IP_HEADER
  }

  /** The length fits the packet. */
  predicate HasUpper(p: seq<byte>) { |p| >= IP_HEADER && 0 <= UpperLength(p) && IP_HEADER + UpperLength(p) <= |p| }

  /** The sum over protocol, length, addresses and the rest of the
      packet. */
  function UpperSum(p: seq<byte>, proto: byte): uint16
    requires HasUpper(p)
  {
    Nonzero(Fold(UpperLength(p) + proto + Words(p[12..IP_HEADER]) + Words(p[IP_HEADER..IP_HEADER + UpperLength(p)])))
  }

  /** The pseudo header of RFC 793, section 3.1, and of RFC 768: both addresses, the
      protocol and the length. */
  function PseudoHeader(p: seq<byte>, proto: byte, n: uint16): seq<byte>
    requires |p| >= IP_HEADER
  {
    p[12..20] + [0, proto, n / 0x100, n % 0x100]
  }

  /** The upper sum is the sum of the pseudo header and what follows the IP header. */
  lemma UpperSumIs(p: seq<byte>, proto: byte)
    requires HasUpper(p)
    ensures var n := UpperLength(p);
            UpperSum(p, proto) == Nonzero(Fold(Words(PseudoHeader(p, proto, n) + p[20..20 + n])))
  {
    var n: uint16 := UpperLength(p);
    var tail: seq<byte> := [0, proto, n / 0x100, n % 0x100];
    WordsConcat(PseudoHeader(p, proto, n), p[20..20 + n]);
    WordsConcat(p[12..20], tail);
    assert tail[2..] == [n / 0x100, n % 0x100] && tail[2..][2..] == [];
    assert Words(tail) == proto as int + Words(tail[2..]);
    assert Words(tail[2..]) == n / 0x100 * 0x100 + n % 0x100;
    hide Words, Fold, Nonzero;
    TwoParts(n);
  }

  lemma TwoParts(n: uint16)
    ensures n / 0x100 * 0x100 + n % 0x100 == n
  {
  }

  /** What the receiving side compares with all ones says that the words pass. */
  lemma AllOnesPass(b: seq<byte>)
    ensures Nonzero(Fold(Words(b))) == 0xFFFF && Words(b) > 0 <==> Passes(b)
  {
    hide Words;
    FoldedAllOnes(Words(b));
  }

  lemma FoldedAllOnes(n: nat)
    ensures n > 0 ==> (Nonzero(Fold(n)) == 0xFFFF <==> n % 0xFFFF == 0)
  {
    if n > 0 {
      var k, r := (n - 1) / 0xFFFF, (n - 1) % 0xFFFF;
      assert n == 0xFFFF * k + (r + 1) && Fold(n) == r + 1;
    }
  }

  lemma HeaderPasses(p: seq<byte>)
    requires |p| >= IP_HEADER && p[0] == 0x45 && IpSum(p) == 0xFFFF
    ensures Passes(p[..20])
  {
    assert Words(p[..20]) > 0;
    hide Words;
    AllOnesPass(p[..20]);
  }

  lemma PacketPasses(p: seq<byte>, proto: byte)
    requires HasUpper(p) && proto > 0 && UpperSum(p, proto) == 0xFFFF
    ensures var n := UpperLength(p); Passes(PseudoHeader(p, proto, n) + p[20..20 + n])
  {
    var n: uint16 := UpperLength(p);
    var b := PseudoHeader(p, proto, n) + p[20..20 + n];
    UpperSumIs(p, proto);
    assert b[9] == proto;
    SomeByte(b, 9);
    hide Words;
    AllOnesPass(b);
  }

  lemma {:induction false} SomeByte(b: seq<byte>, k: nat)
    requires k < |b| && b[k] > 0
    ensures Words(b) > 0
    decreases |b|
  {
    if k > 1 { SomeByte(b[2..], k - 2); }
  }

  method IpChksum(p: seq<byte>) returns (r: uint16)
    requires |p| >= IP_HEADER
    ensures r == IpSum(p)
  {
    hide Words, Fold;
    var sum := Chksum(0, p[..IP_HEADER]);
    r := if sum == 0 then 0xFFFF else sum;
  }

  /** upper_layer_chksum. With the two protocols it is called for, adding the length
      does not carry. */
  method UpperLayerChksum(p: seq<byte>, proto: byte) returns (r: uint16)
    requires HasUpper(p) && (proto == PROTO_TCP || proto == PROTO_UDP)
    ensures r == UpperSum(p, proto)
    ensures var n := UpperLength(p); r == Nonzero(Fold(Words(PseudoHeader(p, proto, n) + p[20..20 + n])))
  {
    UpperSumIs(p, proto);
    hide Words, Fold;
    var upperLen := p[2] as int * 0x100 + p[3] - IP_HEADER;
    assert upperLen + proto < 0x1_0000;
    var sum := Chksum(upperLen + proto, p[12..IP_HEADER]);
    ghost var a := upperLen + proto + Words(p[12..IP_HEADER]);
    var all := Chksum(sum, p[IP_HEADER..IP_HEADER + upperLen]);
    FoldAdd(a, Words(p[IP_HEADER..IP_HEADER + upperLen]));
    r := if all == 0 then 0xFFFF else all;
  }

  /** A 16-bit field in network order. */
  predicate Holds16(b: seq<byte>, k: nat, v: uint16) {
    k + 2 <= |b| && b[k] == v / 0x100 && b[k + 1] == v % 0x100
  }

  predicate SameBut16(b: seq<byte>, c: seq<byte>, k: nat) {
    |b| == |c| && forall i | 0 <= i < |b| && i != k && i != k + 1 :: b[i] == c[i]
  }

  /** Filling a zero field at an even place adds its value to the sum. */
  lemma {:induction false} FilledField(b: seq<byte>, c: seq<byte>, k: nat, v: uint16)
    requires k % 2 == 0 && Holds16(b, k, 0) && Holds16(c, k, v) && SameBut16(b, c, k)
    ensures Words(c) == Words(b) + v
    decreases |b|
  {
    if k == 0 {
      assert b[2..] == c[2..];
    } else {
      FilledField(b[2..], c[2..], k - 2, v);
    }
  }

  /** The complement of the sum, in its field, makes the sum all ones; so does all ones
      where the complement is zero. */
  lemma ComplementPasses(n: nat, v: uint16)
    requires v == 0xFFFF - Nonzero(Fold(n)) || (v == 0xFFFF && Nonzero(Fold(n)) == 0xFFFF)
    ensures Nonzero(Fold(n + v)) == 0xFFFF
  {
  }

  method Put16(buf: array<byte>, k: nat, v: uint16)
    requires k + 2 <= buf.Length
    modifies buf
    ensures Holds16(buf[..], k, v) && SameBut16(old(buf[..]), buf[..], k)
  {
    buf[k] := v / 0x100;
    buf[k + 1] := v % 0x100;
  }

  lemma IpFilled(b: seq<byte>, c: seq<byte>, v: uint16)
    requires |b| >= IP_HEADER && Holds16(b, 10, 0) && Holds16(c, 10, v) && SameBut16(b, c, 10)
    requires v == 0xFFFF - IpSum(b)
    ensures IpSum(c) == 0xFFFF
  {
    hide Fold;
    FilledField(b[..IP_HEADER], c[..IP_HEADER], 10, v);
    ComplementPasses(Words(b[..IP_HEADER]), v);
  }

  lemma UpperFilled(b: seq<byte>, c: seq<byte>, proto: byte, k: nat, v: uint16)
    requires HasUpper(b) && k % 2 == 0 && IP_HEADER <= k && k + 2 <= IP_HEADER + UpperLength(b)
    requires Holds16(b, k, 0) && Holds16(c, k, v) && SameBut16(b, c, k)
    requires v == 0xFFFF - UpperSum(b, proto) || (v == 0xFFFF && UpperSum(b, proto) == 0xFFFF)
    ensures HasUpper(c) && UpperSum(c, proto) == 0xFFFF
  {
    hide Fold, Nonzero;
    var end := IP_HEADER + UpperLength(b);
    assert b[12..IP_HEADER] == c[12..IP_HEADER];
    FilledField(b[IP_HEADER..end], c[IP_HEADER..end], k - IP_HEADER, v);
    ComplementPasses(UpperLength(b) + proto + Words(b[12..IP_HEADER]) + Words(b[IP_HEADER..end]), v);
  }

  /** Nothing that the upper sum covers is different. */
  predicate SameUpper(b: seq<byte>, c: seq<byte>) {
    && |b| == |c| >= IP_HEADER && b[2] == c[2] && b[3] == c[3] && b[9] == c[9]
    && forall i | 12 <= i < |b| :: b[i] == c[i]
  }

  lemma UpperFrame(b: seq<byte>, c: seq<byte>, proto: byte)
    requires HasUpper(b) && SameUpper(b, c)
    ensures HasUpper(c) && UpperSum(b, proto) == UpperSum(c, proto)
  {
    hide Fold, Nonzero;
    var end := IP_HEADER + UpperLength(b);
    assert b[12..IP_HEADER] == c[12..IP_HEADER] && b[IP_HEADER..end] == c[IP_HEADER..end];
  }

  /** From the label ip_send_nolen on. */
  method IpSend(buf: array<byte>, ipid: uint16)
    requires buf.Length >= IP_HEADER
    modifies buf
    ensures IpSum(buf[..]) == 0xFFFF && Passes(buf[..20])
    ensures SameUpper(old(buf[..]), buf[..]) && buf[8] == old(buf[8])
    ensures buf[0] == 0x45 && buf[1] == 0 && Holds16(buf[..], 4, ipid) && Holds16(buf[..], 6, 0)
  {
    hide IpSum;
    buf[0], buf[1] := 0x45, 0;
    buf[6], buf[7] := 0, 0;
    buf[4], buf[5] := ipid / 0x100, ipid % 0x100;
    buf[10], buf[11] := 0, 0;
    ghost var b := buf[..];
    var sum := IpChksum(buf[..]);
    Put16(buf, 10, 0xFFFF - sum);
    IpFilled(b, buf[..], 0xFFFF - sum);
    HeaderPasses(buf[..]);
    assert buf[..][..20] == buf[..20];
  }

  /** From the label tcp_send_noconn on: header and segment pass the checks of any
      receiver, the segment together with its pseudo header. */
  method TcpSend(buf: array<byte>, len: uint16, ttl: byte, ipid: uint16)
    requires 40 <= len <= buf.Length
    modifies buf
    ensures Passes(buf[..20]) && Passes(PseudoHeader(buf[..], 6, len - 20) + buf[20..len])
    ensures IpSum(buf[..]) == 0xFFFF && HasUpper(buf[..]) && UpperSum(buf[..], PROTO_TCP) == 0xFFFF
    ensures Holds16(buf[..], 2, len) && buf[8] == ttl && buf[9] == old(buf[9]) && Holds16(buf[..], 38, 0)
    ensures forall i | 12 <= i < buf.Length && !(TCP_CHECKSUM_AT <= i < 40) :: buf[i] == old(buf[i])
  {
    hide IpSum, UpperSum, Passes;
    buf[8] := ttl;
    Put16(buf, 2, len);
    buf[38], buf[39] := 0, 0;
    buf[TCP_CHECKSUM_AT], buf[TCP_CHECKSUM_AT + 1] := 0, 0;
    ghost var b := buf[..];
    var sum := UpperLayerChksum(buf[..], PROTO_TCP);
    Put16(buf, TCP_CHECKSUM_AT, 0xFFFF - sum);
    ghost var c := buf[..];
    UpperFilled(b, c, PROTO_TCP, TCP_CHECKSUM_AT, 0xFFFF - sum);
    IpSend(buf, ipid);
    UpperFrame(c, buf[..], PROTO_TCP);
    PacketPasses(buf[..], PROTO_TCP);
    assert UpperLength(buf[..]) == len - 20 && buf[..][20..len] == buf[20..len];
  }

  /** The end of udp_send with checksums configured, from where the field is cleared: the
      datagram passes, with a field that does not say "no checksum". */
  method UdpSend(buf: array<byte>, ipid: uint16)
    requires HasUpper(buf[..]) && UpperLength(buf[..]) >= 8
    modifies buf
    ensures var n := old(UpperLength(buf[..]));
            Passes(buf[..20]) && Passes(PseudoHeader(buf[..], 17, n) + buf[20..20 + n])
    ensures IpSum(buf[..]) == 0xFFFF && HasUpper(buf[..]) && UpperSum(buf[..], PROTO_UDP) == 0xFFFF
    ensures !Holds16(buf[..], UDP_CHECKSUM_AT, 0)
    ensures forall i | 12 <= i < buf.Length && !(UDP_CHECKSUM_AT <= i < UDP_CHECKSUM_AT + 2) :: buf[i] == old(buf[i])
  {
    hide IpSum, UpperSum, Passes;
    buf[UDP_CHECKSUM_AT], buf[UDP_CHECKSUM_AT + 1] := 0, 0;
    ghost var b := buf[..];
    var sum := UpperLayerChksum(buf[..], PROTO_UDP);
    var field: uint16 := 0xFFFF - sum;
    if field == 0 { field := 0xFFFF; }
    Put16(buf, UDP_CHECKSUM_AT, field);
    ghost var c := buf[..];
    UpperFilled(b, c, PROTO_UDP, UDP_CHECKSUM_AT, field);
    IpSend(buf, ipid);
    UpperFrame(c, buf[..], PROTO_UDP);
    PacketPasses(buf[..], PROTO_UDP);
    ghost var n := UpperLength(buf[..]);
    assert n == old(UpperLength(buf[..])) && buf[..][20..20 + n] == buf[20..20 + n];
  }

  // ---------------------------------------------------------------------------
  // The answer to an echo request
  // ---------------------------------------------------------------------------

  const ICMP_ECHO: byte := 8
  const ICMP_ECHO_REPLY: byte := 0
  const ICMP_CHECKSUM_AT := 22

  /** A 16-bit variable over two bytes, as a little-endian machine reads it. */
  function Native(lo: byte, hi: byte): uint16 { lo as int + hi as int * 0x100 }

  /** The patch of the checksum: the type's word is smaller by ICMP_ECHO afterwards. */
  method PatchIcmpChecksum(buf: array<byte>)
    requires buf.Length >= ICMP_CHECKSUM_AT + 2 && buf[IP_HEADER] == ICMP_ECHO
    modifies buf
    ensures buf[IP_HEADER] == ICMP_ECHO_REPLY
    ensures (Words(buf[IP_HEADER..]) - Words(old(buf[IP_HEADER..]))) % 0xFFFF == 0
    ensures forall i | 0 <= i < buf.Length && i !in {IP_HEADER, ICMP_CHECKSUM_AT, ICMP_CHECKSUM_AT + 1} ::
              buf[i] == old(buf[i])
  {
    hide Words, Patched;
    ghost var was := buf[IP_HEADER..];
    var w := Patched(buf[ICMP_CHECKSUM_AT], buf[ICMP_CHECKSUM_AT + 1]);
    buf[IP_HEADER] := ICMP_ECHO_REPLY;
    buf[ICMP_CHECKSUM_AT], buf[ICMP_CHECKSUM_AT + 1] := w % 0x100, w / 0x100;
    PatchKeepsSum(was, buf[IP_HEADER..], w);
  }

  lemma PatchKeepsSum(was: seq<byte>, now: seq<byte>, w: uint16)
    requires |was| == |now| >= 4 && was[4..] == now[4..] && was[1] == now[1]
    requires was[0] == ICMP_ECHO && now[0] == ICMP_ECHO_REPLY
    requires w == Patched(was[2], was[3]) && now[2] == w % 0x100 && now[3] == w / 0x100
    ensures (Words(now) - Words(was)) % 0xFFFF == 0
  {
    hide Words, Patched;
    var k := PatchedWord(was[2], was[3], w);
    FirstWords(was);
    FirstWords(now);
    WholeRounds(Words(now) - Words(was), -k);
  }

  lemma WholeRounds(x: int, k: int)
    requires x == 0xFFFF * k
    ensures x % 0xFFFF == 0
  {
  }

  /** The new value of the field, as a native variable. */
  function Patched(lo: byte, hi: byte): uint16 {
    var v: int := Native(lo, hi);
    if v >= 0xFFF7 then (v + 9) % 0x1_0000 else v + 8
  }

  lemma PatchedWord(lo: byte, hi: byte, w: uint16) returns (k: int)
    requires w == Patched(lo, hi)
    ensures w % 0x100 * 0x100 + w / 0x100 == lo as int * 0x100 + hi + ICMP_ECHO as int * 0x100 - 0xFFFF * k
  {
    if Native(lo, hi) >= 0xFFF7 {
      k := 1;
      TwoBytes(w, lo - 0xF7, 0);
    } else if lo >= 0xF8 {
      k := 1;
      TwoBytes(w, lo - 0xF8, hi + 1);
    } else {
      k := 0;
      TwoBytes(w, lo + 8, hi);
    }
  }

  lemma TwoBytes(w: int, lo: int, hi: int)
    requires w == hi * 0x100 + lo && 0 <= lo < 0x100
    ensures w % 0x100 == lo && w / 0x100 == hi
  {
  }

  lemma FirstWords(b: seq<byte>)
    requires |b| >= 4
    ensures Words(b) == b[0] as int * 0x100 + b[1] + b[2] as int * 0x100 + b[3] + Words(b[4..])
  {
    assert b[2..][2..] == b[4..];
    assert Words(b[2..]) == b[2] as int * 0x100 + b[3] + Words(b[2..][2..]);
  }

  /** The reply is valid exactly if the request was. */
  lemma ValidityKept(m: nat, n: nat)
    requires (m - n) % 0xFFFF == 0
    ensures Nonzero(Fold(m)) == 0xFFFF <==> Nonzero(Fold(n)) == 0xFFFF
  {
  }

  /** From the label icmp_input on, for an echo request: the answer goes back to the
      sender, passes the header check, and is valid exactly if the request was. */
  method EchoReply(buf: array<byte>, hostAddr: seq<byte>, ttl: byte, ipid: uint16)
    requires buf.Length >= ICMP_CHECKSUM_AT + 2 && buf[IP_HEADER] == ICMP_ECHO && |hostAddr| == 4
    modifies buf
    ensures Passes(buf[..20]) && buf[IP_HEADER] == ICMP_ECHO_REPLY && buf[8] == ttl
    ensures Nonzero(Fold(Words(buf[IP_HEADER..]))) == 0xFFFF <==> old(Nonzero(Fold(Words(buf[IP_HEADER..]))) == 0xFFFF)
    ensures buf[16..20] == old(buf[12..16]) && buf[12..16] == hostAddr
    ensures buf[ICMP_CHECKSUM_AT + 2..] == old(buf[ICMP_CHECKSUM_AT + 2..])
  {
    hide Words, IpSum, Fold, Nonzero;
    ghost var was := buf[IP_HEADER..];
    PatchIcmpChecksum(buf);
    ghost var now := buf[IP_HEADER..];
    ValidityKept(Words(now), Words(was));
    forall i | 0 <= i < 4 { buf[16 + i] := buf[12 + i]; }
    forall i | 0 <= i < 4 { buf[12 + i] := hostAddr[i]; }
    buf[8] := ttl;
    IpSend(buf, ipid);
    assert forall i | IP_HEADER <= i < buf.Length :: buf[i] == now[i - IP_HEADER];
    assert buf[IP_HEADER..] == now;
  }

  // ---------------------------------------------------------------------------
  // The form with deferred carries
  // ---------------------------------------------------------------------------

  function Swap(x: uint16): uint16 { x % 0x100 * 0x100 + x / 0x100 }

  /** The sum of the words as a little-endian machine reads them. */
  function NativeWords(b: seq<byte>): nat
    decreases |b|
  {
    if b == [] then 0
    else if |b| == 1 then b[0]
    else Native(b[0], b[1]) + NativeWords(b[2..])
  }

  lemma {:induction false} NativeBound(b: seq<byte>)
    ensures NativeWords(b) <= (|b| + 1) / 2 * 0xFFFF
    decreases |b|
  {
    if |b| > 1 { NativeBound(b[2..]); }
  }

  /** ipchecksum, on a machine with 32-bit int; up to 65536 bytes the sum fits. */
  method IpChecksum(data: seq<byte>) returns (r: uint16)
    requires |data| <= 0x1_0000
    ensures r == 0xFFFF - Fold(NativeWords(data))
  {
    var sum, i, nbytes: nat := 0, 0, |data|;
    assert data[0..] == data;
    NativeBound(data);
    while nbytes > 1
      invariant nbytes + i == |data| && sum + NativeWords(data[i..]) == NativeWords(data)
      invariant sum < 0x8000_0000
    {
      assert data[i..][2..] == data[i + 2..];
      sum := sum + Native(data[i], data[i + 1]);
      i := i + 2;
      nbytes := nbytes - 2;
    }
    if nbytes == 1 { sum := sum + data[i] as int; }
    r := FoldCarries(sum);
  }

  /** The two folding steps and the complement. */
  method FoldCarries(total: nat) returns (r: uint16)
    requires total < 0x8000_0000
    ensures r == 0xFFFF - Fold(total)
  {
    var sum := total / 0x1_0000 + total % 0x1_0000;
    FoldedOnce(total, sum);
    ghost var once := sum;
    sum := sum + sum / 0x1_0000;
    FoldedTwice(once, sum);
    r := 0xFFFF - sum % 0x1_0000;
  }

  lemma FoldedOnce(total: nat, sum: nat)
    requires sum == total / 0x1_0000 + total % 0x1_0000 && total < 0x8000_0000
    ensures Fold(sum) == Fold(total) && sum < 0x1_7FFF
  {
    var k := total / 0x1_0000;
    assert total == sum + 0xFFFF * k;
    SameFold(sum, total, k);
  }

  lemma FoldedTwice(once: nat, sum: nat)
    requires sum == once + once / 0x1_0000 && once < 0x1_7FFF
    ensures sum % 0x1_0000 == Fold(once)
  {
  }

  lemma SameFold(m: nat, n: nat, k: nat)
    requires n == m + 0xFFFF * k && (m == 0 <==> n == 0)
    ensures Fold(m) == Fold(n)
  {
    if n != 0 {
      assert (n - 1) % 0xFFFF == (m - 1) % 0xFFFF;
    }
  }

  /** A word read in the other order is 256 times the word, up to whole rounds. */
  lemma {:induction false} NativeIsSwapped(b: seq<byte>) returns (k: nat)
    ensures 0x100 * Words(b) == NativeWords(b) + 0xFFFF * k && (NativeWords(b) == 0 <==> Words(b) == 0)
    decreases |b|
  {
    if b == [] { return 0; }
    if |b| == 1 { return b[0]; }
    k := NativeIsSwapped(b[2..]);
    k := k + b[0];
  }

  /** Both checksums agree exactly: ipchecksum is the complement of chksum with its
      bytes swapped. */
  lemma ChecksumsAgree(b: seq<byte>)
    ensures Fold(NativeWords(b)) == Swap(Fold(Words(b)))
    ensures 0xFFFF - Fold(NativeWords(b)) == Swap(0xFFFF - Fold(Words(b)))
  {
    var k := NativeIsSwapped(b);
    SwapIsMultiple(Words(b), NativeWords(b), k);
  }

  lemma SwapIsMultiple(n: nat, m: nat, k: nat)
    requires 0x100 * n == m + 0xFFFF * k && (m == 0 <==> n == 0)
    ensures Fold(m) == Swap(Fold(n))
    ensures 0xFFFF - Swap(Fold(n)) == Swap(0xFFFF - Fold(n))
  {
    hide Swap, Fold;
    var f := Fold(n);
    var j := FoldRest(n);
    var h := SwapRest(f);
    SwapZero(f);
    FoldZero(n);
    WholeRounds(m - Swap(f), 0x100 * j + h - k);
    FoldIs(m, Swap(f));
  }

  /** Folding takes off whole rounds, and swapping does on 256 times the word. */
  lemma FoldRest(n: nat) returns (j: nat)
    ensures n == Fold(n) + 0xFFFF * j
  {
    j := if n == 0 then 0 else (n - 1) / 0xFFFF;
  }

  lemma SwapRest(f: uint16) returns (h: nat)
    ensures 0x100 * f == Swap(f) + 0xFFFF * h
  {
    h := f / 0x100;
    assert f == h * 0x100 + f % 0x100;
  }

  lemma FoldZero(n: nat)
    ensures Fold(n) == 0 <==> n == 0
  {
  }

  lemma SwapZero(f: uint16)
    ensures (Swap(f) == 0 <==> f == 0) && 0xFFFF - Swap(f) == Swap(0xFFFF - f)
  {
  }
}
