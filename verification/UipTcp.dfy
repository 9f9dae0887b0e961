/** The TCP paths of uip_process in src/net/uip.c, for one connection: the timer, the
    input of a segment, the state switch and the application's answer. */
module UipTcp {
  import opened Machine

  // ---------------------------------------------------------------------------
  // Sequence numbers: four bytes, most significant first
  // ---------------------------------------------------------------------------

  type Seq32 = s: seq<byte> | |s| == 4 witness [0, 0, 0, 0]

  function Num(s: Seq32): uint32 {
    BigEndianBound(s);
    Pow256Values();
    BigEndian(s)
  }

  function Word(b0: int, b1: int, b2: int, b3: int): int {
    b0 * 0x100_0000 + b1 * 0x1_0000 + b2 * 0x100 + b3
  }

  lemma NumIsWord(s: Seq32)
    ensures Num(s) == Word(s[0], s[1], s[2], s[3])
  {
    assert s[..3][..2] == s[..2] && s[..2][..1] == s[..1] && s[..1][..0] == [];
    assert BigEndian(s[..1]) == s[0];
    assert BigEndian(s[..2]) == s[0] as int * 0x100 + s[1];
    assert BigEndian(s[..3]) == s[0] as int * 0x1_0000 + s[1] as int * 0x100 + s[2];
  }

  lemma NumInjective(s: Seq32, t: Seq32)
    requires Num(s) == Num(t)
    ensures s == t
  {
    BigEndianRoundTrip(s);
    BigEndianRoundTrip(t);
  }

  lemma ModAdd(x: int, a: int)
    ensures Mod32(Mod32(x) + a) == Mod32(x + a)
  {
  }

  lemma WrapOnce(x: uint32, w: int, total: int)
    requires x + w * 0x1_0000_0000 == total
    ensures x == Mod32(total)
  {
  }

  function Low8(x: uint16): byte { x % 0x100 }

  function High8(x: uint16): (h: byte)
    ensures h as int * 0x100 + Low8(x) == x
  {
    x / 0x100
  }

  /** uip_add32: bytewise addition with the carries propagated by hand. */
  method Add32(op32: Seq32, op16: uint16) returns (acc: Seq32)
    ensures Num(acc) == Mod32(Num(op32) + op16)
  {
    hide Num, Word, Low8;
    var lo, hi := Low8(op16), High8(op16);
    var a3 := Low8(op32[3] as int + lo);
    ghost var carry := LowCarry(op32[3], lo);
    var a0: byte, a1: byte, a2: byte;
    ghost var w1, w2: nat := 0, 0;
    a0, a1, a2, w1 := AddByte(op32[0], op32[1], op32[2], hi);
    ghost var first := Word(a0, a1, a2, 0);
    if a3 < lo {
      a0, a1, a2, w2 := AddByte(a0, a1, a2, 1);
    }
    acc := [a0, a1, a2, a3];
    NumIsWord(op32);
    NumIsWord(acc);
    LowByte(op32[0], op32[1], op32[2], op32[3]);
    LowByte(a0, a1, a2, a3);
    assert Word(a0, a1, a2, 0) + w2 * 0x1_0000_0000 == first + carry * 0x100;
    SumUp(Word(op32[0], op32[1], op32[2], 0), first, Word(a0, a1, a2, 0), op32[3], a3, op16, lo, hi, carry, w1, w2);
    WrapOnce(Num(acc), w1 + w2, Num(op32) + op16);
  }

  lemma LowCarry(b3: byte, lo: byte) returns (carry: nat)
    ensures Low8(b3 as int + lo) as int + 0x100 * carry == b3 as int + lo
    ensures carry == if Low8(b3 as int + lo) < lo then 1 else 0
  {
    carry := if b3 as int + lo < 0x100 then 0 else 1;
  }

  lemma SumUp(x: int, y: int, z: int, b3: int, a3: int, op16: int, lo: int, hi: int, carry: int, w1: int, w2: int)
    requires op16 == hi * 0x100 + lo && a3 + 0x100 * carry == b3 + lo
    requires y + w1 * 0x1_0000_0000 == x + hi * 0x100 && z + w2 * 0x1_0000_0000 == y + carry * 0x100
    ensures z + a3 + (w1 + w2) * 0x1_0000_0000 == x + b3 + op16
  {
  }

  lemma LowByte(b0: int, b1: int, b2: int, b3: int)
    ensures Word(b0, b1, b2, b3) == Word(b0, b1, b2, 0) + b3
  {
  }

  /** A byte added to the third of four bytes: a carry shows when the sum is below it. */
  method AddByte(b0: byte, b1: byte, b2: byte, x: byte) returns (a0: byte, a1: byte, a2: byte, ghost wraps: nat)
    ensures Word(a0, a1, a2, 0) + wraps * 0x1_0000_0000 == Word(b0, b1, b2, 0) + x as int * 0x100
  {
    a2 := (b2 + x) % 0x100;
    a1, a0, wraps := b1, b0, 0;
    if a2 < x {
      a1, a0, wraps := Increment(a1, a0);
    }
  }

  /** One more in the two high bytes. */
  method Increment(a1: byte, a0: byte) returns (b1: byte, b0: byte, ghost wraps: nat)
    ensures 0x100 * (b0 as int) + b1 + wraps * 0x1_0000 == 0x100 * (a0 as int) + a1 + 1
  {
    wraps := 0;
    b1, b0 := (a1 + 1) % 0x100, a0;
    if b1 == 0 {
      b0 := (b0 + 1) % 0x100;
      if b0 == 0 { wraps := 1; }
    }
  }

  // ---------------------------------------------------------------------------
  // Segments, replies and the application
  // ---------------------------------------------------------------------------

  datatype Option<+T> = None | Some(value: T)

  datatype TcpState =
    Closed | SynRcvd | SynSent | Established | FinWait1 | FinWait2 | Closing | TimeWait | LastAck

  /** The bits of uip_flags. */
  datatype Flag = ACKDATA | NEWDATA | REXMIT | POLL | CLOSE | ABORT | CONNECTED | TIMEDOUT

  /** A segment addressed to this connection, with its checksum already accepted.
      mss is the maximum segment size option, where present. */
  datatype Segment = Segment(fin: bool, syn: bool, rst: bool, psh: bool, ack: bool,
                             seqno: Seq32, ackno: Seq32, wnd: uint16, mss: Option<uint16>, data: seq<byte>)
  {
    /** (flags & TCP_CTL) == TCP_SYN, and == (TCP_SYN | TCP_ACK). */
    predicate IsSyn() { syn && !ack && !fin && !rst && !psh }
    predicate IsSynAck() { syn && ack && !fin && !rst && !psh }
  }

  /** What is sent back: nothing, or a segment with that much payload. */
  datatype Reply = Drop | Send(fin: bool, syn: bool, rst: bool, psh: bool, ack: bool,
                               seqno: Seq32, ackno: Seq32, length: nat)

  datatype Verdict = Carry | CloseIt | AbortIt

  /** What the application did when it was called: uip_close and uip_abort replace
      uip_flags, uip_restart adds NEWDATA, uip_stop and uip_restart set the stop bit. */
  datatype App = App(verdict: Verdict, restart: bool, stop: bool, slen: uint16)
  {
    function Answer(flags: set<Flag>): set<Flag> {
      (match verdict case Carry => flags case CloseIt => {CLOSE} case AbortIt => {ABORT})
      + (if restart then {NEWDATA} else {})
    }

    function Stopped(was: bool): bool { stop || (was && !restart) }
  }

  /** One call of the application: uip_flags, and the incoming data. */
  datatype Call = Call(flags: set<Flag>, data: seq<byte>)

  /** What a reply is, by its control bits. */
  datatype Kind = Silent | PureAck | SynOut | SynAck | FinAck | RstAck | Data(length: nat) | OtherKind

  function KindOf(r: Reply): Kind {
    match r
    case Drop => Silent
    case Send(fin, syn, rst, psh, ack, _, _, n) =>
      if syn && !fin && !rst && !psh && n == 0 then (if ack then SynAck else SynOut)
      else if syn || !ack then OtherKind
      else if psh then (if fin || rst then OtherKind else Data(n))
      else if n != 0 || (fin && rst) then OtherKind
      else if fin then FinAck else if rst then RstAck else PureAck
  }

  /** What an event comes to: the state and what is outstanding afterwards, how many
      sequence numbers of the peer are counted, the calls, and the reply. */
  datatype Outcome = Outcome(state: TcpState, len: nat, counted: nat, calls: seq<Call>, kind: Kind)

  ghost predicate Did(o: Outcome, state: TcpState, len: nat, before: seq<Call>, after: seq<Call>, reply: Reply) {
    state == o.state && len == o.len && after == before + o.calls && KindOf(reply) == o.kind
  }

  /** An open connection calls the application with some flags, while len is outstanding. */
  function Answered(app: App, flags: set<Flag>, data: seq<byte>, len: nat, mss: nat): Outcome {
    var calls := [Call(flags, data)];
    match app.verdict
    case AbortIt => Outcome(Closed, len, 0, calls, RstAck)
    case CloseIt => Outcome(FinWait1, 1, 0, calls, FinAck)
    case Carry =>
      var n := if app.slen > 0 && len == 0 then Min(app.slen, mss) else len;
      Outcome(Established, n, 0, calls,
              if app.slen > 0 && n > 0 then Data(n)
              else if NEWDATA in flags || app.restart then PureAck else Silent)
  }

  /** The flags for an acknowledgement and for new data. */
  function Told(acks: bool, data: bool): set<Flag> {
    (if acks then {ACKDATA} else {}) + if data then {NEWDATA} else {}
  }

  /** The call with which the retransmission timer ends, or is set again, in the state
      that it leaves behind. */
  function Timely(state: TcpState): seq<Call> {
    match state
    case Closed => [Call({TIMEDOUT}, [])]
    case Established => [Call({REXMIT}, [])]
    case _ => []
  }

  /** What is sent again. */
  function Again(state: TcpState, len: nat, app: App): Kind {
    match state
    case Closed => RstAck
    case SynRcvd => SynAck
    case SynSent => SynOut
    case Established => if app.slen > 0 then Data(len) else if app.restart then PureAck else Silent
    case _ => FinAck
  }

  lemma ToldIs(acks: bool, data: bool)
    ensures var f := Told(acks, data);
            && (ACKDATA in f <==> acks) && (NEWDATA in f <==> data)
            && ABORT !in f && CLOSE !in f && f + {NEWDATA} == Told(acks, true)
  {
  }

  /** A segment in sequence, which acknowledges what is outstanding or does not. len is
      what is outstanding after that, mss what may be sent at once. */
  function Heard(state: TcpState, stopped: bool, len: nat, acks: bool, seg: Segment, app: App, mss: nat): Outcome {
    var size, fin := |seg.data|, if seg.fin then 1 else 0;
    match state
    case SynRcvd =>
      if acks then Answered(app, {CONNECTED} + Told(false, size > 0), seg.data, 0, mss).(counted := size)
      else Outcome(SynRcvd, len, 0, [], if seg.IsSyn() then SynAck else Silent)
    case SynSent =>
      if acks && seg.IsSynAck() then Answered(app, {CONNECTED, NEWDATA}, [], 0, mss).(counted := 0)
      else Outcome(Closed, len, 0, [Call({ABORT}, seg.data)], RstAck)
    case Established =>
      if seg.fin && !stopped then
        if len > 0 then Outcome(Established, len, 0, [], Silent)
        else Outcome(LastAck, 1, size + 1, [Call(Told(acks, size > 0) + {CLOSE}, seg.data)], FinAck)
      else if acks || (size > 0 && !stopped) then
        var taken := size > 0 && !stopped;
        Answered(app, Told(acks, taken), seg.data, len, mss).(counted := if taken then size else 0)
      else Outcome(Established, len, 0, [], Silent)
    case LastAck =>
      if acks then Outcome(Closed, len, 0, [Call({CLOSE}, seg.data)], Silent)
      else Outcome(LastAck, len, 0, [], Silent)
    case FinWait1 =>
      if seg.fin then
        Outcome(if acks then TimeWait else Closing, len, size + 1, [Call({CLOSE}, seg.data)], PureAck)
      else if acks then Outcome(FinWait2, len, size, [], Silent)
      else Outcome(FinWait1, len, size, [], if size > 0 then PureAck else Silent)
    case FinWait2 =>
      Outcome(if seg.fin then TimeWait else FinWait2, len, size + fin,
              if seg.fin then [Call({CLOSE}, seg.data)] else [], if size + fin > 0 then PureAck else Silent)
    case TimeWait => Outcome(TimeWait, len, 0, [], PureAck)
    case Closing => Outcome(if acks then TimeWait else Closing, len, 0, [], Silent)
    case Closed => Outcome(Closed, len, 0, [], Silent)
  }

  /** On an open connection a segment without a FIN makes exactly one call if it
      acknowledges or brings something, and none otherwise; and an application that
      carries on and gives data has it sent at once, as far as nothing is outstanding. */
  lemma OneCall(was: nat, acks: bool, seg: Segment, app: App, stopped: bool, mss: nat)
    requires !seg.fin
    ensures var len := if acks then 0 else was;
            var taken := |seg.data| > 0 && !stopped;
            var o := Heard(Established, stopped, len, acks, seg, app, mss);
            && o.counted == (if taken then |seg.data| else 0)
            && o.calls == (if acks || taken then [Call(Told(acks, taken), seg.data)] else [])
            && ((acks || taken) && app.verdict.Carry? && app.slen > 0 && len == 0 ==>
                  o.len == Min(app.slen, mss) && (o.len > 0 ==> o.kind == Data(o.len)))
  {
  }

  /** Both ways into an open connection, and the SYN that comes twice. */
  lemma Opening(stopped: bool, len: nat, acks: bool, seg: Segment, app: App, mss: nat)
    ensures var o := Heard(SynSent, stopped, len, acks, seg, app, mss);
            acks && seg.IsSynAck() ==>
              o.calls == [Call({CONNECTED, NEWDATA}, [])] && o.counted == 0
              && (app.verdict == Carry ==> o.state == Established)
    ensures var o := Heard(SynRcvd, stopped, len, acks, seg, app, mss);
            if acks then
              && o.calls == [Call(if |seg.data| > 0 then {CONNECTED, NEWDATA} else {CONNECTED}, seg.data)]
              && (app.verdict == Carry ==> o.state == Established)
            else seg.IsSyn() ==> o == Outcome(SynRcvd, len, 0, [], SynAck)
  {
    assert {CONNECTED} + Told(false, true) == {CONNECTED, NEWDATA};
    assert {CONNECTED} + Told(false, false) == {CONNECTED};
  }

  /** The application decides what becomes of the connection. */
  predicate Asked(state: TcpState, stopped: bool, acks: bool, seg: Segment) {
    || (state == SynRcvd && acks)
    || (state == SynSent && acks && seg.IsSynAck())
    || (state == Established && !(seg.fin && !stopped) && (acks || (|seg.data| > 0 && !stopped)))
  }

  /** The state diagram, by the state that is reached. */
  lemma StateDiagram(s: TcpState, stopped: bool, len: nat, acks: bool, seg: Segment, app: App, mss: nat)
    ensures var o, fin := Heard(s, stopped, len, acks, seg, app, mss).state, seg.fin;
            && (o == SynRcvd <==> s == SynRcvd && !acks)
            && o != SynSent
            && (o == Established <==> (Asked(s, stopped, acks, seg) && app.verdict == Carry)
                                      || (s == Established && !Asked(s, stopped, acks, seg)
                                          && !(fin && !stopped && len == 0)))
            && (o == LastAck <==> (s == Established && fin && !stopped && len == 0) || (s == LastAck && !acks))
            && (o == FinWait1 <==> (Asked(s, stopped, acks, seg) && app.verdict == CloseIt)
                                   || (s == FinWait1 && !acks && !fin))
            && (o == FinWait2 <==> (s == FinWait1 && acks && !fin) || (s == FinWait2 && !fin))
            && (o == Closing <==> !acks && ((s == FinWait1 && fin) || s == Closing))
            && (o == TimeWait <==> (acks && ((s == FinWait1 && fin) || s == Closing))
                                   || (s == FinWait2 && fin) || s == TimeWait)
  {
  }

  /** What is counted is acknowledged at once, except for data that comes with the
      acknowledgement of our FIN: the code then drops the buffer (line 1612). */
  lemma CountedIsAcknowledged(s: TcpState, stopped: bool, len: nat, acks: bool, seg: Segment, app: App, mss: nat)
    ensures var o := Heard(s, stopped, len, acks, seg, app, mss);
            && (s in {Established, FinWait1, FinWait2} && seg.fin && !(s == Established && (stopped || len > 0)) ==>
                  o.counted == |seg.data| + 1)
            && (s == Established && !seg.fin && !stopped ==> o.counted == |seg.data|)
            && (o.counted > 0 ==> (o.kind == Silent <==> s == FinWait1 && acks && !seg.fin))
  {
  }

  // ---------------------------------------------------------------------------
  // What the application is told
  // ---------------------------------------------------------------------------

  /** The data of the calls that announce new data. */
  function Handed(calls: seq<Call>): seq<byte> {
    if calls == [] then []
    else Handed(calls[..|calls| - 1]) + if NEWDATA in calls[|calls| - 1].flags then calls[|calls| - 1].data else []
  }

  predicate Final(c: Call) { ABORT in c.flags || TIMEDOUT in c.flags }

  /** Nothing is said before the connection opens or fails; CONNECTED comes first, and
      once; and after an abort or a timeout nothing more is said. */
  ghost predicate Story(calls: seq<Call>, state: TcpState) {
    && (state in {SynRcvd, SynSent} ==> calls == [])
    && (state !in {SynRcvd, SynSent, Closed} ==> calls != [] && CONNECTED in calls[0].flags)
    && (forall k | 0 < k < |calls| :: CONNECTED !in calls[k].flags)
    && (forall k | 0 <= k < |calls| && Final(calls[k]) :: k == |calls| - 1 && state == Closed)
  }

  /** One event adds at most one call, the right one for its states, which hands over data. */
  ghost predicate Tells(before: seq<Call>, s0: TcpState, after: seq<Call>, s1: TcpState, data: seq<byte>) {
    if after == before then data == [] && (s0 == s1 || (s0 !in {SynRcvd, SynSent} && s1 !in {SynRcvd, SynSent}
                                                        && (s0 == Closed ==> s1 == Closed)))
    else
      && |after| == |before| + 1 && before == after[..|before|]
      && s0 != Closed && TellsOf(after[|before|], s0, s1, data)
  }

  ghost predicate TellsOf(c: Call, s0: TcpState, s1: TcpState, data: seq<byte>) {
    && s1 !in {SynRcvd, SynSent}
    && data == (if NEWDATA in c.flags then c.data else [])
    && (CONNECTED in c.flags ==> s0 in {SynRcvd, SynSent})
    && (s0 in {SynRcvd, SynSent} && s1 != Closed ==> CONNECTED in c.flags)
    && (Final(c) ==> s1 == Closed)
  }

  lemma OneMore(before: seq<Call>, c: Call)
    ensures var after := before + [c];
            |after| == |before| + 1 && after != before && after[..|before|] == before && after[|before|] == c
  {
    assert |before + [c]| == |before| + 1;
  }

  lemma StoryGoesOn(before: seq<Call>, s0: TcpState, after: seq<Call>, s1: TcpState, data: seq<byte>)
    requires Story(before, s0) && Tells(before, s0, after, s1, data)
    ensures Story(after, s1) && Handed(after) == Handed(before) + data
  {
  }

  predicate TakenIf(state: TcpState, stopped: bool, len: nat, acks: bool, seg: Segment) {
    if state == SynRcvd then acks else state == Established && !stopped && (seg.fin ==> len == 0 || acks)
  }

  lemma HeardTells(s: TcpState, stopped: bool, len: nat, acks: bool, seg: Segment, app: App, mss: nat,
                   before: seq<Call>)
    requires s != Closed && (acks ==> len == 0)
    ensures var o := Heard(s, stopped, len, acks, seg, app, mss);
            Tells(before, s, before + o.calls, o.state,
                  if TakenIf(s, stopped, len, acks, seg) then seg.data else [])
  {
    var o := Heard(s, stopped, len, acks, seg, app, mss);
    if o.calls == [] { assert before + o.calls == before; } else { OneMore(before, o.calls[0]); }
    assert |seg.data| == 0 ==> seg.data == [];
  }

  /** The configuration; the retransmission timer must fit its byte after backoff. */
  datatype ConfigData = ConfigData(rto: nat, maxRtx: nat, maxSynRtx: nat, timeWait: nat, tcpMss: uint16)

  type Config = c: ConfigData | 16 * c.rto <= 255 && c.maxRtx <= 255 && c.maxSynRtx <= 255 && c.timeWait <= 255
    witness ConfigData(3, 8, 5, 120, 1460)

  function Backoff(cfg: Config, nrtx: nat): byte {
    cfg.rto * (if nrtx == 0 then 1 else if nrtx == 1 then 2 else if nrtx == 2 then 4 else if nrtx == 3 then 8 else 16)
  }

  /** The backoff doubles four times and stays there. */
  lemma BackoffDoubles(cfg: Config, nrtx: nat)
    ensures Backoff(cfg, 0) == cfg.rto
    ensures Backoff(cfg, nrtx + 1) == if nrtx < 4 then 2 * Backoff(cfg, nrtx) else Backoff(cfg, nrtx)
  {
  }

  function Min(a: nat, b: nat): nat { if a < b then a else b }

  lemma NothingSent(next: uint32)
    ensures KindOf(Drop) == Silent && Mod32(next) == next
  {
  }

  /** How often a segment is retransmitted in a state. */
  function Limit(cfg: Config, state: TcpState): nat {
    if state.SynSent? || state.SynRcvd? then Min(cfg.maxRtx, cfg.maxSynRtx) else cfg.maxRtx
  }

  /** The sum of (RTO << min(k, 4)) + 1 for k from nrtx up to the limit. */
  function BackoffSum(cfg: Config, nrtx: nat, limit: nat): nat
    decreases limit - nrtx
  {
    if nrtx >= limit then 0 else Backoff(cfg, nrtx) + 1 + BackoffSum(cfg, nrtx + 1, limit)
  }

  lemma BackoffStep(cfg: Config, nrtx: nat, limit: nat)
    ensures BackoffSum(cfg, nrtx, limit) ==
              if nrtx >= limit then 0 else Backoff(cfg, nrtx) + 1 + BackoffSum(cfg, nrtx + 1, limit)
  {
  }

  /** How often an 8-bit timer is stepped before it meets the end. */
  function Rounds(end: byte, timer: byte): (n: nat)
    ensures n >= 1
  {
    (end - timer - 1) % 0x100 + 1
  }

  lemma OneRound(end: byte, timer: byte)
    ensures var next := (timer + 1) % 0x100;
            && (next == end <==> Rounds(end, timer) == 1)
            && (next != end ==> Rounds(end, next) == Rounds(end, timer) - 1)
  {
    var next := (timer + 1) % 0x100;
    assert next == if timer == 0xFF then 0 else timer + 1;
    RoundsIs(end, timer);
    RoundsIs(end, next);
    hide Rounds;
  }

  lemma RoundsIs(end: byte, timer: byte)
    ensures Rounds(end, timer) == if timer < end then end - timer else end as int + 0x100 - timer
  {
  }

  // ---------------------------------------------------------------------------
  // The peer
  // ---------------------------------------------------------------------------

  /** The other end: its initial sequence number and all it will ever send. */
  datatype Peer = Peer(isn: uint32, stream: seq<byte>)
  {
    function SeqAt(offset: nat): uint32 { Mod32(isn + 1 + offset) }

    ghost predicate Carries(seg: Segment, offset: nat) {
      && offset + |seg.data| <= |stream|
      && seg.data == stream[offset..offset + |seg.data|]
      && Num(seg.seqno) == SeqAt(offset)
      && (seg.fin ==> offset + |seg.data| == |stream|)
    }

    /** A segment the peer may have sent, at any time: its SYN without data, a piece of
        the stream at its place, with the FIN at the end, or a bare acknowledgement. */
    ghost predicate Honest(seg: Segment) {
      if seg.syn then Num(seg.seqno) == isn && seg.data == [] && !seg.fin
      else (seg.data == [] && !seg.fin) || exists offset: nat :: Carries(seg, offset)
    }
  }

  ghost predicate InOrderAt(peer: Peer, state: TcpState, rcvNxt: uint32, delivered: seq<byte>) {
    && |peer.stream| < 0x1_0000_0000
    && delivered <= peer.stream
    && (state in {SynRcvd, SynSent} ==> delivered == [])
    && (state in {SynRcvd, Established} ==> rcvNxt == peer.SeqAt(|delivered|))
    && (state == LastAck ==> delivered == peer.stream)
  }

  /** What one segment does on the receiving side. If it is taken, it continues what
      was there; if not, what was there stays, or the peer's SYN starts it. */
  predicate Takes(taken: bool, seg: Segment,
                  s0: TcpState, r0: uint32, d0: seq<byte>, s1: TcpState, r1: uint32, d1: seq<byte>) {
    if taken then
      && s0 in {SynRcvd, Established} && s1 !in {SynRcvd, SynSent}
      && (|seg.data| > 0 || seg.fin ==> Num(seg.seqno) == r0)
      && d1 == d0 + seg.data
      && (s1 == Established ==> r1 == Mod32(r0 + |seg.data|))
      && (s1 == LastAck ==> seg.fin)
    else
      && d1 == d0
      && (s1 in {SynRcvd, SynSent, LastAck} ==> s0 == s1 && r0 == r1)
      && (s1 == Established ==> (s0 == s1 && r0 == r1)
                                || (s0 == SynSent && seg.syn && r1 == Mod32(Num(seg.seqno) + 1)))
  }

  // ---------------------------------------------------------------------------
  // The connection
  // ---------------------------------------------------------------------------

  class TcpConn {
    const cfg: Config
    var state: TcpState
    var stopped: bool
    var rcvNxt: Seq32
    var sndNxt: Seq32
    var len: uint16
    var mss: uint16
    var initialmss: uint16
    var rto: byte
    var timer: byte
    var nrtx: byte

    /** Everything the application was handed with NEWDATA so far. */
    ghost var delivered: seq<byte>

    /** Every call of the application so far. */
    ghost var calls: seq<Call>

    ghost predicate Valid()
      reads this
    {
      && (state in {SynRcvd, SynSent, FinWait1, Closing, LastAck} ==> len == 1)
      && (state in {TimeWait, FinWait2} ==> len == 0)
      && (state != Established ==> !stopped)
      && nrtx <= Limit(cfg, state)
    }

    /** What has been taken over from the peer is in order and without a gap. */
    ghost predicate InOrder(peer: Peer)
      reads this
    {
      InOrderAt(peer, state, Num(rcvNxt), delivered)
    }

    /** What has been taken over is what the calls handed over, and the calls tell a story. */
    ghost predicate Consistent()
      reads this
    {
      delivered == Handed(calls) && Story(calls, state)
    }

    /** A listening port meets a SYN. */
    constructor Accept(cfg: Config, iss: Seq32, seg: Segment, oldMss: uint16)
      ensures Valid() && state == SynRcvd && sndNxt == iss && len == 1 && calls == []
      ensures Num(rcvNxt) == Mod32(Num(seg.seqno) + 1) && nrtx == 0 && rto == timer == cfg.rto
      ensures mss == initialmss == if seg.mss.None? then oldMss else Min(seg.mss.value, cfg.tcpMss)
      ensures forall peer: Peer | |peer.stream| < 0x1_0000_0000 && seg.syn && peer.Honest(seg) :: InOrder(peer)
    {
      this.cfg := cfg;
      state, stopped := SynRcvd, false;
      sndNxt, rcvNxt := iss, seg.seqno;
      rto, timer := Backoff(cfg, 0), Backoff(cfg, 0);
      nrtx, len := 0, 1;
      mss := if seg.mss.Some? then (if seg.mss.value > cfg.tcpMss then cfg.tcpMss else seg.mss.value) else oldMss;
      initialmss := if seg.mss.None? then oldMss
                    else if seg.mss.value > cfg.tcpMss then cfg.tcpMss else seg.mss.value;
      delivered, calls := [], [];
      new;
      AddRcvNxt(1);
    }

    /** uip_connect; rcv_nxt keeps whatever the slot held before. */
    constructor Connect(cfg: Config, iss: Seq32, garbage: Seq32)
      ensures Valid() && state == SynSent && sndNxt == iss && len == 1 && calls == []
      ensures rcvNxt == garbage && nrtx == 0 && timer == 1 && rto == cfg.rto && mss == initialmss == cfg.tcpMss
      ensures forall peer: Peer | |peer.stream| < 0x1_0000_0000 :: InOrder(peer)
    {
      this.cfg := cfg;
      state, stopped := SynSent, false;
      sndNxt, rcvNxt := iss, garbage;
      rto, timer := Backoff(cfg, 0), 1;
      nrtx, len := 0, 1;
      mss, initialmss := cfg.tcpMss, cfg.tcpMss;
      delivered, calls := [], [];
    }

    /** uip_add_rcv_nxt. */
    method AddRcvNxt(n: uint16)
      modifies this`rcvNxt
      ensures Num(rcvNxt) == Mod32(Num(old(rcvNxt)) + n)
    {
      rcvNxt := Add32(rcvNxt, n);
    }

    /** The data of a segment is counted, though nobody is handed it. */
    method AddData(seg: Segment)
      requires |seg.data| <= 65495
      modifies this`rcvNxt
      ensures Num(rcvNxt) == Mod32(Num(old(rcvNxt)) + |seg.data|)
      ensures Mod32(Num(rcvNxt) + 1) == Mod32(Num(old(rcvNxt)) + |seg.data| + 1)
    {
      if |seg.data| > 0 { AddRcvNxt(|seg.data|); }
      ModAdd(Num(old(rcvNxt)) + |seg.data|, 1);
    }

    /** UIP_APPCALL with the given flags and incoming data. uip_stop and uip_restart
        matter only while the connection is established. */
    method AppCall(app: App, flags: set<Flag>, data: seq<byte>) returns (answer: set<Flag>)
      modifies this`stopped, this`delivered, this`calls
      ensures answer == app.Answer(flags)
      ensures calls == old(calls) + [Call(flags, data)]
      ensures stopped == if state == Established then app.Stopped(old(stopped)) else old(stopped)
      ensures delivered == old(delivered) + if NEWDATA in flags then data else []
    {
      calls := calls + [Call(flags, data)];
      if NEWDATA in flags { delivered := delivered + data; }
      if state == Established { stopped := app.Stopped(stopped); }
      answer := app.Answer(flags);
    }

    function Segm(fin: bool, syn: bool, rst: bool, psh: bool, ack: bool, length: nat): (r: Reply)
      reads this
      ensures r.Send? && r.seqno == sndNxt && r.ackno == rcvNxt
    {
      Send(fin, syn, rst, psh, ack, sndNxt, rcvNxt, length)
    }

    /** What is sent once the application has answered: the outstanding data if it gave
        any, or an acknowledgement of new data, or nothing. */
    function AppReply(flags: set<Flag>, gaveData: bool): (r: Reply)
      reads this
      ensures r.Send? ==> r.seqno == sndNxt && r.ackno == rcvNxt
    {
      if gaveData && len > 0 then Segm(false, false, false, true, true, len)
      else if NEWDATA in flags then Segm(false, false, false, false, true, 0)
      else Drop
    }

    /** The label appsend. */
    method AppSend(flags: set<Flag>, slen: uint16) returns (reply: Reply)
      requires state == Established
      modifies this`state, this`stopped, this`len, this`nrtx
      ensures state == if ABORT in flags then Closed else if CLOSE in flags then FinWait1 else Established
      ensures stopped == (old(stopped) && state == Established)
      ensures state != Closed ==> nrtx == 0
      ensures state == Closed ==> nrtx == old(nrtx) && len == old(len)
      ensures state == FinWait1 ==> len == 1
      ensures state == Established ==>
                len == if slen > 0 && (ACKDATA in flags || old(len) == 0) then Min(slen, mss) else old(len)
      ensures reply == match state
                       case Closed => Segm(false, false, true, false, true, 0)
                       case FinWait1 => Segm(true, false, false, false, true, 0)
                       case _ => AppReply(flags, slen > 0)
    {
      if ABORT in flags {
        state, stopped := Closed, false;
        reply := Segm(false, false, true, false, true, 0);
        return;
      }
      if CLOSE in flags {
        len := 1;
        state, stopped := FinWait1, false;
        nrtx := 0;
        reply := Segm(true, false, false, false, true, 0);
        return;
      }
      var s := slen;
      if s > 0 {
        if ACKDATA in flags { len := 0; }
        if len == 0 {
          if s > mss { s := mss; }
          len := s;
        } else {
          s := len;
        }
      }
      nrtx := 0;
      reply := AppRexmit(flags, s);
    }

    /** Calls the application and falls into appsend. */
    method CallAndSend(app: App, flags: set<Flag>, data: seq<byte>) returns (reply: Reply)
      requires state == Established && nrtx <= cfg.maxRtx && ABORT !in flags && CLOSE !in flags
      requires ACKDATA in flags ==> len == 0
      modifies this`state, this`stopped, this`delivered, this`calls, this`len, this`nrtx
      ensures Did(Answered(app, flags, data, old(len), mss), state, len, old(calls), calls, reply)
      ensures calls == old(calls) + [Call(flags, data)]
      ensures stopped == (state == Established && app.Stopped(old(stopped)))
      ensures nrtx == if state == Closed then old(nrtx) else 0
      ensures Valid() && state in {Established, Closed, FinWait1}
      ensures delivered == old(delivered) + if NEWDATA in flags then data else []
      ensures reply.Send? ==> reply.seqno == sndNxt && reply.ackno == rcvNxt
    {
      var answer := AppCall(app, flags, data);
      reply := AppSend(answer, app.slen);
    }

    /** The label apprexmit. */
    method AppRexmit(flags: set<Flag>, slen: uint16) returns (reply: Reply)
      ensures reply == AppReply(flags, slen > 0)
    {
      if slen > 0 && len > 0 {
        reply := Segm(false, false, false, true, true, len);
      } else if NEWDATA in flags {
        reply := Segm(false, false, false, false, true, 0);
      } else {
        reply := Drop;
      }
    }

    // -------------------------------------------------------------------------
    // Timer
    // -------------------------------------------------------------------------

    /** The connection is on its way out unless the peer answers. */
    predicate Deadline()
      reads this
    {
      state != Closed && (state == TimeWait || state == FinWait2 || len > 0)
    }

    /** How many timer events without any segment it takes to close it. */
    function Life(): (n: nat)
      requires Deadline()
      reads this
      ensures n >= 1
    {
      if state == TimeWait || state == FinWait2 then Rounds(cfg.timeWait, timer)
      else timer + 1 + BackoffSum(cfg, nrtx, Limit(cfg, state))
    }

    /** The next timer event finds something to retransmit. */
    predicate Rings()
      reads this
    {
      state !in {Closed, TimeWait, FinWait2} && len > 0 && timer == 0
    }

    /** Nothing is outstanding on an open connection, so the application may be asked. */
    predicate Idle()
      reads this
    {
      state == Established && len == 0
    }

    /** uip_process(UIP_TIMER). */
    method Tick(app: App) returns (reply: Reply)
      requires Valid()
      modifies this`state, this`stopped, this`len, this`timer, this`nrtx, this`delivered, this`calls
      ensures Valid() && delivered == old(delivered)
      ensures old(Rings()) ==>
                && calls == old(calls) + Timely(state)
                && KindOf(reply) == Again(state, len, app)
                && (state != Closed ==> nrtx == old(nrtx) + 1 && timer == Backoff(cfg, old(nrtx)))
      ensures Tells(old(calls), old(state), calls, state, [])
      ensures old(Idle()) ==> Did(Answered(app, {POLL}, [], 0, mss), state, len, old(calls), calls, reply)
      ensures !old(Rings()) && !old(Idle()) ==> calls == old(calls) && reply == Drop
      ensures old(Deadline()) && old(Life()) == 1 ==> state == Closed
      ensures old(Deadline()) && old(Life()) > 1 ==>
                state == old(state) && len == old(len) && Deadline() && Life() == old(Life()) - 1
      ensures !old(Deadline()) && old(state) != Established ==> state == old(state)
      ensures !old(Deadline()) ==> state in {old(state), Closed, FinWait1}
      ensures reply.Send? ==> reply.seqno == sndNxt && reply.ackno == rcvNxt
    {
      hide BackoffSum, Backoff, AppReply, Segm, KindOf, Answered, Again, Timely;
      BackoffStep(cfg, nrtx, Limit(cfg, state));
      OneRound(cfg.timeWait, timer);
      hide Rounds;
      reply := Drop;
      if state == TimeWait || state == FinWait2 {
        timer := (timer + 1) % 0x100;
        if timer == cfg.timeWait {
          state := Closed;
        }
      } else if state != Closed {
        if len > 0 {
          var expired := timer == 0;
          timer := if timer == 0 then 255 else timer - 1;
          if expired {
            reply := Expired(app);
          }
        } else if state == Established {
          OneMore(calls, Call({POLL}, []));
          reply := CallAndSend(app, {POLL}, []);
        }
      }
    }

    /** The retransmission timer has run out. */
    method Expired(app: App) returns (reply: Reply)
      requires Valid() && len > 0 && state !in {Closed, TimeWait, FinWait2}
      modifies this`state, this`stopped, this`timer, this`nrtx, this`delivered, this`calls
      ensures Valid() && delivered == old(delivered)
      ensures state == if old(nrtx) == old(Limit(cfg, state)) then Closed else old(state)
      ensures state != Closed ==> timer == Backoff(cfg, old(nrtx)) && nrtx == old(nrtx) + 1
      ensures Tells(old(calls), old(state), calls, state, [])
      ensures calls == old(calls) + Timely(state) && KindOf(reply) == Again(state, len, app)
      ensures stopped == (state == Established && app.Stopped(old(stopped)))
      ensures reply.Send? ==> reply.seqno == sndNxt && reply.ackno == rcvNxt
    {
      hide Backoff;
      if nrtx == cfg.maxRtx || ((state == SynSent || state == SynRcvd) && nrtx == cfg.maxSynRtx) {
        state, stopped := Closed, false;
        OneMore(calls, Call({TIMEDOUT}, []));
        var flags := AppCall(app, {TIMEDOUT}, []);
        reply := Segm(false, false, true, false, true, 0);
        return;
      }
      timer := Backoff(cfg, nrtx);
      nrtx := nrtx + 1;
      match state
      case SynRcvd =>
        reply := Segm(false, true, false, false, true, 0);
      case SynSent =>
        reply := Segm(false, true, false, false, false, 0);
      case Established =>
        OneMore(calls, Call({REXMIT}, []));
        var flags := AppCall(app, {REXMIT}, []);
        reply := AppRexmit(flags, app.slen);
      case FinWait1 | Closing | LastAck =>
        reply := Segm(true, false, false, false, true, 0);
    }

    /** Any number of timer events with nobody answering: the connection is closed
        after exactly Life() of them, not before. */
    method Quiet(apps: seq<App>)
      requires Valid() && Deadline()
      modifies this
      ensures Valid()
      ensures state == Closed <==> |apps| >= old(Life())
    {
      var i := 0;
      while i < |apps|
        invariant 0 <= i <= |apps| && Valid()
        invariant if i < old(Life()) then Deadline() && Life() == old(Life()) - i else state == Closed
      {
        var _ := Tick(apps[i]);
        i := i + 1;
      }
    }

    /** UIP_POLL_REQUEST. */
    method PollRequest(app: App) returns (reply: Reply)
      requires Valid()
      modifies this`state, this`stopped, this`len, this`nrtx, this`delivered, this`calls
      ensures Valid() && delivered == old(delivered)
      ensures if old(Idle()) then Did(Answered(app, {POLL}, [], 0, mss), state, len, old(calls), calls, reply)
              else unchanged(this) && KindOf(reply) == if state == SynSent then SynOut else Silent
      ensures Tells(old(calls), old(state), calls, state, [])
      ensures state == old(state) || (old(state) == Established && state in {Closed, FinWait1})
      ensures reply.Send? ==> reply.seqno == sndNxt && reply.ackno == rcvNxt
    {
      reply := Drop;
      if state == Established && len == 0 {
        OneMore(calls, Call({POLL}, []));
        reply := CallAndSend(app, {POLL}, []);
      } else if state == SynSent {
        reply := Segm(false, true, false, false, false, 0);
      }
    }

    // -------------------------------------------------------------------------
    // Input
    // -------------------------------------------------------------------------

    /** The segment acknowledges exactly what is outstanding. */
    predicate AcksOutstanding(seg: Segment)
      reads this
    {
      seg.ack && len > 0 && Num(seg.ackno) == Mod32(Num(sndNxt) + len)
    }

    /** The sequence number is checked unless the segment is the answer to, or a copy
        of, a SYN; only a segment that occupies sequence space can fail the check. */
    predicate OutOfSequence(seg: Segment)
      reads this
    {
      && !(state == SynSent && seg.IsSynAck())
      && !(state == SynRcvd && seg.IsSyn())
      && (|seg.data| > 0 || seg.syn || seg.fin)
      && seg.seqno != rcvNxt
    }

    /** How many sequence numbers a segment occupies. */
    function Occupied(seg: Segment): nat {
      |seg.data| + (if seg.syn then 1 else 0) + (if seg.fin then 1 else 0)
    }

    /** That is, exactly if it occupies numbers that do not start at the expected one, and
        is not a SYN that belongs to the opening. */
    lemma OutOfSequenceIff(seg: Segment)
      requires Valid()
      ensures OutOfSequence(seg) <==>
                && Num(seg.seqno) != Num(rcvNxt) && Occupied(seg) > 0
                && !(state == SynSent && seg.IsSynAck()) && !(state == SynRcvd && seg.IsSyn())
    {
      if Num(seg.seqno) == Num(rcvNxt) { NumInjective(seg.seqno, rcvNxt); }
    }

    /** Exactly when a segment is taken over, with its data and its FIN. */
    predicate Takeable(seg: Segment)
      reads this
    {
      !seg.rst && !OutOfSequence(seg) && TakenIf(state, stopped, len, AcksOutstanding(seg), seg)
    }

    /** A reset that carries the numbers of the segment. */
    predicate Resets(seg: Segment, reply: Reply)
      requires reply.Send?
    {
      reply.rst && reply.seqno == seg.ackno && Num(reply.ackno) == Mod32(Num(seg.seqno) + 1)
    }

    /** The answer to our SYN. */
    predicate Opens(acks: bool, seg: Segment)
      reads this
    {
      state == SynSent && acks && seg.IsSynAck()
    }

    /** An attempt to open that the segment does not answer. */
    predicate Refused(seg: Segment)
      reads this
    {
      state == SynSent && !OutOfSequence(seg) && !Opens(AcksOutstanding(seg), seg)
    }

    /** A segment without a FIN on an open connection, at the expected place if it has any. */
    predicate InStep(seg: Segment)
      reads this
    {
      && state == Established && !seg.rst && !seg.fin
      && (seg.seqno == rcvNxt || (seg.data == [] && !seg.syn))
    }

    /** The label found: a segment for this connection. newRto stands for the result
        of the round-trip estimation. */
    method Input(seg: Segment, app: App, newRto: byte) returns (reply: Reply)
      requires Valid() && state != Closed && |seg.data| <= 65495
      modifies this
      ensures Valid()
      ensures sndNxt ==
                if !seg.rst && !old(OutOfSequence(seg)) && old(AcksOutstanding(seg)) then seg.ackno else old(sndNxt)
      ensures delivered == old(delivered) + if old(Takeable(seg)) then seg.data else []
      ensures Tells(old(calls), old(state), calls, state, if old(Takeable(seg)) then seg.data else [])
      ensures old(state) == SynSent && !seg.rst && seg.IsSynAck()
              && Num(seg.ackno) == Mod32(Num(old(sndNxt)) + 1) ==>
                && calls == old(calls) + [Call({CONNECTED, NEWDATA}, [])]
                && Num(rcvNxt) == Mod32(Num(seg.seqno) + 1) && (app.verdict == Carry ==> state == Established)
      ensures old(state) == SynRcvd && seg.IsSyn() ==>
                state == SynRcvd && calls == old(calls) && KindOf(reply) == SynAck
      ensures old(state) == SynRcvd && !seg.rst && !seg.syn && seg.ack
              && (seg.seqno == old(rcvNxt) || (seg.data == [] && !seg.fin))
              && Num(seg.ackno) == Mod32(Num(old(sndNxt)) + 1) ==>
                && calls == old(calls) + [Call(if |seg.data| > 0 then {CONNECTED, NEWDATA} else {CONNECTED}, seg.data)]
                && (app.verdict == Carry ==> state == Established)
      ensures old(InStep(seg)) ==>
                var acks := seg.ack && old(len) > 0 && Num(seg.ackno) == Mod32(Num(old(sndNxt)) + old(len));
                var taken := |seg.data| > 0 && !old(stopped);
                && delivered == old(delivered) + (if taken then seg.data else [])
                && calls == old(calls) + (if acks || taken then [Call(Told(acks, taken), seg.data)] else [])
                && ((acks || taken) && app.verdict.Carry? && app.slen > 0 && (acks || old(len) == 0) ==>
                      && len == Min(app.slen, old(Window(seg)))
                      && (len > 0 ==> reply == Send(false, false, false, true, true, sndNxt, rcvNxt, len)))
      ensures seg.rst ==> calls == old(calls) + [Call({ABORT}, [])] && reply == Drop && timer == old(timer)
      ensures !seg.rst && !old(OutOfSequence(seg)) ==>
                && Hears(old(HeardBy(seg, app)), old(Base(AcksOutstanding(seg), seg)), old(calls), reply)
                && Settled(app, old(stopped), old(nrtx), |calls| > |old(calls)|)
                && mss == old(MssAfter(AcksOutstanding(seg), seg))
                && timer == (if state == TimeWait && old(state) != TimeWait then 0
                             else if old(AcksOutstanding(seg)) then (if old(nrtx) == 0 then newRto else old(rto))
                             else old(timer))
      ensures forall peer: Peer | old(InOrder(peer)) && peer.Honest(seg) :: InOrder(peer)
      ensures seg.rst || old(Refused(seg)) ==> state == Closed
      ensures !seg.rst && old(OutOfSequence(seg)) ==>
                unchanged(this) && reply == Segm(false, false, false, false, true, 0)
      ensures reply.Send? ==>
                if old(Refused(seg)) then Resets(seg, reply) else reply.ackno == rcvNxt && reply.seqno == sndNxt
    {
      hide InOrderAt, Mod32, Num, Settled, Resets, Told, Tells, Heard;
      reply := Process(seg, app, newRto);
      Opening(old(stopped), old(if AcksOutstanding(seg) then 0 else len), old(AcksOutstanding(seg)), seg, app,
              old(MssAfter(AcksOutstanding(seg), seg)));
      if old(InStep(seg)) { OneCall(old(len), old(AcksOutstanding(seg)), seg, app, old(stopped), old(Window(seg))); }
      forall peer: Peer | old(InOrder(peer)) && peer.Honest(seg) ensures InOrder(peer) {
        TakesInOrder(peer, old(Takeable(seg)), seg, old(state), Num(old(rcvNxt)), old(delivered),
                     state, Num(rcvNxt), delivered);
      }
    }

    /** What is made of a segment that is neither a reset nor out of sequence. */
    function HeardBy(seg: Segment, app: App): Outcome
      reads this
    {
      var acks := AcksOutstanding(seg);
      Heard(state, stopped, if acks then 0 else len, acks, seg, app, MssAfter(acks, seg))
    }

    /** How much may be sent at once after a segment. */
    function MssAfter(acks: bool, seg: Segment): uint16
      reads this
    {
      if state == Established then (if seg.fin && !stopped then mss else Window(seg))
      else if Opens(acks, seg) && seg.mss.Some? then Min(seg.mss.value, cfg.tcpMss) else mss
    }

    /** Where the count of the peer's numbers starts: an accepted SYN sets it. */
    function Base(acks: bool, seg: Segment): int
      reads this
    {
      if Opens(acks, seg) then Num(seg.seqno) + 1 else Num(rcvNxt)
    }

    method Process(seg: Segment, app: App, newRto: byte) returns (reply: Reply)
      requires Valid() && state != Closed && |seg.data| <= 65495
      modifies this
      ensures Valid()
      ensures seg.rst ==> calls == old(calls) + [Call({ABORT}, [])] && reply == Drop && timer == old(timer)
      ensures !seg.rst && !old(OutOfSequence(seg)) ==>
                && Hears(old(HeardBy(seg, app)), old(Base(AcksOutstanding(seg), seg)), old(calls), reply)
                && Settled(app, old(stopped), old(nrtx), |calls| > |old(calls)|)
                && mss == old(MssAfter(AcksOutstanding(seg), seg))
                && timer == (if state == TimeWait && old(state) != TimeWait then 0
                             else if old(AcksOutstanding(seg)) then (if old(nrtx) == 0 then newRto else old(rto))
                             else old(timer))
      ensures sndNxt ==
                if !seg.rst && !old(OutOfSequence(seg)) && old(AcksOutstanding(seg)) then seg.ackno else old(sndNxt)
      ensures Tells(old(calls), old(state), calls, state, if old(Takeable(seg)) then seg.data else [])
      ensures Takes(old(Takeable(seg)), seg, old(state), Num(old(rcvNxt)), old(delivered),
                    state, Num(rcvNxt), delivered)
      ensures seg.rst || old(Refused(seg)) ==> state == Closed
      ensures !seg.rst && old(OutOfSequence(seg)) ==>
                unchanged(this) && reply == Segm(false, false, false, false, true, 0)
      ensures reply.Send? ==>
                if old(Refused(seg)) then Resets(seg, reply) else reply.ackno == rcvNxt && reply.seqno == sndNxt
    {
      hide Num, Mod32, KindOf, Heard, Settled, Resets, Hears;
      reply := Drop;
      if seg.rst {
        state, stopped := Closed, false;
        OneMore(calls, Call({ABORT}, []));
        var _ := AppCall(app, {ABORT}, []);
        return;
      }
      if OutOfSequence(seg) {
        reply := Segm(false, false, false, false, true, 0);
        return;
      }
      var flags := Acknowledge(seg, newRto);
      reply := InSequence(seg, app, flags);
    }

    /** The numbers are as Valid demands, unless what was outstanding has just been acknowledged. */
    ghost predicate ValidBut(acks: bool)
      reads this
    {
      && len == (if acks || state in {TimeWait, FinWait2} then 0 else if state == Established then len else 1)
      && (acks ==> state !in {TimeWait, FinWait2})
      && (state != Established ==> !stopped)
      && nrtx <= Limit(cfg, state)
    }

    /** The switch over the state, for a segment that is in sequence. */
    method InSequence(seg: Segment, app: App, flags: set<Flag>) returns (reply: Reply)
      requires state != Closed && ValidBut(ACKDATA in flags) && !seg.rst && !OutOfSequence(seg)
      requires flags == Told(ACKDATA in flags, false) && (ACKDATA in flags ==> seg.ack) && |seg.data| <= 65495
      modifies this`state, this`stopped, this`rcvNxt, this`len, this`nrtx, this`delivered, this`calls,
        this`timer, this`mss, this`initialmss
      ensures Valid()
      ensures Hears(old(Heard(state, stopped, len, ACKDATA in flags, seg, app, MssAfter(ACKDATA in flags, seg))),
                    old(Base(ACKDATA in flags, seg)), old(calls), reply)
      ensures Settled(app, old(stopped), old(nrtx), |calls| > |old(calls)|)
      ensures mss == old(MssAfter(ACKDATA in flags, seg))
      ensures initialmss == if old(Opens(ACKDATA in flags, seg)) && seg.mss.Some? then mss else old(initialmss)
      ensures timer == if state == TimeWait && old(state) != TimeWait then 0 else old(timer)
      ensures Takes(TakenIf(old(state), old(stopped), old(len), ACKDATA in flags, seg), seg,
                    old(state), Num(old(rcvNxt)), old(delivered), state, Num(rcvNxt), delivered)
      ensures Tells(old(calls), old(state), calls, state,
                    if TakenIf(old(state), old(stopped), old(len), ACKDATA in flags, seg) then seg.data else [])
      ensures old(state) == SynSent && !old(Opens(ACKDATA in flags, seg)) ==> state == Closed
      ensures reply.Send? ==> if old(state) == SynSent && !old(Opens(ACKDATA in flags, seg)) then Resets(seg, reply)
                              else reply.ackno == rcvNxt && reply.seqno == sndNxt
    {
      hide Num, Mod32, KindOf, Heard, Settled, Resets, Tells;
      HeardTells(state, stopped, len, ACKDATA in flags, seg, app, MssAfter(ACKDATA in flags, seg), calls);
      match state
      case SynRcvd =>
        reply := InSynRcvd(seg, app, flags);
      case SynSent =>
        reply := InSynSent(seg, app, flags);
      case Established =>
        reply := InEstablished(seg, app, flags);
      case FinWait1 =>
        reply := InFinWait1(seg, app, flags);
      case FinWait2 =>
        reply := InFinWait2(seg, app);
      case LastAck | TimeWait | Closing =>
        reply := AtTheEnd(seg, app, flags);
    }

    /** LAST_ACK, TIME_WAIT and CLOSING. */
    method AtTheEnd(seg: Segment, app: App, flags: set<Flag>) returns (reply: Reply)
      requires state in {LastAck, TimeWait, Closing} && ValidBut(ACKDATA in flags)
      modifies this`state, this`stopped, this`timer, this`delivered, this`calls
      ensures Valid()
      ensures Hears(Heard(old(state), false, old(len), ACKDATA in flags, seg, app, mss),
                    Num(old(rcvNxt)), old(calls), reply)
      ensures Settled(app, old(stopped), old(nrtx), |calls| > |old(calls)|)
      ensures timer == if state == TimeWait && old(state) != TimeWait then 0 else old(timer)
      ensures Takes(false, seg, old(state), Num(old(rcvNxt)), old(delivered), state, Num(rcvNxt), delivered)
      ensures reply.Send? ==> reply.ackno == rcvNxt && reply.seqno == sndNxt
    {
      hide Num;
      reply := Drop;
      match state
      case LastAck =>
        if ACKDATA in flags {
          state := Closed;
          var _ := AppCall(app, {CLOSE}, seg.data);
        }
      case TimeWait =>
        reply := Segm(false, false, false, false, true, 0);
      case Closing =>
        if ACKDATA in flags {
          state, timer := TimeWait, 0;
        }
    }

    /** snd_nxt moves by exactly the outstanding length, on its exact acknowledgement. */
    method Acknowledge(seg: Segment, newRto: byte) returns (flags: set<Flag>)
      modifies this`sndNxt, this`len, this`timer, this`rto
      ensures flags == if old(AcksOutstanding(seg)) then {ACKDATA} else {}
      ensures sndNxt == if old(AcksOutstanding(seg)) then seg.ackno else old(sndNxt)
      ensures len == if old(AcksOutstanding(seg)) then 0 else old(len)
      ensures old(AcksOutstanding(seg)) ==> timer == rto == if nrtx == 0 then newRto else old(rto)
      ensures !old(AcksOutstanding(seg)) ==> timer == old(timer) && rto == old(rto)
    {
      flags := {};
      if seg.ack && len > 0 {
        var acc := Add32(sndNxt, len);
        if seg.ackno == acc {
          sndNxt := acc;
          if nrtx == 0 { rto := newRto; }
          flags := {ACKDATA};
          timer := rto;
          len := 0;
        } else if Num(seg.ackno) == Num(acc) {
          NumInjective(seg.ackno, acc);
        }
      }
    }

    /** A segment has come to an outcome; base is what the count of the peer's numbers
        starts from. */
    ghost predicate Hears(o: Outcome, base: int, before: seq<Call>, reply: Reply)
      reads this
    {
      Did(o, state, len, before, calls, reply) && Num(rcvNxt) == Mod32(base + o.counted)
    }

    /** The stop bit and the retransmission count afterwards: the application decides on
        the one, and what it is answered with starts the other again. */
    ghost predicate Settled(app: App, stop: bool, rtx: byte, called: bool)
      reads this
    {
      && stopped == (state == Established && if called then app.Stopped(stop) else stop)
      && nrtx == if called && state in {Established, FinWait1, LastAck} then 0 else rtx
    }

    /** SYN_RCVD: the acknowledgement of our SYN opens the connection. */
    method InSynRcvd(seg: Segment, app: App, flags: set<Flag>) returns (reply: Reply)
      requires state == SynRcvd && !stopped && nrtx <= Limit(cfg, SynRcvd) && |seg.data| <= 65495
      requires len == if ACKDATA in flags then 0 else 1
      requires (|seg.data| > 0 || seg.fin) && ACKDATA in flags ==> seg.seqno == rcvNxt
      modifies this`state, this`stopped, this`rcvNxt, this`len, this`nrtx, this`delivered, this`calls
      ensures Valid()
      ensures Takes(ACKDATA in flags, seg, old(state), Num(old(rcvNxt)), old(delivered), state, Num(rcvNxt), delivered)
      ensures Hears(Heard(SynRcvd, false, old(len), ACKDATA in flags, seg, app, mss), Num(old(rcvNxt)),
                    old(calls), reply)
      ensures Settled(app, old(stopped), old(nrtx), |calls| > |old(calls)|)
      ensures state != TimeWait
      ensures reply.Send? ==> reply.ackno == rcvNxt && reply.seqno == sndNxt
    {
      hide Num, Answered;
      if ACKDATA in flags {
        state := Established;
        var f := {CONNECTED};
        len := 0;
        if |seg.data| > 0 {
          f := f + {NEWDATA};
          AddRcvNxt(|seg.data|);
        }
        assert f == {CONNECTED} + Told(false, |seg.data| > 0);
        reply := CallAndSend(app, f, seg.data);
      } else if seg.IsSyn() {
        reply := Segm(false, true, false, false, true, 0);
      } else {
        reply := Drop;
      }
    }

    /** SYN_SENT: only the acknowledgement of our SYN together with the peer's SYN is
        good; anything else breaks the attempt off. */
    method InSynSent(seg: Segment, app: App, flags: set<Flag>) returns (reply: Reply)
      requires state == SynSent && !stopped && nrtx <= Limit(cfg, SynSent)
      modifies this`state, this`stopped, this`rcvNxt, this`len, this`nrtx, this`delivered, this`calls,
        this`mss, this`initialmss
      ensures Valid()
      ensures Takes(false, seg, old(state), Num(old(rcvNxt)), old(delivered), state, Num(rcvNxt), delivered)
      ensures !seg.rst ==> Hears(Heard(SynSent, false, old(len), ACKDATA in flags, seg, app, mss),
                                 old(Base(ACKDATA in flags, seg)), old(calls), reply)
      ensures var opens := ACKDATA in flags && seg.IsSynAck();
              && (!opens ==> state == Closed)
              && (reply.Send? ==> if opens then reply.ackno == rcvNxt && reply.seqno == sndNxt else Resets(seg, reply))
              && initialmss == (if opens && seg.mss.Some? then mss else old(initialmss))
      ensures mss == old(MssAfter(ACKDATA in flags, seg))
      ensures Settled(app, old(stopped), old(nrtx), |calls| > |old(calls)|)
      ensures state != TimeWait
    {
      hide Num, Resets, Mod32, Answered;
      NothingSent(Num(rcvNxt));
      if ACKDATA in flags && seg.IsSynAck() {
        if seg.mss.Some? {
          mss := if seg.mss.value > cfg.tcpMss then cfg.tcpMss else seg.mss.value;
          initialmss := mss;
        }
        state := Established;
        rcvNxt := seg.seqno;
        AddRcvNxt(1);
        len := 0;
        reply := CallAndSend(app, {CONNECTED, NEWDATA}, []);
      } else {
        reply := Refuse(seg, app);
      }
    }

    /** The attempt has failed: the application is told and the peer is reset. */
    method Refuse(seg: Segment, app: App) returns (reply: Reply)
      requires state == SynSent
      modifies this`state, this`stopped, this`delivered, this`calls
      ensures state == Closed && stopped == old(stopped) && delivered == old(delivered)
      ensures calls == old(calls) + [Call({ABORT}, seg.data)]
      ensures !seg.rst ==> KindOf(reply) == RstAck
      ensures reply.Send? <==> !seg.rst
      ensures reply.Send? ==> Resets(seg, reply)
    {
      var _ := AppCall(app, {ABORT}, seg.data);
      state := Closed;
      var next := Add32(seg.seqno, 1);
      reply := if seg.rst then Drop else Send(false, false, true, false, true, seg.ackno, next, 0);
    }

    /** What may be sent at once: the window of the peer, up to the initial maximum
        segment size, and that size again if the window is closed. */
    function Window(seg: Segment): uint16
      reads this
    {
      if seg.wnd == 0 then initialmss else Min(seg.wnd, initialmss)
    }

    method InEstablished(seg: Segment, app: App, flags: set<Flag>) returns (reply: Reply)
      requires state == Established && nrtx <= cfg.maxRtx && |seg.data| <= 65495
      requires |seg.data| > 0 || seg.fin ==> seg.seqno == rcvNxt
      requires flags == Told(ACKDATA in flags, false) && (ACKDATA in flags ==> len == 0)
      modifies this`state, this`stopped, this`rcvNxt, this`len, this`nrtx, this`delivered, this`calls, this`mss
      ensures Valid()
      ensures Takes(!old(stopped) && (seg.fin ==> old(len) == 0), seg,
                    old(state), Num(old(rcvNxt)), old(delivered), state, Num(rcvNxt), delivered)
      ensures Hears(Heard(Established, old(stopped), old(len), ACKDATA in flags, seg, app,
                          old(MssAfter(ACKDATA in flags, seg))), Num(old(rcvNxt)), old(calls), reply)
      ensures Settled(app, old(stopped), old(nrtx), |calls| > |old(calls)|)
      ensures state != TimeWait
      ensures mss == old(MssAfter(ACKDATA in flags, seg))
      ensures reply.Send? ==> reply.ackno == rcvNxt && reply.seqno == sndNxt
    {
      hide Num, Mod32, KindOf, Answered, Told;
      ToldIs(ACKDATA in flags, false);
      ToldIs(ACKDATA in flags, true);
      NothingSent(Num(rcvNxt));
      reply := Drop;
      if seg.fin && !stopped {
        if len == 0 {
          reply := PeerCloses(seg, app, flags);
        }
        return;
      }
      var f := flags;
      if |seg.data| > 0 && !stopped {
        f := f + {NEWDATA};
        AddRcvNxt(|seg.data|);
      }
      mss := if seg.wnd > initialmss || seg.wnd == 0 then initialmss else seg.wnd;
      if NEWDATA in f || ACKDATA in f {
        reply := CallAndSend(app, f, seg.data);
      }
    }

    /** A FIN while established: the connection goes straight to LAST_ACK. */
    method PeerCloses(seg: Segment, app: App, flags: set<Flag>) returns (reply: Reply)
      requires state == Established && seg.fin && len == 0 && |seg.data| <= 65495
      requires flags == Told(ACKDATA in flags, false)
      modifies this`state, this`stopped, this`rcvNxt, this`len, this`nrtx, this`delivered, this`calls
      ensures Valid()
      ensures delivered == old(delivered) + seg.data
      ensures Hears(Heard(Established, false, 0, ACKDATA in flags, seg, app, mss), Num(old(rcvNxt)), old(calls), reply)
      ensures Settled(app, old(stopped), old(nrtx), true)
      ensures reply == Segm(true, false, false, false, true, 0)
    {
      hide Num, Mod32;
      AddRcvNxt(1 + |seg.data|);
      assert flags + {CLOSE} + (if |seg.data| > 0 then {NEWDATA} else {})
          == Told(ACKDATA in flags, |seg.data| > 0) + {CLOSE};
      var _ := AppCall(app, flags + {CLOSE} + (if |seg.data| > 0 then {NEWDATA} else {}), seg.data);
      len := 1;
      state, stopped := LastAck, false;
      nrtx := 0;
      reply := Segm(true, false, false, false, true, 0);
    }

    method InFinWait1(seg: Segment, app: App, flags: set<Flag>) returns (reply: Reply)
      requires state == FinWait1 && !stopped && nrtx <= cfg.maxRtx && |seg.data| <= 65495
      requires len == if ACKDATA in flags then 0 else 1
      modifies this`state, this`stopped, this`rcvNxt, this`len, this`nrtx, this`delivered, this`calls, this`timer
      ensures Valid() && delivered == old(delivered)
      ensures state in {FinWait1, FinWait2, Closing, TimeWait}
      ensures Hears(Heard(FinWait1, false, old(len), ACKDATA in flags, seg, app, mss),
                    Num(old(rcvNxt)), old(calls), reply)
      ensures Settled(app, old(stopped), old(nrtx), |calls| > |old(calls)|)
      ensures timer == if state == TimeWait then 0 else old(timer)
      ensures reply.Send? ==> reply.ackno == rcvNxt && reply.seqno == sndNxt
    {
      AddData(seg);
      if seg.fin {
        if ACKDATA in flags {
          state, timer, len := TimeWait, 0, 0;
        } else {
          state := Closing;
        }
        AddRcvNxt(1);
        var _ := AppCall(app, {CLOSE}, seg.data);
        reply := Segm(false, false, false, false, true, 0);
      } else if ACKDATA in flags {
        state, len := FinWait2, 0;
        reply := Drop;
      } else if |seg.data| > 0 {
        reply := Segm(false, false, false, false, true, 0);
      } else {
        reply := Drop;
      }
    }

    method InFinWait2(seg: Segment, app: App) returns (reply: Reply)
      requires Valid() && state == FinWait2 && |seg.data| <= 65495
      modifies this`state, this`stopped, this`rcvNxt, this`len, this`nrtx, this`delivered, this`calls, this`timer
      ensures Valid() && delivered == old(delivered)
      ensures state in {FinWait2, TimeWait}
      ensures Hears(Heard(FinWait2, false, 0, false, seg, app, mss), Num(old(rcvNxt)), old(calls), reply)
      ensures Settled(app, old(stopped), old(nrtx), |calls| > |old(calls)|)
      ensures timer == if state == TimeWait then 0 else old(timer)
      ensures reply.Send? ==> reply.ackno == rcvNxt && reply.seqno == sndNxt
    {
      AddData(seg);
      if seg.fin {
        state, timer := TimeWait, 0;
        AddRcvNxt(1);
        var _ := AppCall(app, {CLOSE}, seg.data);
        reply := Segm(false, false, false, false, true, 0);
      } else if |seg.data| > 0 {
        reply := Segm(false, false, false, false, true, 0);
      } else {
        reply := Drop;
      }
    }
  }

  // ---------------------------------------------------------------------------
  // In-order delivery
  // ---------------------------------------------------------------------------

  /** A sequence number designates one place in a stream shorter than 2^32. */
  lemma OnePlace(peer: Peer, a: nat, b: nat)
    requires |peer.stream| < 0x1_0000_0000 && a <= |peer.stream| && b <= |peer.stream|
    requires peer.SeqAt(a) == peer.SeqAt(b)
    ensures a == b
  {
  }

  lemma SeqAtAdd(peer: Peer, a: nat, n: nat)
    ensures Mod32(peer.SeqAt(a) + n) == peer.SeqAt(a + n)
  {
    ModAdd(peer.isn + 1 + a, n);
  }

  /** Data, or a FIN, that carries the expected sequence number continues the stream
      exactly where it stopped. */
  lemma Advance(peer: Peer, delivered: seq<byte>, seg: Segment)
    requires |peer.stream| < 0x1_0000_0000 && delivered <= peer.stream && peer.Honest(seg)
    requires Num(seg.seqno) == peer.SeqAt(|delivered|) && (|seg.data| > 0 || seg.fin)
    ensures delivered + seg.data <= peer.stream
    ensures seg.fin ==> delivered + seg.data == peer.stream
  {
    var offset: nat :| peer.Carries(seg, offset);
    OnePlace(peer, offset, |delivered|);
    assert peer.stream[..offset] + peer.stream[offset..offset + |seg.data|] == peer.stream[..offset + |seg.data|];
  }

  lemma TakesInOrder(peer: Peer, taken: bool, seg: Segment,
                     s0: TcpState, r0: uint32, d0: seq<byte>, s1: TcpState, r1: uint32, d1: seq<byte>)
    requires InOrderAt(peer, s0, r0, d0) && peer.Honest(seg) && Takes(taken, seg, s0, r0, d0, s1, r1, d1)
    ensures InOrderAt(peer, s1, r1, d1)
  {
    if taken {
      SeqAtAdd(peer, |d0|, |seg.data|);
      if |seg.data| > 0 || seg.fin { Advance(peer, d0, seg); } else { assert d0 + seg.data == d0; }
    }
  }

  /** Nothing but leaving is possible without a segment. */
  lemma LeavingInOrder(peer: Peer, s0: TcpState, r: uint32, d: seq<byte>, s1: TcpState)
    requires InOrderAt(peer, s0, r, d) && s1 in {s0, Closed, FinWait1}
    ensures InOrderAt(peer, s1, r, d)
  {
  }

  // ---------------------------------------------------------------------------
  // Runs
  // ---------------------------------------------------------------------------

  /** What can happen to a connection: a segment arrives, the timer fires, the
      application polls. A segment may be lost, repeated or late. */
  datatype Event =
    | Arrives(seg: Segment, app: App, newRto: byte)
    | Fires(app: App)
    | Polls(app: App)

  ghost predicate FromPeer(peer: Peer, e: Event) {
    e.Arrives? ==> peer.Honest(e.seg) && |e.seg.data| <= 65495
  }

  /** What is sent after an event, and how many bytes the application has been handed. */
  datatype Moment = Moment(reply: Reply, established: bool, handed: nat)

  /** While established, whatever is sent acknowledges exactly what has been handed over. */
  ghost predicate Acknowledges(m: Moment, peer: Peer) {
    m.established && m.reply.Send? ==> Num(m.reply.ackno) == Mod32(peer.isn + 1 + m.handed)
  }

  /** Over any run, from the first SYN on: what the application was handed is at every
      moment a prefix of what the peer sends, and while the connection is established
      rcv_nxt stands right behind it. */
  method Run(conn: TcpConn, events: seq<Event>, ghost peer: Peer) returns (ghost log: seq<Moment>)
    requires conn.Valid() && conn.InOrder(peer) && conn.Consistent()
    requires forall e | e in events :: FromPeer(peer, e)
    modifies conn
    ensures conn.Valid() && conn.InOrder(peer) && conn.Consistent()
    ensures old(conn.delivered) <= conn.delivered <= peer.stream
    ensures conn.state == Established ==> Num(conn.rcvNxt) == Mod32(peer.isn + 1 + |conn.delivered|)
    ensures |log| == |events| && forall k | 0 <= k < |log| :: Acknowledges(log[k], peer)
    ensures forall k | 0 <= k < |log| :: |old(conn.delivered)| <= log[k].handed <= |conn.delivered|
    ensures forall j, k | 0 <= j < k < |log| :: log[j].handed <= log[k].handed
  {
    log := [];
    var i := 0;
    while i < |events|
      invariant 0 <= i <= |events| && conn.Valid() && conn.InOrder(peer) && conn.Consistent()
      invariant old(conn.delivered) <= conn.delivered
      invariant |log| == i && forall k | 0 <= k < i :: Acknowledges(log[k], peer)
      invariant forall k | 0 <= k < i :: |old(conn.delivered)| <= log[k].handed <= |conn.delivered|
      invariant forall j, k | 0 <= j < k < i :: log[j].handed <= log[k].handed
    {
      assert FromPeer(peer, events[i]);
      var reply := OneEvent(conn, events[i], peer);
      log := log + [Moment(reply, conn.state == Established, |conn.delivered|)];
      i := i + 1;
    }
  }

  method OneEvent(conn: TcpConn, event: Event, ghost peer: Peer) returns (reply: Reply)
    requires conn.Valid() && conn.InOrder(peer) && conn.Consistent() && FromPeer(peer, event)
    modifies conn
    ensures conn.Valid() && conn.InOrder(peer) && conn.Consistent()
    ensures old(conn.delivered) <= conn.delivered
    ensures Acknowledges(Moment(reply, conn.state == Established, |conn.delivered|), peer)
  {
    hide Heard, Answered, KindOf, Told, Story, Tells, Did, Timely, Again, Backoff, Mod32;
    hide TcpConn.Hears, TcpConn.HeardBy, TcpConn.InStep, TcpConn.Settled, TcpConn.Valid, TcpConn.Life, TcpConn.Deadline;
    reply := Drop;
    ghost var s, r, d, c := conn.state, Num(conn.rcvNxt), conn.delivered, conn.calls;
    match event
    case Arrives(seg, app, newRto) =>
      if conn.state != Closed {
        ghost var data := if conn.Takeable(seg) then seg.data else [];
        reply := conn.Input(seg, app, newRto);
        StoryGoesOn(c, s, conn.calls, conn.state, data);
      }
    case Fires(app) =>
      reply := conn.Tick(app);
      LeavingInOrder(peer, s, r, d, conn.state);
      StoryGoesOn(c, s, conn.calls, conn.state, []);
    case Polls(app) =>
      reply := conn.PollRequest(app);
      LeavingInOrder(peer, s, r, d, conn.state);
      StoryGoesOn(c, s, conn.calls, conn.state, []);
  }

  // ---------------------------------------------------------------------------
  // Nothing is lost that comes in order
  // ---------------------------------------------------------------------------

  function Joined(segs: seq<Segment>): seq<byte> {
    if segs == [] then [] else Joined(segs[..|segs| - 1]) + segs[|segs| - 1].data
  }

  /** Data for an application that takes it and carries on. */
  predicate Plain(seg: Segment) { !seg.rst && !seg.fin && 0 < |seg.data| <= 65495 }

  predicate Takes1(app: App) { app.verdict == Carry && !app.stop }

  /** Segments of data one behind the other, from the expected number on, reach the
      application completely, whatever it sends meanwhile. */
  method Feed(conn: TcpConn, segs: seq<Segment>, apps: seq<App>, newRto: byte)
    requires conn.Valid() && conn.state == Established && !conn.stopped && |segs| == |apps|
    requires forall k | 0 <= k < |segs| :: Plain(segs[k]) && Takes1(apps[k])
    requires forall k | 0 <= k < |segs| ::
               Num(segs[k].seqno) == Mod32(Num(conn.rcvNxt) + |Joined(segs[..k])|)
    modifies conn
    ensures conn.Valid() && conn.state == Established
    ensures conn.delivered == old(conn.delivered) + Joined(segs)
    ensures |conn.calls| == |old(conn.calls)| + |segs|
  {
    hide Num, Mod32, Joined, TcpConn.Valid;
    var i := 0;
    assert Joined(segs[..0]) == [] by { JoinedNone(segs); }
    NothingSent(Num(conn.rcvNxt));
    while i < |segs|
      invariant 0 <= i <= |segs| && conn.Valid() && conn.state == Established && !conn.stopped
      invariant Num(conn.rcvNxt) == Mod32(Num(old(conn.rcvNxt)) + |Joined(segs[..i])|)
      invariant conn.delivered == old(conn.delivered) + Joined(segs[..i])
      invariant |conn.calls| == |old(conn.calls)| + i
    {
      FeedOne(conn, segs[i], apps[i], newRto);
      JoinedStep(segs, i);
      ModAdd(Num(old(conn.rcvNxt)) + |Joined(segs[..i])|, |segs[i].data|);
      i := i + 1;
    }
    assert segs[..i] == segs;
  }

  lemma JoinedStep(segs: seq<Segment>, i: nat)
    requires i < |segs|
    ensures Joined(segs[..i + 1]) == Joined(segs[..i]) + segs[i].data
  {
    assert segs[..i + 1][..i] == segs[..i];
  }

  lemma JoinedNone(segs: seq<Segment>)
    ensures Joined(segs[..0]) == []
  {
  }

  method FeedOne(conn: TcpConn, seg: Segment, app: App, newRto: byte)
    requires conn.Valid() && conn.state == Established && !conn.stopped
    requires Plain(seg) && Takes1(app) && Num(seg.seqno) == Num(conn.rcvNxt)
    modifies conn
    ensures conn.Valid() && conn.state == Established && !conn.stopped
    ensures Num(conn.rcvNxt) == Mod32(Num(old(conn.rcvNxt)) + |seg.data|)
    ensures conn.delivered == old(conn.delivered) + seg.data && |conn.calls| == |old(conn.calls)| + 1
  {
    hide Num, Mod32, Told;
    NumInjective(seg.seqno, conn.rcvNxt);
    var _ := conn.Input(seg, app, newRto);
  }
}
