/** The TFTP receiver of src/netboot/tftp.c, over a network that loses, repeats and
    reorders datagrams. Acknowledgement numbers have 16 bits on the wire; the client
    counts blocks in an int. */
module Tftp {
  import opened Machine
  import opened CStrings

  const DATA: uint16 := 3
  const ACK: uint16 := 4
  const ERROR: uint16 := 5
  const MAX_BLOCK_SIZE := 512

  datatype Status = Pending | Success | Failure

  /** What one net_poll hands to the callback: at most one datagram. */
  datatype Poll = Silent | Datagram(bytes: seq<byte>)

  /** Block numbers start from one. */
  type BlockNumber = n: nat | n >= 1 witness 1

  datatype Transfer =
    Transfer(status: Status, blocknum: BlockNumber, total: uint32, memory: seq<byte>, sent: seq<seq<byte>>)

  function Be16(b: seq<byte>, i: nat): uint16
    requires i + 2 <= |b|
  {
    b[i] as int * 0x100 + b[i + 1]
  }

  /** An acknowledgement, with the number cut to 16 bits. */
  function AckPacket(n: nat): seq<byte> { [0, ACK, n / 0x100 % 0x100, n % 0x100] }

  // ---------------------------------------------------------------------------
  // One step
  // ---------------------------------------------------------------------------

  /** A datagram is the block that is waited for, and not too big. */
  predicate Wanted(blocknum: nat, p: seq<byte>) {
    |p| >= 4 && Be16(p, 0) == DATA && Be16(p, 2) == blocknum && |p| - 4 <= MAX_BLOCK_SIZE
  }

  predicate IsError(p: seq<byte>) { |p| >= 2 && Be16(p, 0) == ERROR }

  predicate Roomy(s: Transfer, max: uint32) { s.total <= max <= |s.memory| }

  /** The block that was waited for, from the test for space on. */
  function Stored(s: Transfer, max: uint32, data: seq<byte>): (r: Transfer)
    requires Roomy(s, max)
    ensures Roomy(r, max) && |r.memory| == |s.memory|
  {
    if |data| > max - s.total then s.(status := Failure)
    else
      var total := s.total + |data|;
      var memory := s.memory[..s.total] + data + s.memory[total..];
      if |data| < MAX_BLOCK_SIZE then s.(status := Success, memory := memory, total := total)
      else
        s.(memory := memory, total := total, blocknum := s.blocknum + 1, sent := s.sent + [AckPacket(s.blocknum)])
  }

  /** tftp_callback. */
  function Received(s: Transfer, max: uint32, p: seq<byte>): (r: Transfer)
    requires Roomy(s, max)
    ensures Roomy(r, max) && |r.memory| == |s.memory|
  {
    if IsError(p) then s.(status := Failure)
    else if !Wanted(s.blocknum, p) then s
    else Stored(s, max, p[4..])
  }

  /** The three kinds of datagram, byte by byte: an error, the block that is waited for, and
      anything else. */
  lemma ReceivedIs(s: Transfer, max: uint32, p: seq<byte>)
    requires Roomy(s, max)
    ensures var r := Received(s, max, p);
            if |p| >= 2 && p[0] == 0 && p[1] == 5 then r == s.(status := Failure)
            else if 4 <= |p| <= 516 && p[0] == 0 && p[1] == 3 && p[2] as int * 0x100 + p[3] == s.blocknum then
              if |p| - 4 > max - s.total then r == s.(status := Failure)
              else
                && r.total == s.total + |p| - 4 && r.memory[..s.total] == s.memory[..s.total]
                && r.memory[s.total..r.total] == p[4..] && r.memory[r.total..] == s.memory[r.total..]
                && if |p| < 516 then r.status == Success && r.sent == s.sent && r.blocknum == s.blocknum
                   else
                     && r.status == s.status && r.blocknum == s.blocknum + 1
                     && r.sent == s.sent + [[0, 4, p[2], p[3]]]
            else r == s
  {
    if Wanted(s.blocknum, p) && |p| - 4 <= max - s.total {
      SplicedIs(s.memory, s.total, p[4..]);
      TwoDigits(p[2], p[3]);
    }
  }

  lemma SplicedIs(m: seq<byte>, at: nat, data: seq<byte>)
    requires at + |data| <= |m|
    ensures var r := m[..at] + data + m[at + |data|..];
            && |r| == |m| && r[..at] == m[..at] && r[at..at + |data|] == data
            && r[at + |data|..] == m[at + |data|..]
  {
  }

  lemma TwoDigits(hi: byte, lo: byte)
    ensures var n := hi as int * 0x100 + lo; n / 0x100 % 0x100 == hi && n % 0x100 == lo
  {
  }

  /** The last packet once more, when no response came. */
  function Resent(s: Transfer, request: seq<byte>): Transfer {
    s.(sent := s.sent + [if s.blocknum == 1 then request else AckPacket(s.blocknum - 1)])
  }

  /** One turn of the polling loop. */
  function Turn(s: Transfer, max: uint32, request: seq<byte>, poll: Poll): (r: Transfer)
    requires Roomy(s, max)
    ensures Roomy(r, max) && |r.memory| == |s.memory|
  {
    if s.status != Pending then s
    else if poll.Silent? then Resent(s, request)
    else
      var r := Received(s, max, poll.bytes);
      if r.blocknum != s.blocknum then r else Resent(r, request)
  }

  function Start(memory: seq<byte>, request: seq<byte>): Transfer {
    Transfer(Pending, 1, 0, memory, [request])
  }

  function Run(memory: seq<byte>, max: uint32, request: seq<byte>, polls: seq<Poll>): (r: Transfer)
    requires max <= |memory|
    ensures Roomy(r, max) && |r.memory| == |memory|
  {
    if polls == [] then Start(memory, request)
    else Turn(Run(memory, max, request, polls[..|polls| - 1]), max, request, polls[|polls| - 1])
  }

  class TftpReader {
    var status: Status
    var dest: array<byte>
    /** tftp_dest, as an offset. */
    var destAt: nat
    var gotResponse: bool
    var blocknum: BlockNumber
    var totalSize: uint32
    var maxSize: uint32
    var sent: seq<seq<byte>>

    function State(): Transfer
      reads this, dest
    {
      Transfer(status, blocknum, totalSize, dest[..], sent)
    }

    ghost predicate Valid()
      reads this
    {
      destAt == totalSize <= maxSize <= dest.Length
    }

    constructor (dest: array<byte>, maxSize: uint32)
      requires maxSize <= dest.Length
      ensures this.dest == dest && this.maxSize == maxSize
    {
      this.dest, this.maxSize := dest, maxSize;
    }

    /** The memcpy to tftp_dest. */
    method CopyIn(data: seq<byte>)
      requires destAt + |data| <= dest.Length
      modifies dest
      ensures dest[..] == old(dest[..destAt]) + data + old(dest[destAt + |data|..])
    {
      forall i | 0 <= i < |data| { dest[destAt + i] := data[i]; }
    }

    /** tftp_callback. */
    method Callback(p: seq<byte>)
      requires Valid()
      modifies this, dest
      ensures Valid() && dest == old(dest) && maxSize == old(maxSize)
      ensures State() == Received(old(State()), maxSize, p)
      ensures totalSize <= maxSize <= dest.Length && dest[totalSize..] == old(dest[..])[totalSize..]
      ensures gotResponse == (old(gotResponse) || blocknum != old(blocknum))
    {
      hide Be16, Stored;
      if |p| < 2 { return; }
      var opcode := Be16(p, 0);
      if opcode == ERROR {
        status := Failure;
        return;
      }
      if opcode != DATA || |p| < 4 { return; }
      if Be16(p, 2) != blocknum { return; }
      if |p| - 4 > MAX_BLOCK_SIZE { return; }
      StoreBlock(p[4..]);
      StoredBehind(old(State()), maxSize, p[4..]);
      assert State().memory[totalSize..] == dest[totalSize..];
    }

    /** The rest of tftp_callback. */
    method StoreBlock(data: seq<byte>)
      requires Valid()
      modifies this, dest
      ensures Valid() && dest == old(dest) && maxSize == old(maxSize)
      ensures State() == Stored(old(State()), maxSize, data)
      ensures gotResponse == (old(gotResponse) || blocknum != old(blocknum))
    {
      if |data| > Mod32(maxSize - totalSize) {
        status := Failure;
        return;
      }
      CopyIn(data);
      destAt := destAt + |data|;
      totalSize := totalSize + |data|;
      if |data| < MAX_BLOCK_SIZE {
        status := Success;
        return;
      }
      sent := sent + [AckPacket(blocknum)];
      blocknum := blocknum + 1;
      gotResponse := true;
    }

    /** tftp_read, for as many polls as the network gives. */
    method Read(bootfile: CString, polls: seq<Poll>) returns (used: nat)
      requires maxSize <= dest.Length
      modifies this, dest
      ensures dest == old(dest) && maxSize == old(maxSize) && used <= |polls|
      ensures State() == Run(old(dest[..]), maxSize, ReadRequest(bootfile), polls)
      ensures totalSize <= maxSize <= dest.Length && dest[totalSize..] == old(dest[..])[totalSize..]
      ensures used < |polls| ==> status != Pending
    {
      hide Run, Received, ReadRequest;
      var request := ReadRequest(bootfile);
      RunStep(old(dest[..]), maxSize, request, polls, 0);
      sent := [request];
      status, blocknum, totalSize, destAt := Pending, 1, 0, 0;
      used := 0;
      while status == Pending && used < |polls|
        invariant used <= |polls| && Valid() && dest == old(dest) && maxSize == old(maxSize)
        invariant State() == Run(old(dest[..]), maxSize, request, polls[..used])
      {
        RunStep(old(dest[..]), maxSize, request, polls, used);
        gotResponse := false;
        if polls[used].Datagram? { Callback(polls[used].bytes); }
        if !gotResponse {
          sent := sent + [if blocknum == 1 then request else AckPacket(blocknum - 1)];
        }
        used := used + 1;
      }
      RunStops(old(dest[..]), maxSize, request, polls, used);
      NothingBehind(old(dest[..]), maxSize, request, polls);
      assert dest[..][totalSize..] == dest[totalSize..];
    }

    /** tftp_read against servers of one file. Success means the whole file and nothing
        else in memory, and that its last block was not acknowledged. */
    method Fetch(bootfile: CString, polls: seq<Poll>, ghost file: seq<byte>) returns (result: Status, size: uint32)
      requires maxSize <= dest.Length && Honest(file, dest[..], maxSize, ReadRequest(bootfile), polls)
      modifies this, dest
      ensures dest == old(dest) && size <= maxSize <= dest.Length && size <= |file|
      ensures dest[..size] == file[..size] && dest[size..] == old(dest[size..])
      ensures result == Success ==>
                size == |file| < 0xFFFF * MAX_BLOCK_SIZE && AckPacket(LastBlock(file)) !in sent
      ensures result == Failure ==> ErrorSeen(polls) || |file| > maxSize
      ensures result == Pending ==>
                && |sent| == |polls| + 1
                && forall i | 0 <= i < |polls| && polls[i].Datagram? && |polls[i].bytes| >= 2 ::
                     polls[i].bytes[0] != 0 || polls[i].bytes[1] != 5
      ensures result == Pending ==> size == (blocknum - 1) * MAX_BLOCK_SIZE
    {
      var _ := Read(bootfile, polls);
      PendingSeesNoError(old(dest[..]), maxSize, ReadRequest(bootfile), polls);
      RunAsks(old(dest[..]), maxSize, ReadRequest(bootfile), polls);
      RunGood(file, old(dest[..]), maxSize, ReadRequest(bootfile), polls);
      hide Run, ReadRequest, Honest, LastBlock, AckPacket, AcksBelow;
      if status == Success { LastBlockUnacknowledged(file, old(dest[..]), maxSize, ReadRequest(bootfile), polls); }
      result, size := status, totalSize;
    }
  }

  lemma StoredBehind(s: Transfer, max: uint32, data: seq<byte>)
    requires Roomy(s, max)
    ensures var r := Stored(s, max, data); s.total <= r.total && r.memory[r.total..] == s.memory[r.total..]
  {
    if |data| <= max - s.total {
      var total := s.total + |data|;
      assert (s.memory[..s.total] + data + s.memory[total..])[total..] == s.memory[total..];
    }
  }

  lemma TurnBehind(s: Transfer, max: uint32, request: seq<byte>, poll: Poll)
    requires Roomy(s, max)
    ensures var r := Turn(s, max, request, poll); s.total <= r.total && r.memory[r.total..] == s.memory[r.total..]
  {
    hide Stored, IsError;
    if poll.Datagram? && Wanted(s.blocknum, poll.bytes) { StoredBehind(s, max, poll.bytes[4..]); }
  }

  /** Whatever arrives, from honest servers or not: behind the bytes counted so far, and so
      behind max_size, memory stays as it was. */
  lemma {:induction false} NothingBehind(memory: seq<byte>, max: uint32, request: seq<byte>, polls: seq<Poll>)
    requires max <= |memory|
    ensures var s := Run(memory, max, request, polls); s.memory[s.total..] == memory[s.total..]
    decreases |polls|
  {
    hide Turn;
    if polls != [] {
      var before, last := polls[..|polls| - 1], polls[|polls| - 1];
      NothingBehind(memory, max, request, before);
      var s := Run(memory, max, request, before);
      var r := Run(memory, max, request, polls);
      TurnBehind(s, max, request, last);
      assert s.memory[r.total..] == s.memory[s.total..][r.total - s.total..];
      assert memory[r.total..] == memory[s.total..][r.total - s.total..];
    }
  }

  lemma RunStep(memory: seq<byte>, max: uint32, request: seq<byte>, polls: seq<Poll>, n: nat)
    requires max <= |memory| && n <= |polls|
    ensures Run(memory, max, request, polls[..0]) == Start(memory, request)
    ensures n < |polls| ==> Run(memory, max, request, polls[..n + 1])
                            == Turn(Run(memory, max, request, polls[..n]), max, request, polls[n])
  {
    if n < |polls| { assert polls[..n + 1][..n] == polls[..n]; }
  }

  lemma {:induction false} RunStops(memory: seq<byte>, max: uint32, request: seq<byte>, polls: seq<Poll>, n: nat)
    requires max <= |memory| && n <= |polls|
    requires n < |polls| ==> Run(memory, max, request, polls[..n]).status != Pending
    ensures Run(memory, max, request, polls) == Run(memory, max, request, polls[..n])
  {
    if n == |polls| {
      assert polls[..n] == polls;
    } else {
      assert polls[..|polls| - 1][..n] == polls[..n];
      RunStops(memory, max, request, polls[..|polls| - 1], n);
    }
  }

  // ---------------------------------------------------------------------------
  // Servers
  // ---------------------------------------------------------------------------

  /** The number of the block that ends the file: the first that is not full. */
  function LastBlock(file: seq<byte>): nat { |file| / MAX_BLOCK_SIZE + 1 }

  function Block(file: seq<byte>, k: nat): seq<byte>
    requires 1 <= k <= LastBlock(file)
  {
    file[(k - 1) * MAX_BLOCK_SIZE..if k * MAX_BLOCK_SIZE < |file| then k * MAX_BLOCK_SIZE else |file|]
  }

  /** A lock-step server sends a block when the client has sent the acknowledgement of
      every block before it, as far as 16 bits tell. */
  predicate CanSend(sent: seq<seq<byte>>, k: nat) {
    forall j | 1 <= j < k :: AckPacket(j % 0x1_0000) in sent
  }

  predicate IsBlock(p: seq<byte>, file: seq<byte>, k: nat)
    requires |p| >= 4 && 1 <= k <= LastBlock(file)
  {
    Be16(p, 2) == k % 0x1_0000 && p[4..] == Block(file, k)
  }

  /** A datagram that a server of the file may have sent, at any time up to now: lost,
      repeated and late datagrams are all covered. Errors can come at any time. */
  ghost predicate FromServer(file: seq<byte>, sent: seq<seq<byte>>, p: seq<byte>) {
    |p| >= 4 && Be16(p, 0) == DATA ==>
      exists k | 1 <= k <= LastBlock(file) :: CanSend(sent, k) && IsBlock(p, file, k)
  }

  /** All datagrams of a run come from servers of the file. */
  ghost predicate Honest(file: seq<byte>, memory: seq<byte>, max: uint32, request: seq<byte>, polls: seq<Poll>)
    requires max <= |memory|
  {
    forall i | 0 <= i < |polls| && polls[i].Datagram? ::
      FromServer(file, Run(memory, max, request, polls[..i]).sent, polls[i].bytes)
  }

  /** Nothing that the client has sent acknowledges a block that it still waits for. */
  predicate AcksBelow(sent: seq<seq<byte>>, request: seq<byte>, blocknum: nat) {
    forall p | p in sent :: p == request || exists j | 1 <= j < blocknum :: p == AckPacket(j)
  }

  predicate ErrorSeen(polls: seq<Poll>) {
    exists i | 0 <= i < |polls| :: polls[i].Datagram? && IsError(polls[i].bytes)
  }

  const READ_REQUEST: uint16 := 1

  predicate IsRequest(p: seq<byte>) { |p| >= 2 && Be16(p, 0) == READ_REQUEST }

  /** The read request of tftp_read: opcode, name and mode ("Octet"). */
  function ReadRequest(bootfile: CString): (p: seq<byte>)
    ensures IsRequest(p)
  {
    [0, READ_REQUEST] + bootfile + [0] + [79, 99, 116, 101, 116, 0]
  }

  /** Opcode 1, the name and the mode, each with its NUL (RFC 1350, section 5). */
  lemma RequestReads(bootfile: CString)
    ensures var p, n := ReadRequest(bootfile), |bootfile|;
            && |p| == n + 9 && p[0] == 0 && p[1] == 1
            && TextIs(p, 2, bootfile) && TextIs(p, n + 3, [79, 99, 116, 101, 116])
  {
    var p, n := ReadRequest(bootfile), |bootfile|;
    assert p[2..2 + n] == bootfile && p[2 + n] == 0;
    HeldText(p, 2, bootfile);
    var mode: CString := [79, 99, 116, 101, 116];
    assert p[n + 3..n + 8] == mode && p[n + 8] == 0;
    HeldText(p, n + 3, mode);
  }

  /** What holds of the state at any time. */
  ghost predicate Good(s: Transfer, file: seq<byte>, max: uint32, memory: seq<byte>, request: seq<byte>, error: bool) {
    && Roomy(s, max) && |s.memory| == |memory| && s.memory[s.total..] == memory[s.total..]
    && s.blocknum <= 0x1_0000 && AcksBelow(s.sent, request, s.blocknum)
    && s.total <= |file| && s.memory[..s.total] == file[..s.total]
    && (s.status == Pending ==> s.total == (s.blocknum - 1) * MAX_BLOCK_SIZE)
    && (s.status == Success ==> s.total == |file| < 0xFFFF * MAX_BLOCK_SIZE && s.blocknum == LastBlock(file))
    && (s.status == Failure ==> error || |file| > max)
  }

  lemma AckNumbers(m: nat, n: nat)
    requires m < 0x1_0000 && n < 0x1_0000 && AckPacket(m) == AckPacket(n)
    ensures m == n
  {
    assert AckPacket(m)[2] == AckPacket(n)[2] && AckPacket(m)[3] == AckPacket(n)[3];
  }

  /** A server is never ahead of the client. */
  lemma ServerBehind(s: Transfer, request: seq<byte>, k: nat)
    requires IsRequest(request) && s.blocknum <= 0x1_0000 && AcksBelow(s.sent, request, s.blocknum)
    requires CanSend(s.sent, k)
    ensures k <= s.blocknum
  {
    if k > s.blocknum {
      var n := s.blocknum % 0x1_0000;
      assert AckPacket(n) in s.sent;
      NoRequest(n, request);
      var j :| 1 <= j < s.blocknum && AckPacket(n) == AckPacket(j);
      AckNumbers(n, j);
      assert false;
    }
  }

  lemma WhichBlock(s: Transfer, file: seq<byte>, p: seq<byte>) returns (k: nat)
    requires FromServer(file, s.sent, p) && Wanted(s.blocknum, p)
    ensures 1 <= k <= LastBlock(file) && CanSend(s.sent, k) && IsBlock(p, file, k)
  {
    hide CanSend, Block;
    k :| 1 <= k <= LastBlock(file) && CanSend(s.sent, k) && IsBlock(p, file, k);
  }

  /** The block the client waits for is the block it gets. */
  lemma WantedBlock(s: Transfer, file: seq<byte>, request: seq<byte>, p: seq<byte>, k: nat)
    requires IsRequest(request) && s.blocknum <= 0x1_0000 && AcksBelow(s.sent, request, s.blocknum)
    requires 1 <= k <= LastBlock(file) && CanSend(s.sent, k) && Wanted(s.blocknum, p) && IsBlock(p, file, k)
    ensures k == s.blocknum < 0x1_0000
  {
    hide CanSend, AcksBelow, Block;
    ServerBehind(s, request, k);
  }

  /** Where a block lies in the file. */
  lemma BlockPlace(file: seq<byte>, k: nat)
    requires 1 <= k <= LastBlock(file)
    ensures var at := (k - 1) * MAX_BLOCK_SIZE;
            && at <= |file| && at + |Block(file, k)| <= |file| && |Block(file, k)| <= MAX_BLOCK_SIZE
            && file[..at] + Block(file, k) == file[..at + |Block(file, k)|]
            && (|Block(file, k)| < MAX_BLOCK_SIZE <==> k == LastBlock(file))
            && (|Block(file, k)| < MAX_BLOCK_SIZE <==> at + |Block(file, k)| == |file| < k * MAX_BLOCK_SIZE)
  {
  }

  lemma AcksGrow(sent: seq<seq<byte>>, request: seq<byte>, n: nat, p: seq<byte>, m: nat)
    requires AcksBelow(sent, request, n) && n <= m && (p == request || exists j | 1 <= j < m :: p == AckPacket(j))
    ensures AcksBelow(sent + [p], request, m)
  {
  }

  lemma GoodReceived(s: Transfer, file: seq<byte>, max: uint32, memory: seq<byte>, request: seq<byte>, error: bool,
                     p: seq<byte>)
    requires s.status == Pending && IsRequest(request) && Good(s, file, max, memory, request, error)
    requires FromServer(file, s.sent, p)
    ensures Good(Received(s, max, p), file, max, memory, request, error || IsError(p))
  {
    hide AcksBelow, Be16, Block, AckPacket, FromServer;
    if !IsError(p) && Wanted(s.blocknum, p) {
      var k := WhichBlock(s, file, p);
      WantedBlock(s, file, request, p, k);
      BlockPlace(file, s.blocknum);
      var r := Received(s, max, p);
      if r.status != Failure {
        Copied(s.memory, file, memory, s.total, p[4..]);
      }
      AcksGrow(s.sent, request, s.blocknum, AckPacket(s.blocknum), s.blocknum + 1);
    }
  }

  lemma Copied(old_memory: seq<byte>, file: seq<byte>, memory: seq<byte>, at: nat, data: seq<byte>)
    requires at + |data| <= |file| && at + |data| <= |old_memory| == |memory|
    requires old_memory[..at] == file[..at] && old_memory[at..] == memory[at..]
    requires file[..at] + data == file[..at + |data|]
    ensures var m := old_memory[..at] + data + old_memory[at + |data|..];
            m[..at + |data|] == file[..at + |data|] && m[at + |data|..] == memory[at + |data|..]
  {
    var m := old_memory[..at] + data + old_memory[at + |data|..];
    assert m[..at + |data|] == old_memory[..at] + data;
    assert old_memory[at + |data|..] == old_memory[at..][|data|..];
    assert memory[at + |data|..] == memory[at..][|data|..];
  }

  lemma GoodResent(s: Transfer, file: seq<byte>, max: uint32, memory: seq<byte>, request: seq<byte>, error: bool)
    requires Good(s, file, max, memory, request, error)
    ensures Good(Resent(s, request), file, max, memory, request, error)
  {
    hide AckPacket;
    var p := if s.blocknum == 1 then request else AckPacket(s.blocknum - 1);
    AcksGrow(s.sent, request, s.blocknum, p, s.blocknum);
  }

  /** In every reachable state: while the transfer goes on, memory starts with the first
      blocknum - 1 full blocks of the file and is untouched behind them; success means the
      whole file; failure means an error or a file that is too large. */
  lemma {:induction false} RunGood(file: seq<byte>, memory: seq<byte>, max: uint32, request: seq<byte>,
                                   polls: seq<Poll>)
    requires max <= |memory| && IsRequest(request) && Honest(file, memory, max, request, polls)
    ensures Good(Run(memory, max, request, polls), file, max, memory, request, ErrorSeen(polls))
  {
    hide Good, Received, Resent, FromServer, IsError;
    if polls == [] {
      StartGood(file, memory, max, request);
    } else {
      var n := |polls| - 1;
      var before, poll := polls[..n], polls[n];
      assert forall i | 0 <= i < n :: before[..i] == polls[..i] && before[i] == polls[i];
      RunGood(file, memory, max, request, before);
      var s := Run(memory, max, request, before);
      var error := ErrorSeen(before);
      ErrorGrows(polls);
      GoodWeaker(s, file, max, memory, request, error, ErrorSeen(polls));
      if s.status == Pending {
        if poll.Datagram? {
          GoodReceived(s, file, max, memory, request, error, poll.bytes);
          GoodResent(Received(s, max, poll.bytes), file, max, memory, request, error || IsError(poll.bytes));
        } else {
          GoodResent(s, file, max, memory, request, error);
        }
      }
    }
  }

  /** RFC 1350, section 6, has the last block acknowledged. In no honest run that succeeds
      is that done: neither by the callback nor by the packet repeated afterwards. */
  lemma LastBlockUnacknowledged(file: seq<byte>, memory: seq<byte>, max: uint32, request: seq<byte>, polls: seq<Poll>)
    requires max <= |memory| && IsRequest(request) && Honest(file, memory, max, request, polls)
    requires Run(memory, max, request, polls).status == Success
    ensures AckPacket(LastBlock(file)) !in Run(memory, max, request, polls).sent
  {
    hide Run, Honest, AckPacket;
    RunGood(file, memory, max, request, polls);
    var s, n := Run(memory, max, request, polls), LastBlock(file);
    if AckPacket(n) in s.sent {
      NoRequest(n, request);
      var j :| 1 <= j < n && AckPacket(n) == AckPacket(j);
      AckNumbers(n, j);
    }
  }

  lemma NoRequest(n: nat, request: seq<byte>)
    requires IsRequest(request)
    ensures AckPacket(n) != request
  {
    assert Be16(AckPacket(n), 0) == ACK;
  }

  lemma StartGood(file: seq<byte>, memory: seq<byte>, max: uint32, request: seq<byte>)
    requires max <= |memory|
    ensures Good(Start(memory, request), file, max, memory, request, ErrorSeen([]))
  {
  }

  lemma ErrorGrows(polls: seq<Poll>)
    requires polls != []
    ensures var last := polls[|polls| - 1];
            ErrorSeen(polls) <==> ErrorSeen(polls[..|polls| - 1]) || (last.Datagram? && IsError(last.bytes))
  {
    hide IsError;
    var before := polls[..|polls| - 1];
    if i :| 0 <= i < |before| && before[i].Datagram? && IsError(before[i].bytes) { assert polls[i] == before[i]; }
    if i :| 0 <= i < |polls| && polls[i].Datagram? && IsError(polls[i].bytes) && i < |before| {
      assert polls[i] == before[i];
    }
  }

  lemma GoodWeaker(s: Transfer, file: seq<byte>, max: uint32, memory: seq<byte>, request: seq<byte>,
                   error: bool, more: bool)
    requires Good(s, file, max, memory, request, error) && (error ==> more)
    ensures Good(s, file, max, memory, request, more)
  {
  }

  // ---------------------------------------------------------------------------
  // How a transfer ends
  // ---------------------------------------------------------------------------

  /** An error datagram, or the block that is waited for without room for it. */
  predicate Breaks(s: Transfer, max: uint32, p: seq<byte>) {
    IsError(p) || (Wanted(s.blocknum, p) && |p| - 4 > max - s.total)
  }

  /** The block that is waited for, with room for it, and not full. */
  predicate Completes(s: Transfer, max: uint32, p: seq<byte>) {
    Wanted(s.blocknum, p) && |p| - 4 <= max - s.total && |p| - 4 < MAX_BLOCK_SIZE
  }

  /** A pending transfer meets a datagram that breaks it. */
  predicate BreaksAt(memory: seq<byte>, max: uint32, request: seq<byte>, polls: seq<Poll>, i: nat)
    requires max <= |memory| && i < |polls|
  {
    var s := Run(memory, max, request, polls[..i]);
    s.status == Pending && polls[i].Datagram? && Breaks(s, max, polls[i].bytes)
  }

  predicate CompletesAt(memory: seq<byte>, max: uint32, request: seq<byte>, polls: seq<Poll>, i: nat)
    requires max <= |memory| && i < |polls|
  {
    var s := Run(memory, max, request, polls[..i]);
    s.status == Pending && polls[i].Datagram? && Completes(s, max, polls[i].bytes)
  }

  predicate Broke(memory: seq<byte>, max: uint32, request: seq<byte>, polls: seq<Poll>)
    requires max <= |memory|
  {
    exists i | 0 <= i < |polls| :: BreaksAt(memory, max, request, polls, i)
  }

  predicate Completed(memory: seq<byte>, max: uint32, request: seq<byte>, polls: seq<Poll>)
    requires max <= |memory|
  {
    exists i | 0 <= i < |polls| :: CompletesAt(memory, max, request, polls, i)
  }

  /** A transfer has failed if and only if it met a datagram that breaks it, and succeeded
      if and only if it met one that completes it; otherwise it is pending. */
  lemma {:induction false} EndsIff(memory: seq<byte>, max: uint32, request: seq<byte>, polls: seq<Poll>)
    requires max <= |memory|
    ensures var s := Run(memory, max, request, polls);
            && (s.status == Failure <==> Broke(memory, max, request, polls))
            && (s.status == Success <==> Completed(memory, max, request, polls))
    decreases |polls|
  {
    if polls != [] {
      hide Run, BreaksAt, CompletesAt, Broke, Completed;
      EndsIff(memory, max, request, polls[..|polls| - 1]);
      LastEnds(memory, max, request, polls);
      BrokeStep(memory, max, request, polls);
      CompletedStep(memory, max, request, polls);
    }
  }

  lemma BrokeStep(memory: seq<byte>, max: uint32, request: seq<byte>, polls: seq<Poll>)
    requires max <= |memory| && polls != []
    ensures var n := |polls| - 1;
            Broke(memory, max, request, polls) <==>
              Broke(memory, max, request, polls[..n]) || BreaksAt(memory, max, request, polls, n)
  {
    hide BreaksAt, CompletesAt;
    var n := |polls| - 1;
    var before := polls[..n];
    forall i | 0 <= i < n
      ensures BreaksAt(memory, max, request, before, i) == BreaksAt(memory, max, request, polls, i)
    {
      SeenBefore(memory, max, request, polls, i);
    }
  }

  lemma CompletedStep(memory: seq<byte>, max: uint32, request: seq<byte>, polls: seq<Poll>)
    requires max <= |memory| && polls != []
    ensures var n := |polls| - 1;
            Completed(memory, max, request, polls) <==>
              Completed(memory, max, request, polls[..n]) || CompletesAt(memory, max, request, polls, n)
  {
    hide BreaksAt, CompletesAt;
    var n := |polls| - 1;
    var before := polls[..n];
    forall i | 0 <= i < n
      ensures CompletesAt(memory, max, request, before, i) == CompletesAt(memory, max, request, polls, i)
    {
      SeenBefore(memory, max, request, polls, i);
    }
  }

  lemma SeenBefore(memory: seq<byte>, max: uint32, request: seq<byte>, polls: seq<Poll>, i: nat)
    requires max <= |memory| && i < |polls| - 1
    ensures var before := polls[..|polls| - 1];
            && BreaksAt(memory, max, request, before, i) == BreaksAt(memory, max, request, polls, i)
            && CompletesAt(memory, max, request, before, i) == CompletesAt(memory, max, request, polls, i)
  {
    hide Run, Breaks, Completes;
    var before := polls[..|polls| - 1];
    assert before[i] == polls[i] && before[..i] == polls[..i];
  }

  /** What the last turn does to the status. */
  lemma LastEnds(memory: seq<byte>, max: uint32, request: seq<byte>, polls: seq<Poll>)
    requires max <= |memory| && polls != []
    ensures var n := |polls| - 1;
            var s, r := Run(memory, max, request, polls[..n]), Run(memory, max, request, polls);
            var b, c := BreaksAt(memory, max, request, polls, n), CompletesAt(memory, max, request, polls, n);
            && (b || c ==> s.status == Pending) && !(b && c)
            && (r.status == if b then Failure else if c then Success else s.status)
  {
    hide Breaks, Completes, Turn;
    var n := |polls| - 1;
    TurnEnds(Run(memory, max, request, polls[..n]), max, request, polls[n]);
  }

  lemma TurnEnds(s: Transfer, max: uint32, request: seq<byte>, poll: Poll)
    requires Roomy(s, max)
    ensures var r := Turn(s, max, request, poll);
            if s.status != Pending || poll.Silent? then r.status == s.status
            else
              && (r.status == Failure <==> Breaks(s, max, poll.bytes))
              && (r.status == Success <==> Completes(s, max, poll.bytes))
  {
  }

  /** So no error datagram has been seen while it is pending. */
  lemma {:induction false} PendingSeesNoError(memory: seq<byte>, max: uint32, request: seq<byte>, polls: seq<Poll>)
    requires max <= |memory|
    ensures Run(memory, max, request, polls).status == Pending ==> !ErrorSeen(polls)
    decreases |polls|
  {
    hide Turn, IsError;
    if polls != [] && Run(memory, max, request, polls).status == Pending {
      var before := polls[..|polls| - 1];
      PendingSeesNoError(memory, max, request, before);
      TurnEnds(Run(memory, max, request, before), max, request, polls[|polls| - 1]);
      ErrorGrows(polls);
    }
  }

  // ---------------------------------------------------------------------------
  // Which files arrive
  // ---------------------------------------------------------------------------

  function DataPacket(file: seq<byte>, k: nat): seq<byte>
    requires 1 <= k <= LastBlock(file)
  {
    [0, DATA, k / 0x100 % 0x100, k % 0x100] + Block(file, k)
  }

  /** The first n blocks of a file have arrived and are acknowledged. */
  ghost predicate Arrived(s: Transfer, file: seq<byte>, n: nat) {
    if n == LastBlock(file) then s.status == Success
    else
      && s.status == Pending && s.blocknum == n + 1 && s.total == n * MAX_BLOCK_SIZE
      && forall j | 1 <= j <= n :: AckPacket(j) in s.sent
  }

  lemma DataPacketIs(file: seq<byte>, k: nat)
    requires 1 <= k <= LastBlock(file) && k < 0x1_0000
    ensures var p := DataPacket(file, k);
            !IsError(p) && Wanted(k, p) && p[4..] == Block(file, k)
  {
    BlockPlace(file, k);
    hide Block;
    var p := DataPacket(file, k);
    assert p[0] == 0 && p[1] == DATA && p[2] == k / 0x100 % 0x100 && p[3] == k % 0x100;
  }

  lemma ArrivedNext(s: Transfer, file: seq<byte>, max: uint32, memory: seq<byte>, request: seq<byte>, n: nat)
    requires Roomy(s, max) && n < LastBlock(file) < 0x1_0000 && |file| <= max && Arrived(s, file, n)
    ensures FromServer(file, s.sent, DataPacket(file, n + 1))
    ensures Arrived(Turn(s, max, request, Datagram(DataPacket(file, n + 1))), file, n + 1)
  {
    var p := DataPacket(file, n + 1);
    DataPacketIs(file, n + 1);
    NextFromServer(s, file, n);
    BlockPlace(file, n + 1);
    hide Block, DataPacket, AckPacket, Be16, Turn, IsError, LastBlock, FromServer;
    TurnStores(s, max, request, p);
  }

  lemma NextFromServer(s: Transfer, file: seq<byte>, n: nat)
    requires n < LastBlock(file) < 0x1_0000 && Arrived(s, file, n)
    ensures FromServer(file, s.sent, DataPacket(file, n + 1))
  {
    var p := DataPacket(file, n + 1);
    DataPacketIs(file, n + 1);
    hide Block, DataPacket, AckPacket, LastBlock, Be16;
    forall j | 1 <= j < n + 1 ensures AckPacket(j % 0x1_0000) in s.sent { SmallNumber(j); }
    SmallNumber(n + 1);
    assert CanSend(s.sent, n + 1) && IsBlock(p, file, n + 1);
  }

  lemma SmallNumber(n: nat)
    requires n < 0x1_0000
    ensures n % 0x1_0000 == n
  {
  }

  /** The block that is waited for, when there is room for it. */
  lemma TurnStores(s: Transfer, max: uint32, request: seq<byte>, p: seq<byte>)
    requires Roomy(s, max) && s.status == Pending && !IsError(p) && Wanted(s.blocknum, p)
    requires |p[4..]| <= max - s.total
    ensures var r := Turn(s, max, request, Datagram(p));
            if |p[4..]| < MAX_BLOCK_SIZE then r.status == Success
            else
              && r.status == Pending && r.blocknum == s.blocknum + 1 && r.total == s.total + MAX_BLOCK_SIZE
              && r.sent == s.sent + [AckPacket(s.blocknum)]
  {
    hide IsError, AckPacket;
  }

  lemma HonestNext(file: seq<byte>, memory: seq<byte>, max: uint32, request: seq<byte>, before: seq<Poll>, poll: Poll)
    requires max <= |memory| && Honest(file, memory, max, request, before)
    requires poll.Datagram? ==> FromServer(file, Run(memory, max, request, before).sent, poll.bytes)
    ensures Honest(file, memory, max, request, before + [poll])
    ensures Run(memory, max, request, before + [poll]) == Turn(Run(memory, max, request, before), max, request, poll)
  {
    hide FromServer, Turn;
    var polls := before + [poll];
    assert polls[..|before|] == before;
    assert forall i | 0 <= i < |before| :: before[..i] == polls[..i] && before[i] == polls[i];
  }

  /** A transfer that has got n blocks can be finished by a server that answers in order. */
  lemma {:induction false} FinishFrom(file: seq<byte>, memory: seq<byte>, max: uint32, request: seq<byte>,
                                      polls: seq<Poll>, n: nat) returns (all: seq<Poll>)
    requires max <= |memory| && n <= LastBlock(file) < 0x1_0000 && |file| <= max
    requires Honest(file, memory, max, request, polls) && Arrived(Run(memory, max, request, polls), file, n)
    ensures polls <= all && Honest(file, memory, max, request, all)
    ensures Run(memory, max, request, all).status == Success
    decreases LastBlock(file) - n
  {
    hide Turn, FromServer, DataPacket, Honest, Run, Block, LastBlock;
    all := polls;
    if n < LastBlock(file) {
      var poll := Datagram(DataPacket(file, n + 1));
      ArrivedNext(Run(memory, max, request, polls), file, max, memory, request, n);
      HonestNext(file, memory, max, request, polls, poll);
      all := FinishFrom(file, memory, max, request, polls + [poll], n + 1);
    }
  }

  lemma NothingArrived(file: seq<byte>, memory: seq<byte>, max: uint32, request: seq<byte>)
    requires max <= |memory|
    ensures Honest(file, memory, max, request, [])
    ensures Arrived(Run(memory, max, request, []), file, 0)
  {
  }

  /** What the client sent last always asks for the block it waits for, so that a lost
      datagram is made good by the next silent poll. */
  predicate Asks(s: Transfer, request: seq<byte>) {
    s.sent != [] && s.sent[|s.sent| - 1] == if s.blocknum == 1 then request else AckPacket(s.blocknum - 1)
  }

  /** And it has acknowledged every block before. */
  predicate AllAcked(s: Transfer) { forall j | 1 <= j < s.blocknum :: AckPacket(j) in s.sent }

  lemma {:induction false} RunAsks(memory: seq<byte>, max: uint32, request: seq<byte>, polls: seq<Poll>)
    requires max <= |memory|
    ensures var s := Run(memory, max, request, polls);
            Asks(s, request) && AllAcked(s) && (s.status == Pending ==> |s.sent| == |polls| + 1)
  {
    if polls != [] {
      hide Wanted, IsError, AckPacket;
      RunAsks(memory, max, request, polls[..|polls| - 1]);
      var s, poll := Run(memory, max, request, polls[..|polls| - 1]), polls[|polls| - 1];
      if s.status == Pending { TurnAsks(s, max, request, poll); }
    }
  }

  lemma TurnAsks(s: Transfer, max: uint32, request: seq<byte>, poll: Poll)
    requires Roomy(s, max) && s.status == Pending && Asks(s, request) && AllAcked(s)
    ensures Asks(Turn(s, max, request, poll), request) && AllAcked(Turn(s, max, request, poll))
    ensures |Turn(s, max, request, poll).sent| == |s.sent| + 1
  {
    hide Wanted, IsError, AckPacket;
    var r := if poll.Datagram? then Received(s, max, poll.bytes) else s;
    assert r.blocknum == s.blocknum || r.sent == s.sent + [AckPacket(s.blocknum)];
    assert AllAcked(r);
  }

  /** No reachable state is stuck: whatever was lost, repeated or late so far, a pending
      transfer of a file that fits and is short enough can still succeed. */
  lemma NeverStuck(file: seq<byte>, memory: seq<byte>, max: uint32, request: seq<byte>, polls: seq<Poll>)
      returns (all: seq<Poll>)
    requires max <= |memory| && IsRequest(request) && Honest(file, memory, max, request, polls)
    requires |file| < 0xFFFF * MAX_BLOCK_SIZE && |file| <= max && Run(memory, max, request, polls).status == Pending
    ensures polls <= all && Honest(file, memory, max, request, all)
    ensures Run(memory, max, request, all).status == Success
  {
    hide Honest, Run, AcksBelow, AckPacket;
    var s := Run(memory, max, request, polls);
    RunGood(file, memory, max, request, polls);
    RunAsks(memory, max, request, polls);
    assert s.blocknum - 1 < LastBlock(file);
    all := FinishFrom(file, memory, max, request, polls, s.blocknum - 1);
  }

  /** A file can arrive if and only if it is shorter than 65535 full blocks and fits:
      behind block 65535 the counter never equals a 16-bit number again. */
  lemma SuccessPossibleIff(file: seq<byte>, memory: seq<byte>, max: uint32, request: seq<byte>)
    requires max <= |memory| && IsRequest(request)
    ensures (exists polls ::
               Honest(file, memory, max, request, polls) && Run(memory, max, request, polls).status == Success)
            <==> |file| < 0xFFFF * MAX_BLOCK_SIZE && |file| <= max
  {
    hide Honest, Run;
    if |file| < 0xFFFF * MAX_BLOCK_SIZE && |file| <= max {
      NothingArrived(file, memory, max, request);
      var all := FinishFrom(file, memory, max, request, [], 0);
    }
    if polls :| Honest(file, memory, max, request, polls) && Run(memory, max, request, polls).status == Success {
      RunGood(file, memory, max, request, polls);
    }
  }
}
