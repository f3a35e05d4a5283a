/**
 * A session's control state: the handshake, closing, and the flow control of its one writer.
 * Packets are taken after decoding; window sizes of connections are real numbers.
 */
module Session {
  import opened MachineInts
  import opened Common
  import opened Connection
  import opened WindowShares

  const INITIAL_WINDOW: u32 := 0x40_0000
  const SEND_BUFFER := 1024

  datatype Handshake = Handshake(windowSize: u32, mtu: u32, clientIds: seq<string>)

  /**
   * The control part of a packet: `ackStarts` and `ackCounts` are the lengths of its two lists of
   * acknowledgements, and `bytesRead` is 0 when the packet does not report it.
   */
  datatype Control = Control(
    close: bool,
    handshake: Option<Handshake>,
    ackStarts: nat,
    ackCounts: nat,
    bytesRead: u64)
  {
    predicate HasAcks() { ackStarts > 0 || ackCounts > 0 }

    predicate BadAcks() { ackStarts != ackCounts && ackStarts > 0 && ackCounts > 0 }
  }

  datatype WriteError = NotEstablished | Closed | BufferEmpty | BufferTooLarge | StillBlocked | BufferOverrun

  datatype SessState = SessState(
    window: u32,
    mtu: u32,
    established: bool,
    closed: bool,
    bytesWrite: u64,
    remoteRead: u64,
    packetCount: real,
    windows: Windows,
    remoteIds: seq<string>)

  ghost predicate Valid(s: SessState) {
    && 0 < s.window <= INITIAL_WINDOW && s.mtu > 0
    && s.bytesWrite <= s.remoteRead + s.window
    && (!s.established ==> !s.closed && s.bytesWrite == 0 && s.remoteRead == 0)
    && (s.established ==> s.packetCount == s.window as real / s.mtu as real && s.packetCount > 0.0)
    && (forall k :: k in s.windows ==> s.windows[k] > 0.0)
  }

  function Min(a: nat, b: nat): nat { if a < b then a else b }

  ghost function AfterHandshake(local: seq<string>, s: SessState, p: Handshake): SessState
    requires s.mtu > 0
  {
    if s.established || p.windowSize == 0 then s
    else
      var w := s.(window := Min(p.windowSize, s.window));
      if p.mtu == 0 then w
      else
        var mtu := Min(p.mtu, s.mtu);
        var m := w.(mtu := mtu, packetCount := w.window as real / mtu as real);
        if p.clientIds == [] then m
        else
          var n := Min(|p.clientIds|, |local|);
          m.(windows := Split(PairKeys(local, p.clientIds, n), Share(m.packetCount, n)),
             remoteIds := p.clientIds,
             established := true)
  }

  /** The smaller of the two. */
  ghost predicate Smaller(r: nat, a: nat, b: nat) {
    r <= a && r <= b && (r == a || r == b)
  }

  /**
   * A handshake is accepted exactly by a session not yet established, when it announces a window, an mtu
   * and ids. Then window and mtu are the smaller of what both sides offer, and there is one connection
   * for each pair of ids. A handshake that is not accepted may still shrink the window and the mtu.
   */
  lemma HandshakeExactly(local: seq<string>, s: SessState, p: Handshake)
    requires s.mtu > 0
    ensures var t := AfterHandshake(local, s, p);
            && (t.established <==> s.established || (p.windowSize > 0 && p.mtu > 0 && p.clientIds != []))
            && (s.established || p.windowSize == 0 ==> t == s)
            && (!s.established && p.windowSize > 0 ==> Smaller(t.window, p.windowSize, s.window))
            && (!s.established && p.windowSize > 0 && p.mtu == 0 ==> t == s.(window := t.window))
            && (!s.established && p.windowSize > 0 && p.mtu > 0 ==>
                  && Smaller(t.mtu, p.mtu, s.mtu) && t.packetCount == t.window as real / t.mtu as real
                  && (p.clientIds == [] ==>
                        t == s.(window := t.window, mtu := t.mtu, packetCount := t.packetCount)))
            && (t.established && !s.established ==>
                  && t.remoteIds == p.clientIds
                  && (forall k :: k in t.windows <==>
                        exists i :: 0 <= i < |local| && i < |p.clientIds| && k == local[i] + " - " + p.clientIds[i])
                  && t == s.(window := t.window, mtu := t.mtu, packetCount := t.packetCount,
                             windows := t.windows, remoteIds := p.clientIds, established := true))
  {
    if !s.established && p.windowSize > 0 && p.mtu > 0 && p.clientIds != [] {
      var t := AfterHandshake(local, s, p);
      var n := Min(|p.clientIds|, |local|);
      var keys := PairKeys(local, p.clientIds, n);
      forall k | k in keys
        ensures exists i :: 0 <= i < |local| && i < |p.clientIds| && k == local[i] + " - " + p.clientIds[i]
      {
        var i :| 0 <= i < n && keys[i] == k;
      }
      forall i | 0 <= i < |local| && i < |p.clientIds|
        ensures local[i] + " - " + p.clientIds[i] in keys
      {
        assert keys[i] == local[i] + " - " + p.clientIds[i];
      }
    }
  }

  /** Without local ids there is no connection to share among. */
  function Share(count: real, n: nat): real {
    if n == 0 then 0.0 else count / n as real
  }

  function AfterBytesRead(s: SessState, bytesRead: u64): SessState {
    if s.established && bytesRead > s.remoteRead then s.(remoteRead := bytesRead) else s
  }

  /**
   * Whether the session was established is sampled before the handshake is handled. Ack lists of
   * different lengths end the handling before the peer's report is looked at.
   */
  ghost function AfterControl(local: seq<string>, s: SessState, c: Control): SessState
    requires s.mtu > 0
  {
    if c.close then (if s.established then s.(closed := true) else s)
    else if s.established then
      if c.BadAcks() then s
      else
        AfterBytesRead(if c.HasAcks() then s.(windows := Renormalised(s.windows, s.packetCount)) else s, c.bytesRead)
    else if c.handshake.Some? then AfterHandshake(local, s, c.handshake.value)
    else s
  }

  /**
   * A close packet closes exactly an established session and does nothing else. Any other packet leaves
   * closing alone, and its report is taken over exactly when it is larger, on a session that was already
   * established, and the acknowledgements are not uneven.
   */
  lemma ControlEffect(local: seq<string>, s: SessState, c: Control)
    requires s.mtu > 0
    ensures var t := AfterControl(local, s, c);
            var uneven := c.ackStarts != c.ackCounts && c.ackStarts > 0 && c.ackCounts > 0;
            && (c.close ==> t == s.(closed := s.closed || s.established))
            && (!c.close ==> t.closed == s.closed)
            && t.remoteRead == (if !c.close && s.established && !uneven && c.bytesRead > s.remoteRead
                                then c.bytesRead else s.remoteRead)
            && t.bytesWrite == s.bytesWrite
            && (s.established ==> t == s.(closed := t.closed, remoteRead := t.remoteRead, windows := t.windows))
            && (s.established && (c.close || uneven || (c.ackStarts == 0 && c.ackCounts == 0)) ==> t.windows == s.windows)
            && (!s.established ==>
                  t == if c.close || c.handshake.None? then s else AfterHandshake(local, s, c.handshake.value))
  {
  }

  /** The errors of a write before it waits, each exactly when. */
  lemma WriteRefusedExactly(nonStream: bool, s: SessState, len: nat)
    ensures var e := WriteCheck(nonStream, s, len);
            && (e == Some(NotEstablished) <==> !s.established)
            && (e == Some(Closed) <==> s.established && s.closed)
            && (e == Some(BufferEmpty) <==> s.established && !s.closed && len == 0)
            && (e == Some(BufferTooLarge) <==>
                  s.established && !s.closed && len > 0 && (len > s.window || (nonStream && len > s.mtu)))
            && (e.None? <==>
                  s.established && !s.closed && 0 < len <= s.window && (nonStream ==> len <= s.mtu))
  {
  }

  /** Saturating at 0, then cut to 32 bits. */
  function WindowUsed(s: SessState): u32 {
    (if s.bytesWrite >= s.remoteRead then s.bytesWrite - s.remoteRead else 0) % U32_MOD
  }

  predicate HasRoom(s: SessState, n: u32) {
    WrapU32(WindowUsed(s) + n) <= s.window
  }

  function WriteCheck(nonStream: bool, s: SessState, len: nat): Option<WriteError> {
    if !s.established then Some(NotEstablished)
    else if s.closed then Some(Closed)
    else if len == 0 then Some(BufferEmpty)
    else if (nonStream && len > s.mtu) || len > s.window then Some(BufferTooLarge)
    else None
  }

  ghost function AfterReads(s: SessState, reports: seq<u64>): SessState {
    if reports == [] then s else AfterBytesRead(AfterReads(s, reports[..|reports| - 1]), reports[|reports| - 1])
  }

  class Sess {
    const nonStream: bool
    const localIds: seq<string>
    var window: u32
    var mtu: u32
    var established: bool
    var closed: bool
    var bytesWrite: u64
    var remoteRead: u64
    var packetCount: real
    var windows: Windows
    var remoteIds: seq<string>

    function State(): SessState
      reads this
    {
      SessState(window, mtu, established, closed, bytesWrite, remoteRead, packetCount, windows, remoteIds)
    }

    constructor (nonStream: bool, mtu: u32, localIds: seq<string>, remoteIds: seq<string>)
      requires mtu > 0
      ensures State() == SessState(INITIAL_WINDOW, mtu, false, false, 0, 0, 0.0, map[], remoteIds)
      ensures Valid(State()) && this.nonStream == nonStream && this.localIds == localIds
    {
      this.nonStream, this.localIds := nonStream, localIds;
      this.window, this.mtu := INITIAL_WINDOW, mtu;
      established, closed, bytesWrite, remoteRead := false, false, 0, 0;
      packetCount, windows, this.remoteIds := 0.0, map[], remoteIds;
    }

    method HandleHandshake(p: Handshake)
      requires mtu > 0
      modifies this
      ensures State() == AfterHandshake(localIds, old(State()), p)
    {
      if established || p.windowSize == 0 {
        return;
      }
      if p.windowSize < window {
        window := p.windowSize;
      }
      if p.mtu == 0 {
        return;
      }
      if p.mtu < mtu {
        mtu := p.mtu;
      }
      packetCount := window as real / mtu as real;
      if p.clientIds == [] {
        return;
      }
      var n := |localIds|;
      if |p.clientIds| < n {
        n := |p.clientIds|;
      }
      var connections := BuildConnections(p.clientIds, n);
      windows := connections;
      remoteIds := p.clientIds;
      established := true;
    }

    /** One connection for each pair of ids, all with an equal window. */
    method BuildConnections(clientIds: seq<string>, n: nat) returns (connections: Windows)
      requires n <= |localIds| && n <= |clientIds|
      ensures connections == Split(PairKeys(localIds, clientIds, n), Share(packetCount, n))
    {
      var w := Share(packetCount, n);
      connections := map[];
      ghost var keys := PairKeys(localIds, clientIds, n);
      for i := 0 to n
        invariant connections == Split(keys[..i], w)
      {
        connections := connections[ConnKey(localIds[i], clientIds[i]) := w];
        assert keys[..i + 1] == keys[..i] + [keys[i]];
      }
      assert keys[..n] == keys;
    }

    method HandleClose()
      modifies this`closed
      ensures State() == if old(established) then old(State()).(closed := true) else old(State())
    {
      if !established {
        return;
      }
      closed := true;
    }

    method ReceiveControl(c: Control)
      requires mtu > 0
      modifies this
      ensures State() == AfterControl(localIds, old(State()), c)
    {
      if c.close {
        HandleClose();
        return;
      }
      var wasEstablished := established;
      if !wasEstablished && c.handshake.Some? {
        HandleHandshake(c.handshake.value);
      }
      if wasEstablished && c.HasAcks() {
        if c.BadAcks() {
          return;
        }
        UpdateConnWindowSize();
      }
      if wasEstablished && c.bytesRead > remoteRead {
        remoteRead := c.bytesRead;
      }
    }

    /** Waits, through the reports of the peer given in `reports`, until `n` more bytes fit the window. */
    method WaitForSendWindow(n: u32, reports: seq<u64>) returns (free: Option<u32>, used: nat)
      requires Valid(State()) && established && n <= window
      modifies this`remoteRead
      ensures Valid(State()) && used <= |reports|
      ensures State() == AfterReads(old(State()), reports[..used])
      ensures free.Some? ==> n <= free.value && bytesWrite + free.value <= remoteRead + window
      ensures free.None? ==> used == |reports| && bytesWrite + n > remoteRead + window
    {
      used := 0;
      while !HasRoom(State(), n)
        invariant Valid(State()) && used <= |reports|
        invariant State() == AfterReads(old(State()), reports[..used])
        invariant established && window == old(window) && bytesWrite == old(bytesWrite)
        decreases |reports| - used
      {
        UsedIsExact(State());
        if used == |reports| {
          return None, used;
        }
        assert reports[..used + 1][..used] == reports[..used];
        if reports[used] > remoteRead {
          remoteRead := reports[used];
        }
        used := used + 1;
      }
      UsedIsExact(State());
      free := Some(window - WindowUsed(State()));
    }

    /** Writes one buffer of `len` bytes; for a stream the code passes the checks and then does nothing. */
    method Write(len: nat, reports: seq<u64>) returns (r: Result<nat, WriteError>, used: nat)
      requires Valid(State())
      modifies this`remoteRead, this`bytesWrite
      ensures Valid(State()) && used <= |reports|
      ensures var e := WriteCheck(nonStream, old(State()), len);
              e.Some? ==> r == Err(e.value) && State() == old(State())
      ensures WriteCheck(nonStream, old(State()), len).None? && !nonStream ==> r == Ok(0) && State() == old(State())
      ensures r == Err(StillBlocked) ==> used == |reports| && bytesWrite + len > remoteRead + window
      ensures r == Err(BufferOverrun) ==> len > 1024
      ensures r.Ok? ==>
                && old(established) && !old(closed) && 0 < len <= old(window)
                && (nonStream ==> len <= old(mtu) && bytesWrite <= remoteRead + window)
      ensures r.Err? && WriteCheck(nonStream, old(State()), len).None? ==>
                r.error in {StillBlocked, BufferOverrun} && State() == AfterReads(old(State()), reports[..used])
      ensures r.Ok? && nonStream ==>
                && r.value == len && len <= 1024
                && State() == AfterReads(old(State()), reports[..used]).(bytesWrite := WrapU64(old(bytesWrite) + len))
    {
      used := 0;
      if !established {
        return Err(NotEstablished), 0;
      }
      if closed {
        return Err(Closed), 0;
      }
      if len == 0 {
        return Err(BufferEmpty), 0;
      } else if (nonStream && len > mtu) || len > window {
        return Err(BufferTooLarge), 0;
      }
      if !nonStream {
        return Ok(0), 0;
      }
      var free;
      free, used := WaitForSendWindow(len, reports);
      ReadsOnlyMoveRead(old(State()), reports[..used]);
      if free.None? {
        return Err(StillBlocked), used;
      }
      if len > SEND_BUFFER {
        return Err(BufferOverrun), used;
      }
      bytesWrite := WrapU64(bytesWrite + len);
      r := Ok(len);
    }

    method TotalWindow() returns (total: real)
      ensures total == Sum(windows)
    {
      var todo := windows;
      total := 0.0;
      while todo != map[]
        invariant todo.Keys <= windows.Keys && forall k :: k in todo ==> todo[k] == windows[k]
        invariant total + Sum(todo) == Sum(windows)
        decreases |todo|
      {
        var k :| k in todo;
        SumRemove(todo, k);
        total := total + todo[k];
        todo := todo - {k};
      }
    }

    /** Rescales the connections' windows so that they share the packet count again. */
    method UpdateConnWindowSize()
      modifies this`windows
      ensures State() == old(State()).(windows := Renormalised(old(windows), packetCount))
    {
      var total := TotalWindow();
      if total <= 0.0 {
        return;
      }
      var count := packetCount;
      ghost var before := windows;
      var keys := windows.Keys;
      while keys != {}
        invariant windows.Keys == before.Keys && keys <= before.Keys
        invariant forall k :: k in before ==>
                    windows[k] == if k in keys then before[k] else Clamp(Portion(count, before[k], total), MIN_WINDOW)
        decreases keys
      {
        var k :| k in keys;
        var n := Portion(count, windows[k], total);
        windows := windows[k := Clamp(n, MIN_WINDOW)];
        keys := keys - {k};
      }
    }
  }

  /** Under the invariant nothing is cut off: the window used is exact and the free window is no underflow. */
  lemma UsedIsExact(s: SessState)
    requires Valid(s)
    ensures WindowUsed(s) == if s.bytesWrite >= s.remoteRead then s.bytesWrite - s.remoteRead else 0
    ensures WindowUsed(s) <= s.window
    ensures forall n: u32 :: n <= s.window ==> (HasRoom(s, n) <==> WindowUsed(s) + n <= s.window)
  {
  }

  lemma {:induction false} ReadsOnlyMoveRead(s: SessState, reports: seq<u64>)
    ensures var t := AfterReads(s, reports);
            t == s.(remoteRead := t.remoteRead) && s.remoteRead <= t.remoteRead
  {
    if reports != [] {
      ReadsOnlyMoveRead(s, reports[..|reports| - 1]);
    }
  }

  // ------------------------------------------------------------------ runs

  /** Where the one writer is: between writes, waiting for the window, or past the wait. */
  datatype Writer = Idle | Waiting(n: nat) | Cleared(n: nat)

  datatype Run = Run(s: SessState, writer: Writer)

  datatype Conf = Conf(local: seq<string>, nonStream: bool)

  datatype Step =
    | Receive(c: Control)
    | BeginWrite(len: nat)
    | PassWindow
    | FinishWrite

  predicate Enabled(r: Run, step: Step) {
    match step
    case Receive(_) => true
    case BeginWrite(_) => r.writer.Idle?
    case PassWindow => r.writer.Waiting? && r.writer.n < U32_MOD && HasRoom(r.s, r.writer.n)
    case FinishWrite => r.writer.Cleared? && r.writer.n < U64_MOD
  }

  ghost function Next(conf: Conf, r: Run, step: Step): Run
    requires Enabled(r, step) && r.s.mtu > 0
  {
    match step
    case Receive(c) => r.(s := AfterControl(conf.local, r.s, c))
    case BeginWrite(len) =>
      if !conf.nonStream || WriteCheck(true, r.s, len).Some? then r else r.(writer := Waiting(len))
    case PassWindow => r.(writer := Cleared(r.writer.n))
    case FinishWrite =>
      Run(if r.writer.n > SEND_BUFFER then r.s else r.s.(bytesWrite := WrapU64(r.s.bytesWrite + r.writer.n)), Idle)
  }

  ghost predicate Inv(r: Run) {
    && Valid(r.s)
    && (!r.writer.Idle? ==> r.s.established && 0 < r.writer.n <= r.s.window && r.writer.n <= r.s.mtu)
    && (r.writer.Cleared? ==> r.s.bytesWrite + r.writer.n <= r.s.remoteRead + r.s.window)
  }

  ghost predicate Reaches(conf: Conf, r: Run, steps: seq<Step>, r': Run)
    decreases |steps|
  {
    if steps == [] then r' == r
    else Enabled(r, steps[0]) && r.s.mtu > 0 && Reaches(conf, Next(conf, r, steps[0]), steps[1..], r')
  }

  lemma HandshakeValid(local: seq<string>, s: SessState, p: Handshake)
    requires Valid(s)
    ensures Valid(AfterHandshake(local, s, p))
  {
  }

  lemma RenormalisedValid(s: SessState)
    requires Valid(s) && s.established
    ensures Valid(s.(windows := Renormalised(s.windows, s.packetCount)))
  {
  }

  lemma StepKeepsInv(conf: Conf, r: Run, step: Step)
    requires Inv(r) && Enabled(r, step)
    ensures Inv(Next(conf, r, step))
  {
    UsedIsExact(r.s);
    match step
    case Receive(c) =>
      if c.handshake.Some? {
        HandshakeValid(conf.local, r.s, c.handshake.value);
      }
      if r.s.established {
        RenormalisedValid(r.s);
      }
    case BeginWrite(_) =>
    case PassWindow =>
    case FinishWrite =>
  }

  /** An accepted handshake shares out exactly the packet count unless two connections have the same key. */
  lemma HandshakeShares(local: seq<string>, s: SessState, p: Handshake)
    requires Valid(s) && !s.established && local != [] && AfterHandshake(local, s, p).established
    ensures var t := AfterHandshake(local, s, p);
            var keys := PairKeys(local, p.clientIds, Min(|p.clientIds|, |local|));
            && (Sum(t.windows) == t.packetCount <==> Distinct(keys))
            && Sum(t.windows) <= t.packetCount
            && forall k :: k in t.windows ==>
                 t.windows[k] == t.packetCount / (if |p.clientIds| < |local| then |p.clientIds| else |local|) as real
  {
    HandshakeValid(local, s, p);
    SplitSum(PairKeys(local, p.clientIds, Min(|p.clientIds|, |local|)), AfterHandshake(local, s, p).packetCount);
  }

  /** Rescaling an established session's windows: at least 1 each, in order, and summing to about the packet count. */
  lemma UpdateShares(s: SessState)
    requires Valid(s) && s.established && s.windows != map[]
    ensures var w := Renormalised(s.windows, s.packetCount);
            && w.Keys == s.windows.Keys
            && (forall k :: k in w ==> w[k] >= 1.0)
            && (forall j, k :: j in w && k in w && s.windows[j] <= s.windows[k] ==> w[j] <= w[k])
            && s.packetCount <= Sum(w) <= s.packetCount + |s.windows| as real
            && (forall k :: k in w ==> IsShare(w[k], s.windows[k], s.packetCount, Sum(s.windows)))
  {
    hide IsShare, Sum;
    SumPositive(s.windows);
    forall k | k in s.windows
      ensures var w := Renormalised(s.windows, s.packetCount);
              k in w && IsShare(w[k], s.windows[k], s.packetCount, Sum(s.windows))
    {
      ShareExactly(s.windows, s.packetCount, k);
    }
    RenormalisedShares(s.windows, s.packetCount);
  }

  /** Acknowledgements redistribute the windows of an established session, each by its share. */
  lemma AcksRedistribute(local: seq<string>, s: SessState, c: Control)
    requires Valid(s) && s.established && s.windows != map[] && !c.close
    requires (c.ackStarts > 0 || c.ackCounts > 0) && (c.ackStarts == c.ackCounts || c.ackStarts == 0 || c.ackCounts == 0)
    ensures var t := AfterControl(local, s, c);
            && t.windows.Keys == s.windows.Keys
            && forall k :: k in s.windows ==> IsShare(t.windows[k], s.windows[k], s.packetCount, Sum(s.windows))
  {
    UpdateShares(s);
    hide Sum, IsShare, Renormalised, Valid;
  }

  /** What one step may change: window and mtu only shrink, and nothing agreed on moves any more. */
  ghost predicate Settles(a: SessState, b: SessState) {
    && b.window <= a.window && b.mtu <= a.mtu
    && (a.established ==>
          b.established && b.window == a.window && b.mtu == a.mtu && b.packetCount == a.packetCount
          && b.remoteIds == a.remoteIds && b.windows.Keys == a.windows.Keys)
    && (a.closed ==> b.closed)
    && a.remoteRead <= b.remoteRead
  }

  lemma StepSettles(conf: Conf, r: Run, step: Step)
    requires Inv(r) && Enabled(r, step)
    ensures Settles(r.s, Next(conf, r, step).s)
  {
  }

  lemma {:induction false} RunKeepsInv(conf: Conf, r: Run, steps: seq<Step>, r': Run)
    requires Inv(r) && Reaches(conf, r, steps, r')
    ensures Inv(r') && Settles(r.s, r'.s)
    decreases |steps|
  {
    if steps != [] {
      StepKeepsInv(conf, r, steps[0]);
      StepSettles(conf, r, steps[0]);
      RunKeepsInv(conf, Next(conf, r, steps[0]), steps[1..], r');
    }
  }

  ghost function Start(mtu: u32, remoteIds: seq<string>): Run {
    Run(SessState(INITIAL_WINDOW, mtu, false, false, 0, 0, 0.0, map[], remoteIds), Idle)
  }

  /**
   * Flow control over every run of handshakes, closes, reports of the peer and interleaved phases of
   * one writer: the bytes written never exceed what the peer read plus the window, a write past its
   * wait always fits, the free window never underflows, and from any point on what was agreed on stays.
   */
  lemma FlowControl(conf: Conf, mtu: u32, remoteIds: seq<string>,
                    before: seq<Step>, r: Run, after: seq<Step>, r': Run)
    requires mtu > 0 && Reaches(conf, Start(mtu, remoteIds), before, r) && Reaches(conf, r, after, r')
    ensures r.s.bytesWrite <= r.s.remoteRead + r.s.window
    ensures WindowUsed(r.s) <= r.s.window && (r.s.closed ==> r.s.established)
    ensures r.writer.Cleared? ==> r.s.bytesWrite + r.writer.n <= r.s.remoteRead + r.s.window
    ensures !r.writer.Idle? ==> 0 < r.writer.n <= r.s.mtu
    ensures r.s.window <= 4_194_304 && r.s.mtu <= mtu
    ensures Settles(r.s, r'.s)
  {
    RunKeepsInv(conf, Start(mtu, remoteIds), before, r);
    RunKeepsInv(conf, r, after, r');
    UsedIsExact(r.s);
  }

  /** An established session was established by one handshake, whose offer bounds what was agreed on. */
  lemma {:induction false} EstablishedBy(conf: Conf, r: Run, steps: seq<Step>, r': Run) returns (i: nat, p: Handshake)
    requires Inv(r) && Reaches(conf, r, steps, r') && !r.s.established && r'.s.established
    ensures i < |steps| && steps[i].Receive? && !steps[i].c.close && steps[i].c.handshake == Some(p)
    ensures p.windowSize > 0 && p.mtu > 0 && p.clientIds != []
    ensures r'.s.window <= p.windowSize && r'.s.mtu <= p.mtu && r'.s.remoteIds == p.clientIds
    decreases |steps|
  {
    var m := Next(conf, r, steps[0]);
    StepKeepsInv(conf, r, steps[0]);
    if m.s.established {
      i, p := 0, steps[0].c.handshake.value;
      HandshakeExactly(conf.local, r.s, p);
      RunKeepsInv(conf, m, steps[1..], r');
    } else {
      i, p := EstablishedBy(conf, m, steps[1..], r');
      i := i + 1;
    }
  }

  /** Nothing is written beyond the window that the accepted handshake granted. */
  lemma WithinGrantedWindow(conf: Conf, mtu: u32, remoteIds: seq<string>, steps: seq<Step>, r: Run)
    requires mtu > 0 && Reaches(conf, Start(mtu, remoteIds), steps, r)
    ensures r.s.bytesWrite > 0 ==>
              exists i :: 0 <= i < |steps| && steps[i].Receive? && steps[i].c.handshake.Some?
                          && var p := steps[i].c.handshake.value;
                             r.s.bytesWrite <= r.s.remoteRead + p.windowSize && r.s.remoteIds == p.clientIds
    ensures r.s.established ==>
              exists i :: 0 <= i < |steps| && steps[i].Receive? && steps[i].c.handshake.Some?
                          && var p := steps[i].c.handshake.value;
                             r.s.window <= p.windowSize && r.s.mtu <= p.mtu && r.s.remoteIds == p.clientIds
  {
    RunKeepsInv(conf, Start(mtu, remoteIds), steps, r);
    if r.s.established {
      var i, p := EstablishedBy(conf, Start(mtu, remoteIds), steps, r);
    }
  }
}
