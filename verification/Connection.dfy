/**
 * One connection's bookkeeping: which packets are in flight, which of them are already queued for
 * resending, and the connection's window.
 */
module Connection {
  /** `Sent` with `ok` false is a send that failed; the code then records the id 0 instead. */
  datatype Event = Sent(seqId: nat, ok: bool) | Enqueued(seqId: nat)

  datatype ConnState = ConnState(timeSent: map<nat, int>, resent: set<nat>, windowSize: real, log: seq<Event>)

  const MIN_WINDOW := 1.0

  function Clamp(n: real, least: real): real { if n < least then least else n }

  /** Sends, timeouts (one packet at a time), acknowledgements and finds of an emptied buffer. */
  datatype Step =
    | Transmit(seqId: nat, ok: bool, now: int)
    | DropEmpty(seqId: nat)
    | ReceiveAck(seqId: nat)
    | TimeOut(seqId: nat, threshold: int)

  predicate Due(s: ConnState, seqId: nat, threshold: int) {
    seqId in s.timeSent && seqId !in s.resent && s.timeSent[seqId] < threshold
  }

  /** Real packets never carry the id 0. */
  predicate Enabled(s: ConnState, step: Step) {
    (step.Transmit? ==> step.seqId > 0) && (step.TimeOut? ==> Due(s, step.seqId, step.threshold))
  }

  /** The id a send leaves in the table of packets in flight. */
  function Recorded(seqId: nat, ok: bool): nat { if ok then seqId else 0 }

  function Next(s: ConnState, step: Step): ConnState {
    match step
    case Transmit(seqId, ok, now) =>
      var key := Recorded(seqId, ok);
      ConnState(if key in s.timeSent then s.timeSent else s.timeSent[key := now],
                s.resent - {key},
                if ok then s.windowSize else Clamp(s.windowSize / 2.0, MIN_WINDOW),
                s.log + [Sent(seqId, ok)])
    case DropEmpty(seqId) => s.(timeSent := s.timeSent - {seqId}, resent := s.resent - {seqId})
    case ReceiveAck(seqId) =>
      if seqId !in s.timeSent then s
      else s.(timeSent := s.timeSent - {seqId}, resent := s.resent - {seqId})
    case TimeOut(seqId, _) => s.(resent := s.resent + {seqId}, log := s.log + [Enqueued(seqId)])
  }

  /**
   * A send records its id, or 0 when it failed, with the time of its first record, and takes it off the
   * resend queue; a failed one halves the window down to 1.
   */
  lemma TransmitEffect(s: ConnState, seqId: nat, ok: bool, now: int)
    ensures var t, x := Next(s, Step.Transmit(seqId, ok, now)), if ok then seqId else 0;
            && x in t.timeSent && x !in t.resent
            && t.timeSent[x] == (if x in s.timeSent then s.timeSent[x] else now)
            && (forall y :: y != x ==>
                  (y in t.timeSent <==> y in s.timeSent) && (y in s.timeSent ==> t.timeSent[y] == s.timeSent[y])
                  && (y in t.resent <==> y in s.resent))
            && (ok ==> t.windowSize == s.windowSize)
            && (!ok ==> t.windowSize == if s.windowSize >= 2.0 then s.windowSize / 2.0 else 1.0)
  {
  }

  /** An acknowledged or emptied packet is neither in flight nor queued any more; nothing else changes. */
  lemma ForgetEffect(s: ConnState, seqId: nat, step: Step)
    requires step == Step.DropEmpty(seqId) || (step == Step.ReceiveAck(seqId) && s.resent <= s.timeSent.Keys)
    ensures var t := Next(s, step);
            && seqId !in t.timeSent && seqId !in t.resent
            && (forall y :: y != seqId ==>
                  (y in t.timeSent <==> y in s.timeSent) && (y in s.timeSent ==> t.timeSent[y] == s.timeSent[y])
                  && (y in t.resent <==> y in s.resent))
            && t == s.(timeSent := t.timeSent, resent := t.resent)
  {
  }

  /** A timeout is possible exactly for a packet sent before the threshold and not yet queued, and queues it. */
  lemma TimeOutEffect(s: ConnState, seqId: nat, threshold: int)
    ensures Enabled(s, TimeOut(seqId, threshold)) <==>
              seqId in s.timeSent && s.timeSent[seqId] < threshold && seqId !in s.resent
    ensures var t := Next(s, TimeOut(seqId, threshold));
            t == s.(resent := s.resent + {seqId}, log := s.log + [Enqueued(seqId)])
  {
  }

  /** A pass over the packets in flight: one timeout after the other, in the given order. */
  ghost function TimeOutAll(s: ConnState, order: seq<nat>, threshold: int): ConnState {
    if order == [] then s
    else Next(TimeOutAll(s, order[..|order| - 1], threshold), TimeOut(order[|order| - 1], threshold))
  }

  class Conn {
    var timeSent: map<nat, int>
    var resent: set<nat>
    var windowSize: real
    ghost var log: seq<Event>

    ghost function State(): ConnState
      reads this
    {
      ConnState(timeSent, resent, windowSize, log)
    }

    constructor (windowSize: real)
      ensures State() == ConnState(map[], {}, windowSize, [])
    {
      timeSent, resent, this.windowSize, log := map[], {}, windowSize, [];
    }

    method SetWindowSize(n: real, least: real)
      modifies this`windowSize
      ensures State() == old(State()).(windowSize := Clamp(n, least))
    {
      windowSize := n;
      if n < least {
        windowSize := least;
      }
    }

    method Transmit(seqId: nat, ok: bool, now: int)
      requires seqId > 0
      modifies this
      ensures State() == Next(old(State()), Step.Transmit(seqId, ok, now))
    {
      var key := seqId;
      if !ok {
        SetWindowSize(windowSize / 2.0, MIN_WINDOW);
        key := 0;
      }
      if key !in timeSent {
        timeSent := timeSent[key := now];
      }
      resent := resent - {key};
      log := log + [Sent(seqId, ok)];
    }

    method DropEmpty(seqId: nat)
      modifies this
      ensures State() == Next(old(State()), Step.DropEmpty(seqId))
    {
      timeSent := timeSent - {seqId};
      resent := resent - {seqId};
    }

    method ReceiveAck(seqId: nat)
      modifies this
      ensures State() == Next(old(State()), Step.ReceiveAck(seqId))
    {
      if seqId !in timeSent {
        return;
      }
      timeSent := timeSent - {seqId};
      resent := resent - {seqId};
    }

    /** Queues each packet in flight that is too old and not yet queued, once, in some order. */
    method CheckTimeout(threshold: int) returns (enqueued: seq<nat>)
      modifies this
      ensures State() == TimeOutAll(old(State()), enqueued, threshold)
      ensures forall s :: s in enqueued <==> Due(old(State()), s, threshold)
      ensures forall s :: s in enqueued ==>
                s in old(timeSent) && old(timeSent)[s] < threshold && s !in old(resent)
      ensures forall i, j :: 0 <= i < j < |enqueued| ==> enqueued[i] != enqueued[j]
      ensures timeSent == old(timeSent) && forall s :: s in enqueued ==> s in resent
    {
      enqueued := [];
      var todo := timeSent.Keys;
      while todo != {}
        invariant todo <= timeSent.Keys && timeSent == old(timeSent)
        invariant State() == TimeOutAll(old(State()), enqueued, threshold)
        invariant resent == old(resent) + set s | s in enqueued
        invariant forall s :: s in enqueued ==> s !in todo
        invariant forall s :: s in enqueued <==> Due(old(State()), s, threshold) && s !in todo
        invariant forall i, j :: 0 <= i < j < |enqueued| ==> enqueued[i] != enqueued[j]
        decreases todo
      {
        var s :| s in todo;
        todo := todo - {s};
        if s !in resent && timeSent[s] < threshold {
          assert (enqueued + [s])[..|enqueued|] == enqueued;
          enqueued := enqueued + [s];
          resent := resent + {s};
          log := log + [Enqueued(s)];
        }
      }
    }
  }

  // ------------------------------------------------------------------ runs

  ghost predicate Reaches(s: ConnState, steps: seq<Step>, s': ConnState)
    decreases |steps|
  {
    if steps == [] then s' == s else Enabled(s, steps[0]) && Reaches(Next(s, steps[0]), steps[1..], s')
  }

  lemma {:induction false} ReachesSnoc(s: ConnState, steps: seq<Step>, m: ConnState, step: Step)
    requires Reaches(s, steps, m) && Enabled(m, step)
    ensures Reaches(s, steps + [step], Next(m, step))
    decreases |steps|
  {
    var all := steps + [step];
    if steps == [] {
      assert all[1..] == [];
    } else {
      ReachesSnoc(Next(s, steps[0]), steps[1..], m, step);
      assert all[1..] == steps[1..] + [step];
    }
  }

  ghost function TimeOuts(order: seq<nat>, threshold: int): seq<Step> {
    if order == [] then []
    else TimeOuts(order[..|order| - 1], threshold) + [TimeOut(order[|order| - 1], threshold)]
  }

  /** A whole timeout pass is a run of enabled single timeouts. */
  lemma {:induction false} PassIsARun(s: ConnState, order: seq<nat>, threshold: int)
    requires forall x :: x in order ==> Due(s, x, threshold)
    requires forall i, j :: 0 <= i < j < |order| ==> order[i] != order[j]
    ensures Reaches(s, TimeOuts(order, threshold), TimeOutAll(s, order, threshold))
    ensures TimeOutAll(s, order, threshold).timeSent == s.timeSent
    ensures forall x :: x in TimeOutAll(s, order, threshold).resent <==> x in s.resent || x in order
  {
    if order != [] {
      var n := |order| - 1;
      var front := order[..n];
      assert forall x :: x in front ==> x in order;
      PassIsARun(s, front, threshold);
      assert Due(s, order[n], threshold) && order[n] !in front;
      ReachesSnoc(s, TimeOuts(front, threshold), TimeOutAll(s, front, threshold), TimeOut(order[n], threshold));
    }
  }

  /** Nothing recorded for this id since it was last queued for resending. */
  ghost predicate QueuedSince(log: seq<Event>, seqId: nat) {
    log != []
    && match log[|log| - 1]
       case Enqueued(x) => x == seqId || QueuedSince(log[..|log| - 1], seqId)
       case Sent(x, ok) => Recorded(x, ok) != seqId && QueuedSince(log[..|log| - 1], seqId)
  }

  ghost predicate Inv(s: ConnState) {
    && s.resent <= s.timeSent.Keys
    && (forall x :: QueuedSince(s.log, x) && x in s.timeSent ==> x in s.resent)
    && (forall j :: 0 <= j < |s.log| && s.log[j].Enqueued? ==> !QueuedSince(s.log[..j], s.log[j].seqId))
  }

  lemma QueuedSinceSnoc(log: seq<Event>, e: Event, x: nat)
    ensures QueuedSince(log + [e], x) ==
            match e
            case Enqueued(y) => y == x || QueuedSince(log, x)
            case Sent(y, ok) => Recorded(y, ok) != x && QueuedSince(log, x)
  {
  }

  lemma StepKeepsInv(s: ConnState, step: Step)
    requires Inv(s) && Enabled(s, step)
    ensures Inv(Next(s, step))
  {
    var s' := Next(s, step);
    if s'.log != s.log {
      var e := s'.log[|s.log|];
      forall x | QueuedSince(s'.log, x) && x in s'.timeSent
        ensures x in s'.resent
      {
        QueuedSinceSnoc(s.log, e, x);
      }
      forall j | 0 <= j < |s'.log| && s'.log[j].Enqueued?
        ensures !QueuedSince(s'.log[..j], s'.log[j].seqId)
      {
        assert s'.log[..j] == s.log[..j];
        assert s.log[..|s.log|] == s.log;
      }
    }
  }

  lemma {:induction false} RunKeepsInv(s: ConnState, steps: seq<Step>, s': ConnState)
    requires Inv(s) && Reaches(s, steps, s')
    ensures Inv(s')
    decreases |steps|
  {
    if steps != [] {
      StepKeepsInv(s, steps[0]);
      RunKeepsInv(Next(s, steps[0]), steps[1..], s');
    }
  }

  lemma {:induction false} RecordedAfter(log: seq<Event>, i: nat, j: nat, x: nat) returns (k: nat)
    requires i < j <= |log| && log[i] == Enqueued(x) && !QueuedSince(log[..j], x)
    ensures i < k < j && log[k].Sent? && Recorded(log[k].seqId, log[k].ok) == x
    decreases j
  {
    assert log[..j][..j - 1] == log[..j - 1];
    var e := log[j - 1];
    if e.Sent? && Recorded(e.seqId, e.ok) == x {
      k := j - 1;
    } else {
      k := RecordedAfter(log, i, j - 1, x);
    }
  }

  /**
   * Over every interleaving, what is queued for resending is in flight, and a packet is queued twice
   * only if it was sent in between. The id 0, which failed sends leave behind, is queued again only
   * after another failed send.
   */
  lemma ResendsAreJustified(windowSize: real, steps: seq<Step>, s: ConnState, i: nat, j: nat, x: nat)
    requires Reaches(ConnState(map[], {}, windowSize, []), steps, s)
    ensures s.resent <= s.timeSent.Keys
    ensures i < j < |s.log| && s.log[i] == s.log[j] == Enqueued(x) ==>
              exists k :: i < k < j && s.log[k].Sent? && s.log[k].ok == (x != 0) && (x != 0 ==> s.log[k].seqId == x)
  {
    var start := ConnState(map[], {}, windowSize, []);
    RunKeepsInv(start, steps, s);
    SentIdsArePositive(start, steps, s);
    if i < j < |s.log| && s.log[i] == s.log[j] == Enqueued(x) {
      var k := RecordedAfter(s.log, i, j, x);
    }
  }

  lemma {:induction false} SentIdsArePositive(s: ConnState, steps: seq<Step>, s': ConnState)
    requires Reaches(s, steps, s')
    requires forall k :: 0 <= k < |s.log| && s.log[k].Sent? ==> s.log[k].seqId > 0
    ensures forall k :: 0 <= k < |s'.log| && s'.log[k].Sent? ==> s'.log[k].seqId > 0
    decreases |steps|
  {
    if steps != [] {
      SentIdsArePositive(Next(s, steps[0]), steps[1..], s');
    }
  }

  /** For the id 0 the stronger reading fails: it is queued twice and never sent at all. */
  lemma ZeroIsQueuedWithoutSending()
    ensures exists steps: seq<Step>, s: ConnState ::
              && Reaches(ConnState(map[], {}, 1.0, []), steps, s)
              && |s.log| == 4 && s.log[1] == s.log[3] == Enqueued(0)
              && forall k :: 0 <= k < 4 && s.log[k].Sent? ==> s.log[k].seqId != 0
  {
    var start := ConnState(map[], {}, 1.0, []);
    var a, b, c := Step.Transmit(5, false, 10), TimeOut(0, 20), Step.Transmit(6, false, 30);
    var s1 := Next(start, a);
    var s2 := Next(s1, b);
    var s3 := Next(s2, c);
    var s4 := Next(s3, b);
    assert s1.timeSent == map[0 := 10] && s1.resent == {};
    assert s3.timeSent == map[0 := 10] && s3.resent == {};
    assert Reaches(s4, [], s4);
    assert [b][1..] == [] && [c, b][1..] == [b] && [b, c, b][1..] == [c, b] && [a, b, c, b][1..] == [b, c, b];
    assert Reaches(s3, [b], s4);
    assert Reaches(s2, [c, b], s4);
    assert Reaches(s1, [b, c, b], s4);
    assert Reaches(start, [a, b, c, b], s4);
    assert s4.log == [Sent(5, false), Enqueued(0), Sent(6, false), Enqueued(0)];
  }
}
