/**
 * The channel over a link that delivers in any order, any number of times. Safety then rests on the
 * claimer alone: it holds as long as no closed channel is entered again.
 */
module AnyOrder {
  import opened MachineInts
  import opened Common
  import opened NanoPay
  import opened NanoPayChannel
  import ClaimerLog
  import opened ChannelReentry

  /** Any issued transaction may arrive at any time; the transaction check only passes positive amounts. */
  ghost predicate Arrives(y: System, m: Move) {
    m.Deliver? ==> m.k < |y.issued| && (m.env.verdict == Ok(true) ==> y.issued[m.k].tx.Amount() > 0)
  }

  ghost predicate AnyOrderRun(u: Setup, firstId: u64, ms: seq<Move>) {
    forall i :: 0 <= i < |ms| ==> Arrives(Run(u, firstId, ms[..i]), ms[i])
  }

  // -------------------------------------------- the claimer's side of a run

  /** What a move makes the claimer do. */
  ghost function OpsOfMove(y: System, m: Move): seq<ClaimerLog.Op> {
    match m
    case Issue(_, _, _, _) => []
    case Deliver(k, env) => if k < |y.issued| then [ClaimerLog.Op.Claim(y.issued[k].tx, env)] else []
    case Flush(force, sendOk) => [ClaimerLog.Op.Flush(force, sendOk)]
    case Close => [ClaimerLog.Op.Close]
  }

  ghost function ClaimerOps(u: Setup, firstId: u64, ms: seq<Move>): seq<ClaimerLog.Op> {
    if ms == [] then []
    else
      var front := ms[..|ms| - 1];
      ClaimerOps(u, firstId, front) + OpsOfMove(Run(u, firstId, front), ms[|ms| - 1])
  }

  lemma AnyOrderFront(u: Setup, firstId: u64, ms: seq<Move>)
    requires ms != [] && AnyOrderRun(u, firstId, ms)
    ensures AnyOrderRun(u, firstId, ms[..|ms| - 1])
    ensures Arrives(Run(u, firstId, ms[..|ms| - 1]), ms[|ms| - 1])
  {
    var front := ms[..|ms| - 1];
    forall i | 0 <= i < |front|
      ensures Arrives(Run(u, firstId, front[..i]), front[i])
    {
      assert front[..i] == ms[..i];
    }
  }

  lemma RunOfSnoc(c: ClaimerConfig, ops: seq<ClaimerLog.Op>, op: ClaimerLog.Op)
    ensures ClaimerLog.Run(c, ops + [op]) == ClaimerLog.Step(c, ClaimerLog.Run(c, ops), op)
    ensures ClaimerLog.AllSound(ops + [op]) <==> ClaimerLog.AllSound(ops) && ClaimerLog.Sound(op)
  {
    var l := ops + [op];
    assert l[..|ops|] == ops && l[|ops|] == op;
    assert forall i :: 0 <= i < |ops| ==> l[i] == ops[i];
  }

  /** The claimer of a system run is a run of the claimer, so every result about its runs applies. */
  lemma {:induction false} ClaimerRuns(u: Setup, firstId: u64, ms: seq<Move>)
    requires AnyOrderRun(u, firstId, ms)
    ensures Run(u, firstId, ms).claimer == ClaimerLog.Run(u.payee, ClaimerOps(u, firstId, ms))
    ensures ClaimerLog.AllSound(ClaimerOps(u, firstId, ms))
  {
    if ms != [] {
      var front, m := ms[..|ms| - 1], ms[|ms| - 1];
      AnyOrderFront(u, firstId, ms);
      ClaimerRuns(u, firstId, front);
      hide ClaimerLog.AllSound, ClaimerLog.Run, ClaimState, FlushState;
      var y, ops := Run(u, firstId, front), ClaimerOps(u, firstId, front);
      if m.Issue? {
        assert ops + OpsOfMove(y, m) == ops;
      } else {
        var op := OpsOfMove(y, m)[0];
        RunOfSnoc(u.payee, ops, op);
        assert ops + OpsOfMove(y, m) == ops + [op];
        assert Next(u, y, m).claimer == ClaimerLog.Step(u.payee, y.claimer, op) && ClaimerLog.Sound(op);
      }
    }
  }

  // ---------------------------------------------- what was paid in a channel

  /** The sum of the deltas issued in the given channels. */
  ghost function PaidIn(issued: seq<Entry>, ids: set<u64>): nat {
    if issued == [] then 0
    else
      var e := issued[|issued| - 1];
      PaidIn(issued[..|issued| - 1], ids)
      + if e.tx.payload.NanoPayPayload? && e.tx.payload.np.id in ids then e.delta else 0
  }

  lemma {:induction false} PaidInAtMostPaid(issued: seq<Entry>, ids: set<u64>)
    ensures PaidIn(issued, ids) <= Paid(issued)
  {
    if issued != [] {
      PaidInAtMostPaid(issued[..|issued| - 1], ids);
    }
  }

  lemma {:induction false} PaidInSplit(issued: seq<Entry>, a: set<u64>, b: set<u64>)
    requires a !! b
    ensures PaidIn(issued, a + b) == PaidIn(issued, a) + PaidIn(issued, b)
  {
    if issued != [] {
      PaidInSplit(issued[..|issued| - 1], a, b);
    }
  }

  lemma PaidInSnoc(issued: seq<Entry>, e: Entry, id: u64)
    ensures PaidIn(issued + [e], {id}) == PaidIn(issued, {id})
              + if e.tx.payload.NanoPayPayload? && e.tx.payload.np.id == id then e.delta else 0
  {
    assert (issued + [e])[..|issued|] == issued;
  }

  lemma {:induction false} SumAtMostPaid(issued: seq<Entry>, m: Amounts)
    requires forall id :: id in m ==> m[id] <= PaidIn(issued, {id})
    ensures SumOf(m) <= PaidIn(issued, m.Keys)
    decreases |m|
  {
    if m != map[] {
      var k :| k in m && SumOf(m) == m[k] + SumOf(m - {k});
      SumAtMostPaid(issued, m - {k});
      PaidInSplit(issued, {k}, (m - {k}).Keys);
      assert {k} + (m - {k}).Keys == m.Keys;
    }
  }

  // ----------------------------------------------------------------- safety

  /** The amount of the transaction is at most what was paid in its channel. */
  ghost predicate Backed(issued: seq<Entry>, tx: Tx) {
    tx.payload.NanoPayPayload? && tx.Amount() <= PaidIn(issued, {tx.payload.np.id})
  }

  ghost predicate AllBacked(y: System) {
    && y.sender.amount <= PaidIn(y.issued, {y.sender.id})
    && (forall i :: 0 <= i < |y.issued| ==> Backed(y.issued, y.issued[i].tx))
    && (forall i :: 0 <= i < |y.claimer.log| && y.claimer.log[i].Accepted? ==>
          Backed(y.issued, y.claimer.log[i].tx))
  }

  lemma IssueKeepsBacked(u: Setup, y: System, h: u32, delta: u64, fee: u64, freshId: u64)
    requires AllBacked(y)
    ensures AllBacked(Next(u, y, Issue(Some(h), delta, fee, freshId)))
  {
    var e := NewEntry(u, y, h, delta, fee, freshId);
    forall tx: Tx | Backed(y.issued, tx)
      ensures Backed(y.issued + [e], tx)
    {
      PaidInSnoc(y.issued, e, tx.payload.np.id);
    }
    var s := IssueState(y.sender, h, delta, freshId);
    PaidInSnoc(y.issued, e, s.id);
    assert Backed(y.issued + [e], e.tx);
  }

  /** A claimer step adds at most one acceptance to the log, of the transaction it was given. */
  lemma AddedEvents(c: ClaimerConfig, s: ClaimerState, op: ClaimerLog.Op)
    ensures var l := ClaimerLog.Step(c, s, op).log;
            && |s.log| <= |l| && l[..|s.log|] == s.log
            && forall i :: |s.log| <= i < |l| && l[i].Accepted? ==> op.Claim? && l[i].tx == op.tx
  {
  }

  lemma ClaimerKeepsBacked(u: Setup, y: System, m: Move)
    requires AllBacked(y) && Arrives(y, m) && !m.Issue?
    ensures AllBacked(Next(u, y, m))
  {
    hide PaidIn, Backed;
    assert OpsOfMove(y, m) != [];
    AddedEvents(u.payee, y.claimer, OpsOfMove(y, m)[0]);
    var l, l' := y.claimer.log, Next(u, y, m).claimer.log;
    forall i | 0 <= i < |l'| && l'[i].Accepted?
      ensures Backed(y.issued, l'[i].tx)
    {
      if i < |l| {
        assert l'[..|l|][i] == l[i];
      }
    }
  }

  lemma {:induction false} RunBacked(u: Setup, firstId: u64, ms: seq<Move>)
    requires AnyOrderRun(u, firstId, ms)
    ensures AllBacked(Run(u, firstId, ms))
  {
    if ms != [] {
      var front, m := ms[..|ms| - 1], ms[|ms| - 1];
      AnyOrderFront(u, firstId, ms);
      RunBacked(u, firstId, front);
      if m.Issue? {
        if m.height.Some? {
          IssueKeepsBacked(u, Run(u, firstId, front), m.height.value, m.delta, m.fee, m.freshId);
        }
      } else {
        ClaimerKeepsBacked(u, Run(u, firstId, front), m);
      }
    }
  }

  /** Every event of an epoch is an event of the log. */
  lemma {:induction false} EpochsHoldEvents(log: seq<Event>, e: ClaimerLog.Epoch, v: Event)
    requires e in ClaimerLog.Epochs(log) && v in e
    ensures v in log
  {
    if log != [] {
      var n := |log| - 1;
      var before := ClaimerLog.Epochs(log[..n]);
      assert before[|before| - 1] in before;
      if e in before {
        EpochsHoldEvents(log[..n], e, v);
      } else if v != log[n] {
        EpochsHoldEvents(log[..n], before[|before| - 1], v);
      }
    }
  }

  /** The amount last accepted in a channel is backed by what was paid in it. */
  lemma LastAmountsBacked(y: System, id: u64)
    requires AllBacked(y) && ClaimerLog.Refines(y.claimer)
    requires id in LastAmounts(ClaimerLog.Epochs(y.claimer.log))
    ensures LastAmounts(ClaimerLog.Epochs(y.claimer.log))[id] <= PaidIn(y.issued, {id})
  {
    var log := y.claimer.log;
    GoodEpochsPay(log);
    LastAmountsFacts(ClaimerLog.Epochs(log), id);
    var e :| e in ClaimerLog.Epochs(log) && IdOf(e) == Some(id)
             && LastAmounts(ClaimerLog.Epochs(log))[id] == ClaimerLog.AmountOf(ClaimerLog.LastAccepted(e));
    LastIsAccepted(e);
    var tx := ClaimerLog.LastAccepted(e).value;
    EpochsHoldEvents(log, e, Accepted(tx));
    assert Backed(y.issued, tx);
  }

  lemma WrapAtMost(p: i64, x: int)
    requires IsWrapOf(p, x) && x >= 0
    ensures p <= x
  {
  }

  lemma ClaimedFromZero(es: seq<ClaimerLog.Epoch>)
    requires forall e :: e in es ==> Paying(e)
    ensures ClaimerLog.Claimed(es) >= 0
  {
    if es != [] {
      assert Paying(es[|es| - 1]);
      ClaimedFromZero(es[..|es| - 1]);
    }
  }

  /**
   * Safety without order: however transactions are lost, repeated and reordered, whatever fails and
   * however often ids repeat or counters wrap, the claimer's total is at most the sum of the deltas as
   * long as no accepted claim entered a closed channel again.
   */
  lemma NeverOverclaimsInAnyOrder(u: Setup, firstId: u64, ms: seq<Move>)
    requires AnyOrderRun(u, firstId, ms)
    requires NoReentry(u.payee, ClaimerOps(u, firstId, ms))
    ensures Total(Run(u, firstId, ms).claimer) <= Paid(Run(u, firstId, ms).issued)
  {
    var y, ops := Run(u, firstId, ms), ClaimerOps(u, firstId, ms);
    ClaimerRuns(u, firstId, ms);
    ClaimerLog.RunRefines(u.payee, ops);
    RunBacked(u, firstId, ms);
    var es := ClaimerLog.Epochs(y.claimer.log);
    ClaimedOncePerChannel(u.payee, ops);
    forall id | id in LastAmounts(es)
      ensures LastAmounts(es)[id] <= PaidIn(y.issued, {id})
    {
      LastAmountsBacked(y, id);
    }
    SumAtMostPaid(y.issued, LastAmounts(es));
    PaidInAtMostPaid(y.issued, LastAmounts(es).Keys);
    GoodEpochsPay(y.claimer.log);
    ClaimedFromZero(es);
    ClaimerLog.TotalIsClaimed(y.claimer);
    WrapAtMost(Total(y.claimer), ClaimerLog.Claimed(es));
  }

  /** Every payment reached the claimer: each channel's last accepted amount is all that was paid in it. */
  ghost predicate FullyClaimed(y: System) {
    var m := LastAmounts(ClaimerLog.Epochs(y.claimer.log));
    && (forall i :: 0 <= i < |y.issued| ==>
          y.issued[i].tx.payload.NanoPayPayload? && y.issued[i].tx.payload.np.id in m)
    && (forall id :: id in m ==> m[id] == PaidIn(y.issued, {id}))
  }

  lemma {:induction false} SumIsPaid(issued: seq<Entry>, m: Amounts)
    requires forall id :: id in m ==> m[id] == PaidIn(issued, {id})
    ensures SumOf(m) == PaidIn(issued, m.Keys)
    decreases |m|
  {
    if m != map[] {
      var k :| k in m && SumOf(m) == m[k] + SumOf(m - {k});
      SumIsPaid(issued, m - {k});
      PaidInSplit(issued, {k}, (m - {k}).Keys);
      assert {k} + (m - {k}).Keys == m.Keys;
    } else {
      PaidInSplit(issued, {}, {});
      assert {} + {} == m.Keys;
    }
  }

  lemma {:induction false} PaidInAll(issued: seq<Entry>, ids: set<u64>)
    requires forall i :: 0 <= i < |issued| ==>
               issued[i].tx.payload.NanoPayPayload? && issued[i].tx.payload.np.id in ids
    ensures PaidIn(issued, ids) == Paid(issued)
  {
    if issued != [] {
      PaidInAll(issued[..|issued| - 1], ids);
    }
  }

  /**
   * Exactly when safety fails once every payment has arrived: the claimed value is above what was paid
   * if and only if a closed channel was entered again.
   */
  lemma OverclaimsExactly(u: Setup, firstId: u64, ms: seq<Move>)
    requires AnyOrderRun(u, firstId, ms) && FullyClaimed(Run(u, firstId, ms))
    ensures var y := Run(u, firstId, ms);
            ClaimerLog.Claimed(ClaimerLog.Epochs(y.claimer.log)) > Paid(y.issued)
            <==> !NoReentry(u.payee, ClaimerOps(u, firstId, ms))
  {
    var y := Run(u, firstId, ms);
    var m := LastAmounts(ClaimerLog.Epochs(y.claimer.log));
    ClaimerRuns(u, firstId, ms);
    ClaimedOncePerChannel(u.payee, ClaimerOps(u, firstId, ms));
    SumIsPaid(y.issued, m);
    PaidInAll(y.issued, m.Keys);
  }

  // ---------------------------------------------------- both sides are met

  const PAIR := Setup(SenderConfig("p", "r", 0, 50), ClaimerConfig("r", 100))

  /** Two channels are paid, 10 and 5. */
  ghost function TwoChannels(): seq<Move> {
    [Issue(Some(1), 10, 0, 1), Issue(Some(2), 5, 0, 2)]
  }

  const ENV := ClaimEnv(Some(1), Ok(true), true, Some(20))
  const FIRST := Tx(NanoPayPayload(Payment("p", "r", 1, 10, 6, 56)), 0)
  const SECOND := Tx(NanoPayPayload(Payment("p", "r", 2, 5, 7, 57)), 0)

  ghost function Arrival(k: nat): Move {
    Deliver(k, ENV)
  }

  ghost function ClaimOf(s: ClaimerState, tx: Tx): ClaimerState {
    ClaimState(PAIR.payee, s, tx, ENV).0
  }

  /** The totals of the two orders of arrival below. */
  lemma TotalsOfArrivals()
    ensures Total(ClaimOf(ClaimOf(ClaimOf(INITIAL_CLAIMER, FIRST), SECOND), FIRST)) == 25
    ensures Total(ClaimOf(ClaimOf(INITIAL_CLAIMER, SECOND), FIRST)) == 15
  {
  }

  lemma RunSnoc(u: Setup, firstId: u64, ms: seq<Move>, m: Move)
    requires AnyOrderRun(u, firstId, ms) && Arrives(Run(u, firstId, ms), m)
    ensures Run(u, firstId, ms + [m]) == Next(u, Run(u, firstId, ms), m)
    ensures AnyOrderRun(u, firstId, ms + [m])
  {
    var l := ms + [m];
    assert l[..|ms|] == ms;
    forall i | 0 <= i < |l|
      ensures Arrives(Run(u, firstId, l[..i]), l[i])
    {
      if i < |ms| {
        assert l[..i] == ms[..i] && l[i] == ms[i];
      }
    }
  }

  lemma NothingIssued()
    ensures AnyOrderRun(PAIR, 0, []) && Run(PAIR, 0, []) == Start(0) && Paid([]) == 0
  {
  }

  lemma TwoChannelsIssued()
    ensures AnyOrderRun(PAIR, 0, TwoChannels())
    ensures var y := Run(PAIR, 0, TwoChannels());
            && y.claimer == INITIAL_CLAIMER && |y.issued| == 2
            && y.issued[0].tx == FIRST && y.issued[1].tx == SECOND
            && Paid(y.issued) == 15
  {
    hide ClaimState, FlushState, Run, AnyOrderRun, Paid;
    NothingIssued();
    var m, m' := Issue(Some(1), 10, 0, 1), Issue(Some(2), 5, 0, 2);
    RunSnoc(PAIR, 0, [], m);
    RunSnoc(PAIR, 0, [m], m');
    assert [] + [m] == [m] && [m] + [m'] == TwoChannels();
    var y1, y := Run(PAIR, 0, [m]), Run(PAIR, 0, TwoChannels());
    PaidToSnoc([], y1.issued[0], 0);
    PaidToSnoc(y1.issued, y.issued[1], 0);
    assert [] + [y1.issued[0]] == y1.issued && y1.issued + [y.issued[1]] == y.issued;
  }

  lemma Arrive(ms: seq<Move>, k: nat)
    requires AnyOrderRun(PAIR, 0, ms) && k < |Run(PAIR, 0, ms).issued|
    requires Run(PAIR, 0, ms).issued[k].tx.Amount() > 0
    ensures AnyOrderRun(PAIR, 0, ms + [Arrival(k)])
    ensures var y, y' := Run(PAIR, 0, ms), Run(PAIR, 0, ms + [Arrival(k)]);
            y'.issued == y.issued && y'.delivered == k + 1 && y'.claimer == ClaimOf(y.claimer, y.issued[k].tx)
  {
    RunSnoc(PAIR, 0, ms, Arrival(k));
  }

  /**
   * Re-entry does overclaim: the first channel's payment delivered again after a switch is counted
   * again, although both channels have their own id.
   */
  lemma ReentryOverclaims()
    ensures exists u: Setup, firstId: u64, ms: seq<Move> ::
              AnyOrderRun(u, firstId, ms)
              && Total(Run(u, firstId, ms).claimer) > Paid(Run(u, firstId, ms).issued)
  {
    hide Run, AnyOrderRun, ClaimOf, Total, Paid;
    var ms := TwoChannels();
    TwoChannelsIssued();
    TotalsOfArrivals();
    Arrive(ms, 0);
    Arrive(ms + [Arrival(0)], 1);
    Arrive(ms + [Arrival(0)] + [Arrival(1)], 0);
    assert Total(Run(PAIR, 0, ms + [Arrival(0)] + [Arrival(1)] + [Arrival(0)]).claimer) == 25;
  }

  /** Order alone is not needed: the second channel's payment may come first. */
  lemma ReorderingWithoutReentry()
    ensures exists u: Setup, firstId: u64, ms: seq<Move> ::
              && AnyOrderRun(u, firstId, ms) && !InOrderRun(u, firstId, ms)
              && Total(Run(u, firstId, ms).claimer) == Paid(Run(u, firstId, ms).issued) > 0
  {
    hide Run, AnyOrderRun, ClaimOf, Total, Paid;
    var ms := TwoChannels();
    TwoChannelsIssued();
    TotalsOfArrivals();
    Arrive(ms, 1);
    Arrive(ms + [Arrival(1)], 0);
    var l := ms + [Arrival(1)] + [Arrival(0)];
    assert Total(Run(PAIR, 0, l).claimer) == 15;
    assert l[..3] == ms + [Arrival(1)];
    assert !InOrder(Run(PAIR, 0, l[..3]), l[3]);
  }
}
