/**
 * Channels that are entered again after they were closed. A payment amount is cumulative in its
 * channel, so a channel that is closed twice is counted twice: exactly then does the claimer's log
 * hold two epochs of one id.
 */
module ChannelReentry {
  import opened MachineInts
  import opened Common
  import opened NanoPay
  import opened ClaimerLog

  /** The channel of an epoch; None as long as nothing is accepted in it. */
  ghost function IdOf(e: Epoch): Option<u64> {
    match LastAccepted(e)
    case None => None
    case Some(t) => if t.payload.NanoPayPayload? then Some(t.payload.np.id) else None
  }

  ghost predicate HasId(es: seq<Epoch>, id: u64) {
    exists e :: e in es && IdOf(e) == Some(id)
  }

  /** No two epochs are of the same channel. */
  ghost predicate DistinctIds(es: seq<Epoch>) {
    forall i, j :: 0 <= i < j < |es| && IdOf(es[i]).Some? ==> IdOf(es[i]) != IdOf(es[j])
  }

  /** An accepted claim of a channel that was closed before. */
  ghost predicate Reenters(c: ClaimerConfig, s: ClaimerState, op: Op) {
    op.Claim? && ClaimState(c, s, op.tx, op.env).1.Ok? && op.tx.payload.NanoPayPayload?
    && HasId(Closed(s.log), op.tx.payload.np.id)
  }

  ghost predicate NoReentry(c: ClaimerConfig, ops: seq<Op>) {
    forall k :: 0 <= k < |ops| ==> !Reenters(c, Run(c, ops[..k]), ops[k])
  }

  lemma DistinctSnoc(es: seq<Epoch>, e: Epoch)
    ensures DistinctIds(es + [e]) <==> DistinctIds(es) && (IdOf(e).Some? ==> !HasId(es, IdOf(e).value))
  {
    hide IdOf;
    var l := es + [e];
    if DistinctIds(l) {
      forall i, j | 0 <= i < j < |es| && IdOf(es[i]).Some?
        ensures IdOf(es[i]) != IdOf(es[j])
      {
        assert l[i] == es[i] && l[j] == es[j];
      }
      forall x | x in es
        ensures IdOf(e).Some? ==> IdOf(x) != IdOf(e)
      {
        var i :| 0 <= i < |es| && es[i] == x;
        assert l[i] == x && l[|es|] == e;
      }
    }
  }

  lemma HasIdSnoc(es: seq<Epoch>, e: Epoch, id: u64)
    ensures HasId(es + [e], id) <==> HasId(es, id) || IdOf(e) == Some(id)
  {
    hide IdOf;
    assert e in es + [e];
    assert forall x :: x in es ==> x in es + [e];
  }

  /** What one event does to the ids of the epochs. */
  lemma IdsSnoc(log: seq<Event>, e: Event)
    ensures IdOf(Current(log + [e])) ==
            match e
            case Accepted(t) => if t.payload.NanoPayPayload? then Some(t.payload.np.id) else None
            case Submitted(_) => IdOf(Current(log))
            case RolledOver => None
    ensures !e.RolledOver? ==> Closed(log + [e]) == Closed(log)
    ensures e.RolledOver? ==> Closed(log + [e]) == Closed(log) + [Current(log)]
  {
    EpochsSnoc(log, e);
    LastSnoc(Current(log), e);
  }

  lemma DistinctByCurrent(log: seq<Event>)
    ensures DistinctIds(Epochs(log)) <==>
              DistinctIds(Closed(log)) && (IdOf(Current(log)).Some? ==> !HasId(Closed(log), IdOf(Current(log)).value))
  {
    EpochsSnoc(log, RolledOver);
    DistinctSnoc(Closed(log), Current(log));
  }

  lemma EventKeepsDistinct(log: seq<Event>, e: Event)
    requires e.Accepted? ==>
               && e.tx.payload.NanoPayPayload?
               && (IdOf(Current(log)).None? || IdOf(Current(log)) == Some(e.tx.payload.np.id))
    ensures DistinctIds(Epochs(log + [e])) <==>
              DistinctIds(Epochs(log)) && !(e.Accepted? && HasId(Closed(log), e.tx.payload.np.id))
  {
    hide DistinctIds, HasId, IdOf, Epochs, Closed, Current;
    IdsSnoc(log, e);
    DistinctByCurrent(log);
    DistinctByCurrent(log + [e]);
    if e.RolledOver? {
      DistinctSnoc(Closed(log), Current(log));
    }
  }

  lemma FlushKeepsDistinct(c: ClaimerConfig, s: ClaimerState, force: bool, sendOk: bool)
    ensures var s' := FlushState(c, s, force, sendOk).0;
            && (DistinctIds(Epochs(s'.log)) <==> DistinctIds(Epochs(s.log)))
            && Closed(s'.log) == Closed(s.log) && IdOf(Current(s'.log)) == IdOf(Current(s.log))
  {
    hide DistinctIds, IdOf, Epochs, Closed, Current;
    if s.tx.Some? {
      EventKeepsDistinct(s.log, Submitted(s.tx.value));
      IdsSnoc(s.log, Submitted(s.tx.value));
    }
  }

  lemma CurrentId(s: ClaimerState)
    requires Refines(s)
    ensures IdOf(Current(s.log)) == s.id
  {
  }

  /** The switch closes at most the open channel, which is not the payment's. */
  lemma SwitchKeepsDistinct(c: ClaimerConfig, s: ClaimerState, np: Payment, flushOk: bool)
    requires Refines(s)
    ensures var t := Switch(c, s, np, flushOk).0;
            && (DistinctIds(Epochs(t.log)) <==> DistinctIds(Epochs(s.log)))
            && (HasId(Closed(t.log), np.id) <==> HasId(Closed(s.log), np.id))
  {
    hide DistinctIds, HasId, IdOf, Epochs, Closed, Current, Refines;
    CurrentId(s);
    if s.id.Some? && s.id.value != np.id {
      var f := FlushState(c, s, false, flushOk).0;
      FlushKeepsDistinct(c, s, false, flushOk);
      EventKeepsDistinct(f.log, RolledOver);
      IdsSnoc(f.log, RolledOver);
      HasIdSnoc(Closed(f.log), Current(f.log), np.id);
    }
  }

  /** One step keeps the ids of the epochs distinct exactly when it does not enter a closed channel again. */
  lemma ReentryExactly(c: ClaimerConfig, s: ClaimerState, op: Op)
    requires Refines(s) && Sound(op)
    ensures DistinctIds(Epochs(Step(c, s, op).log)) <==> DistinctIds(Epochs(s.log)) && !Reenters(c, s, op)
  {
    hide DistinctIds, HasId, IdOf, Epochs, Closed, Current, Refines;
    match op
    case Close =>
    case Flush(force, sendOk) => FlushKeepsDistinct(c, s, force, sendOk);
    case Claim(tx, env) =>
      ClaimShape(c, s, tx, env);
      var s' := ClaimState(c, s, tx, env).0;
      if s' != s {
        var t := Switch(c, s, tx.payload.np, env.flushOk).0;
        SwitchKeepsDistinct(c, s, tx.payload.np, env.flushOk);
        SwitchRefines(c, s, tx.payload.np, env.flushOk);
        if ClaimState(c, s, tx, env).1.Ok? {
          CurrentId(t);
          EventKeepsDistinct(t.log, Accepted(tx));
        }
      } else {
        AcceptChanges(c, s, tx, env);
      }
  }

  lemma AcceptChanges(c: ClaimerConfig, s: ClaimerState, tx: Tx, env: ClaimEnv)
    ensures ClaimState(c, s, tx, env).1.Ok? ==> |ClaimState(c, s, tx, env).0.log| > |s.log|
  {
  }

  /** Over a whole run the epochs' ids are distinct exactly when no claim entered a closed channel again. */
  lemma {:induction false} ReentryOverRuns(c: ClaimerConfig, ops: seq<Op>)
    requires AllSound(ops)
    ensures DistinctIds(Epochs(Run(c, ops).log)) <==> NoReentry(c, ops)
  {
    if ops == [] {
      assert Epochs([]) == [[]];
    } else {
      hide Reenters, NoReentry, Step, Epochs, DistinctIds, Refines, Sound;
      var front, op := ops[..|ops| - 1], ops[|ops| - 1];
      ReentryOverRuns(c, front);
      RunRefines(c, front);
      ReentryExactly(c, Run(c, front), op);
      NoReentrySnoc(c, front, op);
      assert ops == front + [op];
    }
  }

  lemma NoReentrySnoc(c: ClaimerConfig, front: seq<Op>, op: Op)
    ensures NoReentry(c, front + [op]) <==> NoReentry(c, front) && !Reenters(c, Run(c, front), op)
  {
    hide Reenters, Run;
    var ops := front + [op];
    assert ops[..|front|] == front && ops[|front|] == op;
    forall k | 0 <= k < |front|
      ensures ops[..k] == front[..k] && ops[k] == front[k]
    {
    }
    if NoReentry(c, ops) {
      assert !Reenters(c, Run(c, ops[..|front|]), ops[|front|]);
      forall k | 0 <= k < |front|
        ensures !Reenters(c, Run(c, front[..k]), front[k])
      {
        assert !Reenters(c, Run(c, ops[..k]), ops[k]);
      }
    }
  }

  // ------------------------------------------- one amount for each channel

  type Amounts = map<u64, int>

  ghost function SumOf(m: Amounts): int {
    if m == map[] then 0
    else
      var k :| k in m;
      m[k] + SumOf(m - {k})
  }

  lemma {:induction false} SumOfRemove(m: Amounts, k: u64)
    requires k in m
    ensures SumOf(m) == m[k] + SumOf(m - {k})
    decreases |m|
  {
    var p :| p in m && SumOf(m) == m[p] + SumOf(m - {p});
    if p != k {
      SumOfRemove(m - {p}, k);
      SumOfRemove(m - {k}, p);
      assert m - {p} - {k} == m - {k} - {p};
    }
  }

  lemma SumOfUpdate(m: Amounts, k: u64, a: int)
    ensures SumOf(m[k := a]) == SumOf(m) + a - if k in m then m[k] else 0
  {
    SumOfRemove(m[k := a], k);
    assert m[k := a] - {k} == m - {k};
    if k in m {
      SumOfRemove(m, k);
    } else {
      assert m - {k} == m;
    }
  }

  /** The amount last accepted in each channel, whichever epoch it was in. */
  ghost function LastAmounts(es: seq<Epoch>): Amounts {
    if es == [] then map[]
    else
      var before, e := LastAmounts(es[..|es| - 1]), es[|es| - 1];
      match IdOf(e)
      case None => before
      case Some(id) => before[id := AmountOf(LastAccepted(e))]
  }

  /** What is accepted is a positive payment. */
  ghost predicate Paying(e: Epoch) {
    LastAccepted(e).Some? ==> IdOf(e).Some? && AmountOf(LastAccepted(e)) > 0
  }

  lemma {:induction false} LastAmountsFacts(es: seq<Epoch>, id: u64)
    requires forall e :: e in es ==> Paying(e)
    ensures id in LastAmounts(es) <==> HasId(es, id)
    ensures id in LastAmounts(es) ==>
              LastAmounts(es)[id] > 0
              && exists e :: e in es && IdOf(e) == Some(id) && LastAmounts(es)[id] == AmountOf(LastAccepted(e))
  {
    if es != [] {
      var n := |es| - 1;
      LastAmountsFacts(es[..n], id);
      assert es == es[..n] + [es[n]];
      HasIdSnoc(es[..n], es[n], id);
      assert es[n] in es && Paying(es[n]);
    }
  }

  /** The claimed value is one last amount for each channel exactly when no channel has two epochs. */
  lemma {:induction false} OneAmountPerChannel(es: seq<Epoch>)
    requires forall e :: e in es ==> Paying(e)
    ensures Claimed(es) >= SumOf(LastAmounts(es))
    ensures Claimed(es) == SumOf(LastAmounts(es)) <==> DistinctIds(es)
  {
    if es != [] {
      var n := |es| - 1;
      var front, e := es[..n], es[n];
      assert es == front + [e] && Paying(e);
      OneAmountPerChannel(front);
      DistinctSnoc(front, e);
      if IdOf(e).Some? {
        LastAmountsFacts(front, IdOf(e).value);
        SumOfUpdate(LastAmounts(front), IdOf(e).value, AmountOf(LastAccepted(e)));
      }
    }
  }

  lemma GoodEpochsPay(log: seq<Event>)
    requires GoodEpochs(log)
    ensures forall e :: e in Epochs(log) ==> Paying(e)
  {
    EpochsSnoc(log, RolledOver);
    forall e | e in Epochs(log)
      ensures Paying(e)
    {
      assert WellFormed(e);
      LastIsAccepted(e);
    }
  }

  lemma {:induction false} LastIsAccepted(e: Epoch)
    ensures LastAccepted(e).Some? ==> exists i :: 0 <= i < |e| && e[i] == Accepted(LastAccepted(e).value)
  {
    if e != [] && !e[|e| - 1].Accepted? {
      LastIsAccepted(e[..|e| - 1]);
    }
  }

  /**
   * Over every run the claimed value is at least one last amount for each channel, and equal to it
   * exactly when no claim entered a closed channel again.
   */
  lemma ClaimedOncePerChannel(c: ClaimerConfig, ops: seq<Op>)
    requires AllSound(ops)
    ensures var es := Epochs(Run(c, ops).log);
            && Claimed(es) >= SumOf(LastAmounts(es))
            && (Claimed(es) == SumOf(LastAmounts(es)) <==> NoReentry(c, ops))
  {
    RunRefines(c, ops);
    GoodEpochsPay(Run(c, ops).log);
    OneAmountPerChannel(Epochs(Run(c, ops).log));
    ReentryOverRuns(c, ops);
  }

  // ------------------------------------------------- submitting twice

  /** The event at `a` is in the epoch that was open there, at the end of what that epoch then held. */
  lemma {:induction false} PlaceInEpochs(log: seq<Event>, a: nat)
    requires a < |log| && !log[a].RolledOver?
    ensures var m, p := |Closed(log[..a])|, |Current(log[..a])|;
            m < |Epochs(log)| && p < |Epochs(log)[m]| && Epochs(log)[m][p] == log[a]
  {
    hide Epochs;
    var n := |log| - 1;
    assert log == log[..n] + [log[n]];
    EpochsSnoc(log[..n], log[n]);
    if a < n {
      PlaceInEpochs(log[..n], a);
      assert log[..n][..a] == log[..a];
    }
  }

  /** Later events are in later epochs, or further on in the same one. */
  lemma {:induction false} PlacesAreOrdered(log: seq<Event>, a: nat, k: nat)
    requires a < k <= |log| && !log[a].RolledOver?
    ensures |Closed(log[..a])| < |Closed(log[..k])|
            || (|Closed(log[..a])| == |Closed(log[..k])| && |Current(log[..a])| < |Current(log[..k])|)
    decreases k
  {
    hide Epochs;
    assert log[..k] == log[..k - 1] + [log[k - 1]];
    EpochsSnoc(log[..k - 1], log[k - 1]);
    if a < k - 1 {
      PlacesAreOrdered(log, a, k - 1);
    }
  }

  lemma AcceptanceGivesId(e: Epoch, p: nat)
    requires p < |e| && e[p].Accepted? && WellFormed(e)
    ensures e[p].tx.payload.NanoPayPayload? && IdOf(e) == Some(e[p].tx.payload.np.id)
  {
    LastAcceptedIsTop(e, p);
  }

  lemma EpochIsWellFormed(log: seq<Event>, m: nat)
    requires GoodEpochs(log) && m < |Epochs(log)|
    ensures WellFormed(Epochs(log)[m])
  {
    if m < |Epochs(log)| - 1 {
      assert Closed(log)[m] in Closed(log);
    }
  }

  /** A transaction accepted twice has its id in two epochs. */
  lemma AcceptedTwice(log: seq<Event>, a: nat, k: nat)
    requires GoodEpochs(log) && a < k < |log| && log[a].Accepted? && log[a] == log[k]
    ensures !DistinctIds(Epochs(log))
  {
    hide Epochs, GoodEpochs, IdOf;
    PlaceInEpochs(log, a);
    PlaceInEpochs(log, k);
    PlacesAreOrdered(log, a, k);
    var m, p, m', p' := |Closed(log[..a])|, |Current(log[..a])|, |Closed(log[..k])|, |Current(log[..k])|;
    EpochIsWellFormed(log, m);
    EpochIsWellFormed(log, m');
    if m < m' {
      AcceptanceGivesId(Epochs(log)[m], p);
      AcceptanceGivesId(Epochs(log)[m'], p');
    }
  }

  lemma {:induction false} UnsubmittedWasAccepted(log: seq<Event>) returns (k: nat)
    requires Unsubmitted(log).Some?
    ensures k < |log| && log[k] == Accepted(Unsubmitted(log).value)
  {
    if log[|log| - 1].Accepted? {
      k := |log| - 1;
    } else {
      k := UnsubmittedWasAccepted(log[..|log| - 1]);
    }
  }

  /** One transaction is submitted twice only in a run that entered a closed channel again. */
  lemma SubmittedTwiceReenters(c: ClaimerConfig, ops: seq<Op>, i: nat, j: nat)
    requires AllSound(ops)
    requires i < j < |Run(c, ops).log|
    requires Run(c, ops).log[i].Submitted? && Run(c, ops).log[i] == Run(c, ops).log[j]
    ensures !NoReentry(c, ops)
  {
    var log := Run(c, ops).log;
    RunRefines(c, ops);
    var a := UnsubmittedWasAccepted(log[..i]);
    var k := AcceptanceAfter(log, i, j, log[j].tx);
    AcceptedTwice(log, a, k);
    ReentryOverRuns(c, ops);
  }

  /** Claim `a`, flush, claim `b`, claim `a` again, flush. */
  ghost function AgainOps(a: Tx, b: Tx): seq<Op> {
    var env := ClaimEnv(Some(1), Ok(true), true, Some(20));
    [Claim(a, env), Flush(true, true), Claim(b, env), Claim(a, env), Flush(true, true)]
  }

  ghost function AgainLog(a: Tx, b: Tx): seq<Event> {
    [Accepted(a), Submitted(a), RolledOver, Accepted(b), RolledOver, Accepted(a), Submitted(a)]
  }

  lemma AgainSteps(c: ClaimerConfig, a: Tx, b: Tx)
    requires c == ClaimerConfig("r", 100)
    requires a == Tx(NanoPayPayload(Payment("p", "r", 1, 10, 50, 50)), 0)
    requires b == Tx(NanoPayPayload(Payment("p", "r", 2, 5, 50, 50)), 0)
    ensures var s2 := Step(c, Step(c, INITIAL_CLAIMER, AgainOps(a, b)[0]), AgainOps(a, b)[1]);
            var s4 := Step(c, Step(c, s2, AgainOps(a, b)[2]), AgainOps(a, b)[3]);
            Step(c, s4, AgainOps(a, b)[4]).log == AgainLog(a, b)
  {
    var s2 := ClaimerState(Some(1), 10, false, 0, 0, 10, None, AgainLog(a, b)[..2]);
    var s4 := ClaimerState(Some(1), 10, false, 50, 15, 0, Some(a), AgainLog(a, b)[..6]);
    assert Step(c, Step(c, INITIAL_CLAIMER, AgainOps(a, b)[0]), AgainOps(a, b)[1]) == s2;
    assert Step(c, Step(c, s2, AgainOps(a, b)[2]), AgainOps(a, b)[3]) == s4;
  }

  lemma FiveSteps(c: ClaimerConfig, ops: seq<Op>)
    requires |ops| == 5
    ensures var s2 := Step(c, Step(c, INITIAL_CLAIMER, ops[0]), ops[1]);
            Run(c, ops) == Step(c, Step(c, Step(c, s2, ops[2]), ops[3]), ops[4])
  {
    hide Step;
    RunTo(c, ops, 0);
    RunTo(c, ops, 1);
    RunTo(c, ops, 2);
    RunTo(c, ops, 3);
    RunTo(c, ops, 4);
    assert Run(c, ops[..0]) == INITIAL_CLAIMER;
    assert ops[..5] == ops;
  }

  /** It does happen then: the first channel's transaction is claimed and flushed again after a switch. */
  lemma SubmittedTwice()
    ensures exists c: ClaimerConfig, ops: seq<Op>, i: nat, j: nat ::
              && AllSound(ops) && i < j < |Run(c, ops).log|
              && Run(c, ops).log[i].Submitted? && Run(c, ops).log[i] == Run(c, ops).log[j]
  {
    hide Step, Run;
    var c := ClaimerConfig("r", 100);
    var a := Tx(NanoPayPayload(Payment("p", "r", 1, 10, 50, 50)), 0);
    var b := Tx(NanoPayPayload(Payment("p", "r", 2, 5, 50, 50)), 0);
    AgainSteps(c, a, b);
    FiveSteps(c, AgainOps(a, b));
    assert AllSound(AgainOps(a, b));
    assert Run(c, AgainOps(a, b)).log[1].Submitted? && Run(c, AgainOps(a, b)).log[1] == Run(c, AgainOps(a, b)).log[6];
  }

  lemma RunTo(c: ClaimerConfig, ops: seq<Op>, n: nat)
    requires n < |ops|
    ensures Run(c, ops[..n + 1]) == Step(c, Run(c, ops[..n]), ops[n])
  {
    assert ops[..n + 1][..n] == ops[..n];
  }
}
