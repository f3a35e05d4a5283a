/**
 * How much of what was claimed can stay unsubmitted. As long as flushes do not overlap with anything,
 * the bound holds on every run in which no forced flush lands between a rollover that accepted nothing
 * and the next accepted claim; `RaceLoss` has the results for flushes that do overlap.
 */
module ClaimerLoss {
  import opened Common
  import opened NanoPay
  import opened ClaimerLog

  /** A non-forced flush is skipped below the minimum, so a closed channel may leave one less than it. */
  ghost function Threshold(c: ClaimerConfig): int {
    if c.minFlush > 0 then c.minFlush - 1 else 0
  }

  ghost predicate SmallLoss(c: ClaimerConfig, e: Epoch) {
    0 <= AmountOf(LastAccepted(e)) - AmountOf(LastSubmitted(e)) <= Threshold(c)
  }

  ghost predicate Healthy(c: ClaimerConfig, s: ClaimerState) {
    && 0 <= s.prevFlush <= s.amount
    && s.prevFlush == AmountOf(LastSubmitted(Current(s.log)))
    && (s.id.None? && s.tx.Some? ==> c.minFlush > 0)
    && (s.id.Some? ==> (s.tx.None? <==> s.prevFlush == s.amount))
    && (s.id.Some? && s.tx.Some? ==> s.tx.value.Amount() == s.amount)
    && (forall e :: e in Closed(s.log) ==> SmallLoss(c, e))
  }

  /** A forced flush that submits the transaction of a channel already closed. */
  ghost predicate StaleFlush(s: ClaimerState, op: Op) {
    op.Flush? && op.force && op.sendOk && s.id.None? && s.tx.Some?
  }

  ghost predicate NoStaleFlush(c: ClaimerConfig, ops: seq<Op>) {
    forall k :: 0 <= k < |ops| ==> !StaleFlush(Run(c, ops[..k]), ops[k])
  }

  lemma IdleAmount(s: ClaimerState)
    requires Refines(s)
    ensures s.id.None? ==> s.amount == 0
    ensures s.tx.Some? ==> s.tx.value.payload.NanoPayPayload? && s.tx.value.Amount() > 0
  {
  }

  /** A flush leaves the state alone or submits the pending transaction of the live channel. */
  lemma FlushShape(c: ClaimerConfig, s: ClaimerState, force: bool, sendOk: bool)
    requires Healthy(c, s)
    requires s.id.None? ==> s.amount == 0
    requires !StaleFlush(s, Op.Flush(force, sendOk))
    ensures var f := FlushState(c, s, force, sendOk).0;
            f == s || (s.id.Some? && s.tx.Some? && f == Cleared(s, s.tx.value))
    ensures var (f, r) := FlushState(c, s, false, sendOk);
            r.Ok? && f == s && s.tx.Some? ==> s.amount - s.prevFlush <= Threshold(c) && c.minFlush > 0
  {
  }

  lemma SubmitHealthy(c: ClaimerConfig, s: ClaimerState)
    requires Healthy(c, s) && s.id.Some? && s.tx.Some?
    ensures Healthy(c, Cleared(s, s.tx.value)) && s.tx.value.Amount() == s.amount
  {
  }

  lemma FlushHealthy(c: ClaimerConfig, s: ClaimerState, force: bool, sendOk: bool)
    requires Healthy(c, s)
    requires s.id.None? ==> s.amount == 0
    requires !StaleFlush(s, Op.Flush(force, sendOk))
    ensures Healthy(c, FlushState(c, s, force, sendOk).0)
  {
    FlushShape(c, s, force, sendOk);
    if FlushState(c, s, force, sendOk).0 != s {
      SubmitHealthy(c, s);
    }
  }

  /** Closing a channel is healthy once little enough of it is unsubmitted. */
  lemma CloseEpochHealthy(c: ClaimerConfig, s: ClaimerState)
    requires Healthy(c, s) && s.id.Some?
    requires s.amount == AmountOf(LastAccepted(Current(s.log)))
    requires s.amount - s.prevFlush <= Threshold(c)
    requires s.tx.Some? ==> c.minFlush > 0
    ensures Healthy(c, RollOver(s))
  {
  }

  lemma RollOverHealthy(c: ClaimerConfig, s: ClaimerState, flushOk: bool)
    requires Refines(s) && Healthy(c, s) && s.id.Some?
    requires FlushState(c, s, false, flushOk).1.Ok?
    ensures Healthy(c, RollOver(FlushState(c, s, false, flushOk).0))
  {
    var f := FlushState(c, s, false, flushOk).0;
    FlushShape(c, s, false, flushOk);
    FlushHealthy(c, s, false, flushOk);
    SubmitRefines(c, s, false, flushOk);
    CloseEpochHealthy(c, f);
  }

  lemma AcceptHealthy(c: ClaimerConfig, s: ClaimerState, tx: Tx)
    requires Healthy(c, s) && tx.payload.NanoPayPayload? && s.amount < tx.Amount()
    ensures Healthy(c, Accept(s, tx, tx.payload.np))
  {
    EpochsSnoc(s.log, Accepted(tx));
    LastSnoc(Current(s.log), Accepted(tx));
  }

  lemma SwitchHealthy(c: ClaimerConfig, s: ClaimerState, np: Payment, flushOk: bool)
    requires Refines(s) && Healthy(c, s)
    ensures Healthy(c, Switch(c, s, np, flushOk).0)
  {
    IdleAmount(s);
    if s.id.Some? && s.id.value != np.id {
      if FlushState(c, s, false, flushOk).1.Ok? {
        RollOverHealthy(c, s, flushOk);
      } else {
        FlushHealthy(c, s, false, flushOk);
      }
    }
  }

  lemma ClaimHealthy(c: ClaimerConfig, s: ClaimerState, tx: Tx, env: ClaimEnv)
    requires Refines(s) && Healthy(c, s)
    requires env.verdict == Ok(true) ==> tx.Amount() > 0
    ensures Healthy(c, ClaimState(c, s, tx, env).0)
  {
    ClaimShape(c, s, tx, env);
    var s' := ClaimState(c, s, tx, env).0;
    if s' != s {
      var np := tx.payload.np;
      var t := Switch(c, s, np, env.flushOk).0;
      SwitchHealthy(c, s, np, env.flushOk);
      SwitchRefines(c, s, np, env.flushOk);
      if s' != t {
        IdleAmount(t);
        AcceptHealthy(c, t, tx);
      }
    }
  }

  /** Healthy bookkeeping survives a step exactly when the step is not a stale forced flush. */
  lemma HealthyExactly(c: ClaimerConfig, s: ClaimerState, op: Op)
    requires Refines(s) && Healthy(c, s) && Sound(op)
    ensures Healthy(c, Step(c, s, op)) <==> !StaleFlush(s, op)
    ensures StaleFlush(s, op) ==> Step(c, s, op).prevFlush > Step(c, s, op).amount
  {
    IdleAmount(s);
    match op
    case Close =>
    case Claim(tx, env) => ClaimHealthy(c, s, tx, env);
    case Flush(force, sendOk) =>
      if !StaleFlush(s, op) {
        FlushHealthy(c, s, force, sendOk);
      }
  }

  lemma {:induction false} RunHealthy(c: ClaimerConfig, ops: seq<Op>)
    requires AllSound(ops) && NoStaleFlush(c, ops)
    ensures Healthy(c, Run(c, ops))
  {
    if ops == [] {
      assert Epochs([]) == [[]];
    } else {
      var front := ops[..|ops| - 1];
      forall k | 0 <= k < |front|
        ensures !StaleFlush(Run(c, front[..k]), front[k])
      {
        assert front[..k] == ops[..k];
      }
      RunHealthy(c, front);
      RunRefines(c, front);
      HealthyExactly(c, Run(c, front), ops[|ops| - 1]);
    }
  }

  /** The bookkeeping stays healthy through a whole run exactly when no step of it is a stale forced flush. */
  lemma HealthyRunsExactly(c: ClaimerConfig, ops: seq<Op>)
    requires AllSound(ops)
    ensures (forall k :: 0 <= k <= |ops| ==> Healthy(c, Run(c, ops[..k]))) <==> NoStaleFlush(c, ops)
  {
    if NoStaleFlush(c, ops) {
      forall k | 0 <= k <= |ops|
        ensures Healthy(c, Run(c, ops[..k]))
      {
        forall i | 0 <= i < k
          ensures !StaleFlush(Run(c, ops[..k][..i]), ops[..k][i])
        {
          assert ops[..k][..i] == ops[..i];
        }
        RunHealthy(c, ops[..k]);
      }
    } else {
      var k :| 0 <= k < |ops| && StaleFlush(Run(c, ops[..k]), ops[k]);
      RunRefines(c, ops[..k]);
      assert ops[..k + 1][..k] == ops[..k];
      assert Run(c, ops[..k + 1]) == Step(c, Run(c, ops[..k]), ops[k]);
      if Healthy(c, Run(c, ops[..k])) {
        HealthyExactly(c, Run(c, ops[..k]), ops[k]);
        assert !Healthy(c, Run(c, ops[..k + 1]));
      }
    }
  }

  lemma OneMore(n: int, t: int)
    ensures (n + 1) * t == n * t + t
  {
  }

  lemma {:induction false} SumOfSmallLosses(c: ClaimerConfig, es: seq<Epoch>)
    requires forall e :: e in es ==> SmallLoss(c, e)
    ensures 0 <= Claimed(es) - Redeemed(es) <= |es| * Threshold(c)
  {
    if es != [] {
      var n := |es| - 1;
      SumOfSmallLosses(c, es[..n]);
      assert SmallLoss(c, es[n]);
      OneMore(n, Threshold(c));
    }
  }

  /** Healthy books bound what is claimed and not submitted. */
  lemma HealthyLoss(c: ClaimerConfig, s: ClaimerState)
    requires Books(s) && Healthy(c, s)
    ensures s.id.Some? ==>
              (s.tx.None? <==> AmountOf(LastSubmitted(Current(s.log))) == AmountOf(LastAccepted(Current(s.log))))
    ensures 0 <= Claimed(Epochs(s.log)) - Redeemed(Epochs(s.log))
              <= |Closed(s.log)| * Threshold(c) + (s.amount - s.prevFlush)
  {
    SumOfSmallLosses(c, Closed(s.log));
    EpochsSnoc(s.log, RolledOver);
    ClaimedSnoc(Closed(s.log), Current(s.log));
  }

  /**
   * Bounded loss: claimed minus submitted is at most one threshold for each closed channel plus what
   * the current channel has not submitted; a live channel has nothing pending exactly when all it
   * accepted is submitted.
   */
  lemma BoundedLoss(c: ClaimerConfig, ops: seq<Op>)
    requires AllSound(ops) && NoStaleFlush(c, ops)
    ensures var s := Run(c, ops);
            && 0 <= s.prevFlush <= s.amount
            && (s.id.Some? ==>
                  (s.tx.None? <==> AmountOf(LastSubmitted(Current(s.log))) == AmountOf(LastAccepted(Current(s.log)))))
            && (forall e :: e in Closed(s.log) ==> SmallLoss(c, e))
            && 0 <= Claimed(Epochs(s.log)) - Redeemed(Epochs(s.log))
                 <= |Closed(s.log)| * Threshold(c) + (s.amount - s.prevFlush)
  {
    RunRefines(c, ops);
    RunHealthy(c, ops);
    HealthyLoss(c, Run(c, ops));
  }

  /** The excluded step does occur: a rollover whose claim then fails, followed by a forced flush. */
  lemma StaleFlushIsReachable()
    ensures exists c: ClaimerConfig, ops: seq<Op> ::
              AllSound(ops) && Run(c, ops).prevFlush > Run(c, ops).amount
  {
    var c := ClaimerConfig("r", 100);
    var t1 := Tx(NanoPayPayload(Payment("p", "r", 1, 10, 50, 50)), 0);
    var t2 := Tx(NanoPayPayload(Payment("p", "r", 2, 10, 50, 50)), 0);
    var op1 := Op.Claim(t1, ClaimEnv(Some(1), Ok(true), true, Some(20)));
    var op2 := Op.Claim(t2, ClaimEnv(Some(1), Ok(true), true, None));
    var op3 := Op.Flush(true, true);
    var s1 := Step(c, INITIAL_CLAIMER, op1);
    assert s1.id == Some(1) && s1.amount == 10 && s1.tx == Some(t1) && s1.prevFlush == 0;
    var s2 := Step(c, s1, op2);
    assert s2.id == None && s2.amount == 0 && s2.tx == Some(t1);
    assert [op1, op2, op3][..2] == [op1, op2] && [op1, op2][..1] == [op1] && [op1][..0] == [];
    assert Run(c, []) == INITIAL_CLAIMER;
    assert Run(c, [op1]) == s1;
    assert Run(c, [op1, op2]) == s2;
    assert Run(c, [op1, op2, op3]) == Step(c, s2, op3);
    hide Run;
    assert Run(c, [op1, op2, op3]).prevFlush == 10;
    assert AllSound([op1, op2, op3]);
  }
}
