/**
 * The claimer's counters against the plain log of what it did. An epoch is the stretch of the log
 * between two rollovers: one payment channel.
 */
module ClaimerLog {
  import opened MachineInts
  import opened Common
  import opened NanoPay

  // ------------------------------------------------- the reference: epochs

  type Epoch = seq<Event>

  ghost function Epochs(log: seq<Event>): (r: seq<Epoch>)
    ensures |r| > 0
  {
    if log == [] then [[]]
    else
      var before, e := Epochs(log[..|log| - 1]), log[|log| - 1];
      if e.RolledOver? then before + [[]]
      else before[..|before| - 1] + [before[|before| - 1] + [e]]
  }

  ghost function Closed(log: seq<Event>): seq<Epoch> {
    Epochs(log)[..|Epochs(log)| - 1]
  }

  ghost function Current(log: seq<Event>): Epoch {
    Epochs(log)[|Epochs(log)| - 1]
  }

  ghost function LastAccepted(e: Epoch): Option<Tx> {
    if e == [] then None
    else if e[|e| - 1].Accepted? then Some(e[|e| - 1].tx)
    else LastAccepted(e[..|e| - 1])
  }

  ghost function LastSubmitted(e: Epoch): Option<Tx> {
    if e == [] then None
    else if e[|e| - 1].Submitted? then Some(e[|e| - 1].tx)
    else LastSubmitted(e[..|e| - 1])
  }

  ghost function AmountOf(t: Option<Tx>): int {
    if t.None? then 0 else t.value.Amount()
  }

  /** The value of a list of channels: amounts are cumulative, so only the last one counts. */
  ghost function Claimed(es: seq<Epoch>): int {
    if es == [] then 0 else Claimed(es[..|es| - 1]) + AmountOf(LastAccepted(es[|es| - 1]))
  }

  ghost function Redeemed(es: seq<Epoch>): int {
    if es == [] then 0 else Redeemed(es[..|es| - 1]) + AmountOf(LastSubmitted(es[|es| - 1]))
  }

  /** The accepted transaction that no submission has used up yet. */
  ghost function Unsubmitted(log: seq<Event>): Option<Tx> {
    if log == [] then None
    else match log[|log| - 1]
         case Accepted(t) => Some(t)
         case Submitted(_) => None
         case RolledOver => Unsubmitted(log[..|log| - 1])
  }

  /** Inside one channel ids agree and amounts are positive and strictly increase. */
  ghost predicate WellFormed(e: Epoch) {
    && (forall i :: 0 <= i < |e| && e[i].Accepted? ==> e[i].tx.payload.NanoPayPayload? && e[i].tx.Amount() > 0)
    && (forall i, j :: 0 <= i < j < |e| && e[i].Accepted? && e[j].Accepted? ==>
          e[i].tx.payload.np.id == e[j].tx.payload.np.id && e[i].tx.Amount() < e[j].tx.Amount())
  }

  /** Every submission is of the accepted transaction that was still unsubmitted. */
  ghost predicate SubmissionsJustified(log: seq<Event>) {
    forall i :: 0 <= i < |log| && log[i].Submitted? ==> Unsubmitted(log[..i]) == Some(log[i].tx)
  }

  // ------------------------------------------------------------------ runs

  datatype Op =
    | Claim(tx: Tx, env: ClaimEnv)
    | Flush(force: bool, sendOk: bool)
    | Close

  /** The transaction check only passes positive amounts. */
  ghost predicate Sound(op: Op) {
    op.Claim? && op.env.verdict == Ok(true) ==> op.tx.Amount() > 0
  }

  ghost function Step(c: ClaimerConfig, s: ClaimerState, op: Op): ClaimerState {
    match op
    case Claim(tx, env) => ClaimState(c, s, tx, env).0
    case Flush(force, sendOk) => FlushState(c, s, force, sendOk).0
    case Close => s.(closed := true)
  }

  ghost function Run(c: ClaimerConfig, ops: seq<Op>): ClaimerState {
    if ops == [] then INITIAL_CLAIMER else Step(c, Run(c, ops[..|ops| - 1]), ops[|ops| - 1])
  }

  ghost predicate AllSound(ops: seq<Op>) {
    forall i :: 0 <= i < |ops| ==> Sound(ops[i])
  }

  // ----------------------------------------- the counters refine the epochs

  /** Every channel is well formed, and no closed one is empty. */
  ghost predicate GoodEpochs(log: seq<Event>) {
    && WellFormed(Current(log))
    && (forall e :: e in Closed(log) ==> WellFormed(e) && LastAccepted(e).Some?)
  }

  ghost predicate GoodLog(log: seq<Event>) {
    GoodEpochs(log) && SubmissionsJustified(log)
  }

  ghost predicate Counters(s: ClaimerState) {
    && IsWrapOf(s.prevClaimed, Claimed(Closed(s.log)))
    && s.amount == AmountOf(LastAccepted(Current(s.log)))
    && s.tx == Unsubmitted(s.log)
    && s.prevFlush >= 0
    && (match LastAccepted(Current(s.log))
        case None => s.id == None
        case Some(t) => t.payload.NanoPayPayload? && s.id == Some(t.payload.np.id) && t.Amount() > 0)
    && (s.tx.Some? ==> s.tx.value.payload.NanoPayPayload? && s.tx.value.Amount() > 0)
  }

  /** What the log and the counters keep even when flushes overlap. */
  ghost predicate Books(s: ClaimerState) {
    Counters(s) && GoodEpochs(s.log)
  }

  ghost predicate Refines(s: ClaimerState) {
    Counters(s) && GoodLog(s.log)
  }

  lemma EpochsSnoc(log: seq<Event>, e: Event)
    ensures e.RolledOver? ==> Closed(log + [e]) == Closed(log) + [Current(log)] && Current(log + [e]) == []
    ensures !e.RolledOver? ==> Closed(log + [e]) == Closed(log) && Current(log + [e]) == Current(log) + [e]
    ensures Epochs(log) == Closed(log) + [Current(log)]
    ensures Epochs(log + [e]) == Closed(log + [e]) + [Current(log + [e])]
  {
  }

  lemma LastSnoc(ep: Epoch, e: Event)
    ensures LastAccepted(ep + [e]) == if e.Accepted? then Some(e.tx) else LastAccepted(ep)
    ensures LastSubmitted(ep + [e]) == if e.Submitted? then Some(e.tx) else LastSubmitted(ep)
  {
  }

  lemma ClaimedSnoc(es: seq<Epoch>, e: Epoch)
    ensures Claimed(es + [e]) == Claimed(es) + AmountOf(LastAccepted(e))
    ensures Redeemed(es + [e]) == Redeemed(es) + AmountOf(LastSubmitted(e))
  {
  }

  lemma UnsubmittedSnoc(log: seq<Event>, e: Event)
    ensures Unsubmitted(log + [e]) ==
            if e.Accepted? then Some(e.tx) else if e.Submitted? then None else Unsubmitted(log)
  {
  }

  lemma JustifiedSnoc(log: seq<Event>, e: Event)
    requires SubmissionsJustified(log)
    requires e.Submitted? ==> Unsubmitted(log) == Some(e.tx)
    ensures SubmissionsJustified(log + [e])
  {
    var l := log + [e];
    assert l[..|log|] == log;
    forall i | 0 <= i < |l| && l[i].Submitted?
      ensures Unsubmitted(l[..i]) == Some(l[i].tx)
    {
      if i < |log| {
        assert l[..i] == log[..i];
      }
    }
  }

  /** The last accepted transaction of an epoch is the largest one in it, and has the epoch's id. */
  lemma {:induction false} LastAcceptedIsTop(e: Epoch, i: nat)
    requires i < |e| && e[i].Accepted? && WellFormed(e)
    ensures LastAccepted(e).Some?
    ensures e[i].tx.Amount() <= LastAccepted(e).value.Amount()
    ensures LastAccepted(e).value.payload.NanoPayPayload? && e[i].tx.payload.NanoPayPayload?
    ensures e[i].tx.payload.np.id == LastAccepted(e).value.payload.np.id
  {
    var n := |e| - 1;
    if !e[n].Accepted? {
      LastAcceptedIsTop(e[..n], i);
    }
  }

  lemma WellFormedSnoc(ep: Epoch, e: Event)
    requires WellFormed(ep)
    requires e.Accepted? ==> e.tx.payload.NanoPayPayload? && e.tx.Amount() > 0
    requires e.Accepted? && LastAccepted(ep).Some? ==>
               && LastAccepted(ep).value.payload.NanoPayPayload?
               && LastAccepted(ep).value.payload.np.id == e.tx.payload.np.id
               && LastAccepted(ep).value.Amount() < e.tx.Amount()
    ensures WellFormed(ep + [e])
  {
    forall i | 0 <= i < |ep| && ep[i].Accepted? && e.Accepted?
      ensures ep[i].tx.payload.np.id == e.tx.payload.np.id && ep[i].tx.Amount() < e.tx.Amount()
    {
      LastAcceptedIsTop(ep, i);
    }
  }

  /** Epochs stay good when the next event fits the current one. */
  lemma GoodEpochsSnoc(log: seq<Event>, e: Event)
    requires GoodEpochs(log)
    requires e.Accepted? ==> e.tx.payload.NanoPayPayload? && e.tx.Amount() > 0
    requires e.Accepted? && LastAccepted(Current(log)).Some? ==>
               var t := LastAccepted(Current(log)).value;
               t.payload.NanoPayPayload? && t.payload.np.id == e.tx.payload.np.id && t.Amount() < e.tx.Amount()
    requires e.RolledOver? ==> LastAccepted(Current(log)).Some?
    ensures GoodEpochs(log + [e])
  {
    EpochsSnoc(log, e);
    if !e.RolledOver? {
      WellFormedSnoc(Current(log), e);
    }
  }

  /** An accepted claim extends the current epoch. */
  lemma AcceptKeepsBooks(s: ClaimerState, tx: Tx)
    requires Books(s) && tx.payload.NanoPayPayload? && tx.Amount() > 0
    requires s.id.Some? ==> s.id.value == tx.payload.np.id && s.amount < tx.Amount()
    ensures Books(Accept(s, tx, tx.payload.np))
  {
    hide GoodEpochs, Epochs, LastAccepted, Unsubmitted, Claimed;
    var e := Accepted(tx);
    GoodEpochsSnoc(s.log, e);
    EpochsSnoc(s.log, e);
    LastSnoc(Current(s.log), e);
    UnsubmittedSnoc(s.log, e);
  }

  lemma ClearKeepsBooks(s: ClaimerState, tx: Tx)
    requires Books(s) && tx.Amount() >= 0
    ensures Books(Cleared(s, tx))
  {
    hide GoodEpochs, Epochs, LastAccepted, Unsubmitted, Claimed;
    var e := Submitted(tx);
    GoodEpochsSnoc(s.log, e);
    EpochsSnoc(s.log, e);
    LastSnoc(Current(s.log), e);
    UnsubmittedSnoc(s.log, e);
  }

  lemma RollOverKeepsBooks(s: ClaimerState)
    requires Books(s) && s.id.Some?
    ensures Books(RollOver(s))
  {
    hide GoodEpochs, Epochs, Unsubmitted, Claimed;
    GoodEpochsSnoc(s.log, RolledOver);
    EpochsSnoc(s.log, RolledOver);
    ClaimedSnoc(Closed(s.log), Current(s.log));
    UnsubmittedSnoc(s.log, RolledOver);
    WrapSum(s.prevClaimed, Claimed(Closed(s.log)), s.amount);
  }

  lemma AcceptRefines(s: ClaimerState, tx: Tx)
    requires Refines(s) && tx.payload.NanoPayPayload? && tx.Amount() > 0
    requires s.id.Some? ==> s.id.value == tx.payload.np.id && s.amount < tx.Amount()
    ensures Refines(Accept(s, tx, tx.payload.np))
  {
    hide GoodEpochs, Counters, SubmissionsJustified;
    AcceptKeepsBooks(s, tx);
    JustifiedSnoc(s.log, Accepted(tx));
  }

  lemma SubmitRefines(c: ClaimerConfig, s: ClaimerState, force: bool, sendOk: bool)
    requires Refines(s)
    ensures Refines(FlushState(c, s, force, sendOk).0)
  {
    if s.tx.Some? {
      hide GoodEpochs, SubmissionsJustified, Epochs, LastAccepted, Claimed;
      ClearKeepsBooks(s, s.tx.value);
      JustifiedSnoc(s.log, Submitted(s.tx.value));
    }
  }

  lemma RollOverRefines(s: ClaimerState)
    requires Refines(s) && s.id.Some?
    ensures Refines(RollOver(s))
  {
    hide GoodEpochs, Counters, SubmissionsJustified;
    RollOverKeepsBooks(s);
    JustifiedSnoc(s.log, RolledOver);
  }

  lemma SwitchRefines(c: ClaimerConfig, s: ClaimerState, np: Payment, flushOk: bool)
    requires Refines(s)
    ensures Refines(Switch(c, s, np, flushOk).0)
    ensures Switch(c, s, np, flushOk).1.Ok? && Switch(c, s, np, flushOk).0.id.Some? ==>
              var t := Switch(c, s, np, flushOk).0; t == s && t.id.value == np.id && t.amount < np.amount
  {
    hide Refines;
    if s.id.Some? && s.id.value != np.id {
      SubmitRefines(c, s, false, flushOk);
      var f := FlushState(c, s, false, flushOk).0;
      if FlushState(c, s, false, flushOk).1.Ok? {
        RollOverRefines(f);
      }
    }
  }

  /** A claim stops before the switch, at the switch, or goes all the way. */
  lemma ClaimShape(c: ClaimerConfig, s: ClaimerState, tx: Tx, env: ClaimEnv)
    ensures var (s', r) := ClaimState(c, s, tx, env);
            || (s' == s && r.Err?)
            || (&& tx.payload.NanoPayPayload? && env.verdict == Ok(true)
                && var (t, sw) := Switch(c, s, tx.payload.np, env.flushOk);
                   (s' == t && r.Err?)
                   || (sw.Ok? && r.Ok? && s' == Accept(t, tx, tx.payload.np)))
  {
  }

  lemma ClaimRefines(c: ClaimerConfig, s: ClaimerState, tx: Tx, env: ClaimEnv)
    requires Refines(s)
    requires env.verdict == Ok(true) ==> tx.Amount() > 0
    ensures Refines(ClaimState(c, s, tx, env).0)
  {
    ClaimShape(c, s, tx, env);
    var s' := ClaimState(c, s, tx, env).0;
    if s' != s {
      SwitchRefines(c, s, tx.payload.np, env.flushOk);
      var t := Switch(c, s, tx.payload.np, env.flushOk).0;
      if s' != t {
        AcceptRefines(t, tx);
      }
    }
  }

  lemma StepRefines(c: ClaimerConfig, s: ClaimerState, op: Op)
    requires Refines(s) && Sound(op)
    ensures Refines(Step(c, s, op))
  {
    match op
    case Close =>
    case Flush(force, sendOk) => SubmitRefines(c, s, force, sendOk);
    case Claim(tx, env) => ClaimRefines(c, s, tx, env);
  }

  lemma {:induction false} RunRefines(c: ClaimerConfig, ops: seq<Op>)
    requires AllSound(ops)
    ensures Refines(Run(c, ops))
  {
    if ops == [] {
      assert Epochs([]) == [[]];
    } else {
      RunRefines(c, ops[..|ops| - 1]);
      StepRefines(c, Run(c, ops[..|ops| - 1]), ops[|ops| - 1]);
    }
  }

  /**
   * The claimer refines the log: after every run of claims (accepted or failing anywhere), flushes
   * and closes, the counters are exactly what the epochs of the log say.
   */
  lemma ClaimerRefinesLog(c: ClaimerConfig, ops: seq<Op>)
    requires AllSound(ops)
    ensures Refines(Run(c, ops))
    ensures IsWrapOf(Total(Run(c, ops)), Claimed(Epochs(Run(c, ops).log)))
    ensures 0 <= Claimed(Epochs(Run(c, ops).log)) < I64_LIMIT ==>
              Total(Run(c, ops)) == Claimed(Epochs(Run(c, ops).log))
  {
    RunRefines(c, ops);
    TotalIsClaimed(Run(c, ops));
    if 0 <= Claimed(Epochs(Run(c, ops).log)) < I64_LIMIT {
      WrapExact(Total(Run(c, ops)), Claimed(Epochs(Run(c, ops).log)));
    }
  }

  lemma TotalIsClaimed(s: ClaimerState)
    requires Books(s)
    ensures IsWrapOf(Total(s), Claimed(Epochs(s.log)))
  {
    ClaimedByCounters(s.log);
    WrapSum(s.prevClaimed, Claimed(Closed(s.log)), s.amount);
  }

  /** Between two submissions the second one's transaction is accepted: no acceptance is submitted twice. */
  lemma NoDoubleSubmission(c: ClaimerConfig, ops: seq<Op>, i: nat, j: nat)
    requires AllSound(ops)
    requires i < j < |Run(c, ops).log|
    requires Run(c, ops).log[i].Submitted? && Run(c, ops).log[j].Submitted?
    ensures exists k :: i < k < j && Run(c, ops).log[k] == Accepted(Run(c, ops).log[j].tx)
  {
    hide Run, Counters, Unsubmitted, Epochs, WellFormed;
    RunRefines(c, ops);
    var log := Run(c, ops).log;
    var k := AcceptanceAfter(log, i, j, log[j].tx);
  }

  lemma {:induction false} AcceptanceAfter(log: seq<Event>, i: nat, j: nat, t: Tx) returns (k: nat)
    requires i < j <= |log| && log[i].Submitted?
    requires Unsubmitted(log[..j]) == Some(t)
    ensures i < k < j && log[k] == Accepted(t)
    decreases j
  {
    assert log[..j][..j - 1] == log[..j - 1];
    if log[j - 1].Accepted? {
      k := j - 1;
    } else {
      k := AcceptanceAfter(log, i, j - 1, t);
    }
  }

  lemma AcceptAddsToClaimed(s: ClaimerState, tx: Tx)
    requires tx.payload.NanoPayPayload?
    requires AmountOf(LastAccepted(Current(s.log))) <= tx.Amount()
    ensures Claimed(Epochs(s.log)) <= Claimed(Epochs(Accept(s, tx, tx.payload.np).log))
  {
  }

  /** The claimed value never goes down, whatever the step and however it fails. */
  lemma ClaimedNeverDecreases(c: ClaimerConfig, s: ClaimerState, op: Op)
    requires Refines(s) && Sound(op)
    ensures Claimed(Epochs(s.log)) <= Claimed(Epochs(Step(c, s, op).log))
  {
    match op
    case Close =>
    case Flush(force, sendOk) => FlushKeepsClaimed(c, s, force, sendOk);
    case Claim(tx, env) =>
      ClaimShape(c, s, tx, env);
      var s' := ClaimState(c, s, tx, env).0;
      if s' != s {
        var t := Switch(c, s, tx.payload.np, env.flushOk).0;
        SwitchKeepsClaimed(c, s, tx.payload.np, env.flushOk);
        SwitchRefines(c, s, tx.payload.np, env.flushOk);
        if s' != t {
          AcceptAddsToClaimed(t, tx);
        }
      }
  }

  lemma ClaimedByCounters(log: seq<Event>)
    ensures Claimed(Epochs(log)) == Claimed(Closed(log)) + AmountOf(LastAccepted(Current(log)))
  {
  }

  lemma FlushKeepsClaimed(c: ClaimerConfig, s: ClaimerState, force: bool, sendOk: bool)
    ensures var s' := FlushState(c, s, force, sendOk).0;
            && Closed(s'.log) == Closed(s.log)
            && LastAccepted(Current(s'.log)) == LastAccepted(Current(s.log))
            && Claimed(Epochs(s'.log)) == Claimed(Epochs(s.log))
  {
    var s' := FlushState(c, s, force, sendOk).0;
    if s.tx.Some? {
      EpochsSnoc(s.log, Submitted(s.tx.value));
      LastSnoc(Current(s.log), Submitted(s.tx.value));
    }
    ClaimedByCounters(s.log);
    ClaimedByCounters(s'.log);
  }

  lemma NothingAccepted()
    ensures LastAccepted([]) == None
  {
  }

  lemma SwitchKeepsClaimed(c: ClaimerConfig, s: ClaimerState, np: Payment, flushOk: bool)
    ensures Claimed(Epochs(Switch(c, s, np, flushOk).0.log)) == Claimed(Epochs(s.log))
  {
    hide Epochs, Closed, Current, Claimed, FlushState;
    NothingAccepted();
    if s.id.Some? && s.id.value != np.id {
      FlushKeepsClaimed(c, s, false, flushOk);
      var f := FlushState(c, s, false, flushOk).0;
      EpochsSnoc(f.log, RolledOver);
      ClaimedByCounters(f.log);
      ClaimedByCounters(f.log + [RolledOver]);
    }
  }
}
