/**
 * Nothing is lost when nothing goes wrong: a run that claims every issued transaction in order, at
 * most one block late, with working RPCs and enough balance, claims exactly what was paid.
 */
module NanoPayDelivery {
  import opened MachineInts
  import opened Common
  import opened NanoPay
  import opened NanoPayChannel

  ghost predicate UnusedId(issued: seq<Entry>, id: u64) {
    forall i :: 0 <= i < |issued| && issued[i].tx.payload.NanoPayPayload? ==> issued[i].tx.payload.np.id != id
  }

  /** The balance read at the check, with what this channel already submitted, covers the payment. */
  ghost predicate BalanceCovers(s: ClaimerState, np: Payment, balance: i64) {
    var back := if s.id.Some? && s.id.value != np.id then 0 else s.prevFlush;
    np.amount <= balance + back < I64_LIMIT
  }

  /** Failed issues and any flush are allowed; a claim is next in line, timely and covered. */
  ghost predicate Smooth(u: Setup, y: System, m: Move) {
    match m
    case Close => false
    case Flush(_, _) => true
    case Issue(h, delta, _, freshId) =>
      h.Some? ==>
        && delta > 0
        && Paid(y.issued) + delta < I64_LIMIT
        && h.value + SENDER_EXPIRATION_DELTA + u.payer.duration < U32_MOD
        && (Resets(y.sender, h.value) ==> UnusedId(y.issued, freshId))
    case Deliver(k, env) =>
      && k == y.delivered < |y.issued|
      && y.issued[k].tx.payload.NanoPayPayload?
      && env.height.Some? && env.height.value <= y.issued[k].height + 1
      && env.verdict == Ok(true) && env.flushOk
      && env.balance.Some? && BalanceCovers(y.claimer, y.issued[k].tx.payload.np, env.balance.value)
  }

  ghost predicate SmoothRun(u: Setup, firstId: u64, ms: seq<Move>) {
    forall i :: 0 <= i < |ms| ==> Smooth(u, Run(u, firstId, ms[..i]), ms[i])
  }

  // ------------------------------------------------------ the issued stream

  /** An entry carries its channel's exact sum and expires late enough to be claimed a block later. */
  ghost predicate Exact(u: Setup, issued: seq<Entry>, i: nat)
    requires i < |issued|
  {
    var e := issued[i];
    && e.tx.payload.NanoPayPayload?
    && e.tx.payload.np.recipient == u.payer.recipient
    && e.delta > 0
    && e.base <= PaidTo(issued, i)
    && e.tx.Amount() == PaidTo(issued, i + 1) - e.base
    && e.height + SENDER_EXPIRATION_DELTA <= e.tx.payload.np.txnExpiration <= e.tx.payload.np.nanoPayExpiration
    && e.height + SENDER_EXPIRATION_DELTA < U32_MOD
  }

  /** Neighbours are of one channel, or the second opens a new one. */
  ghost predicate Linked(issued: seq<Entry>, i: nat)
    requires i + 1 < |issued|
  {
    var d, e := issued[i], issued[i + 1];
    && d.tx.payload.NanoPayPayload? && e.tx.payload.NanoPayPayload?
    && (if d.tx.payload.np.id == e.tx.payload.np.id then e.base == d.base else e.base == PaidTo(issued, i + 1))
  }

  ghost predicate ExactStream(u: Setup, y: System) {
    && Paid(y.issued) < I64_LIMIT
    && (forall i :: 0 <= i < |y.issued| ==> Exact(u, y.issued, i))
    && (forall i :: 0 <= i < |y.issued| - 1 ==> Linked(y.issued, i))
    && (y.issued == [] ==> y.sender.expiration == 0)
    && (y.issued != [] ==>
          var e := y.issued[|y.issued| - 1];
          && e.tx.payload.NanoPayPayload? && e.tx.payload.np.id == y.sender.id
          && y.sender.amount == Paid(y.issued) - e.base
          && y.sender.expiration + u.payer.duration < U32_MOD)
  }

  lemma NewEntryExact(u: Setup, y: System, h: u32, delta: u64, fee: u64, freshId: u64)
    requires ExactStream(u, y) && Smooth(u, y, Issue(Some(h), delta, fee, freshId))
    ensures var e := NewEntry(u, y, h, delta, fee, freshId);
            var l := y.issued + [e];
            && Exact(u, l, |y.issued|)
            && (y.issued != [] ==> Linked(l, |y.issued| - 1))
            && Paid(l) == Paid(y.issued) + delta
  {
    var e := NewEntry(u, y, h, delta, fee, freshId);
    var n := |y.issued|;
    PaidToSnoc(y.issued, e, n);
    if n > 0 {
      assert Exact(u, y.issued, n - 1);
      PaidToMonotone(y.issued, n - 1, n);
    }
  }

  /** An entry and a pair stay as they are when another entry follows. */
  lemma OldEntryStays(u: Setup, issued: seq<Entry>, e: Entry, i: nat)
    requires i < |issued| && Exact(u, issued, i)
    ensures Exact(u, issued + [e], i)
  {
    PaidToSnoc(issued, e, i);
    PaidToSnoc(issued, e, i + 1);
  }

  lemma OldPairStays(issued: seq<Entry>, e: Entry, i: nat)
    requires i + 1 < |issued| && Linked(issued, i)
    ensures Linked(issued + [e], i)
  {
    PaidToSnoc(issued, e, i + 1);
  }

  /** The sender after an issue is where the new entry says. */
  lemma SenderFollows(u: Setup, y: System, h: u32, delta: u64, fee: u64, freshId: u64)
    requires ExactStream(u, y) && Smooth(u, y, Issue(Some(h), delta, fee, freshId))
    ensures var s, e := IssueState(y.sender, h, delta, freshId), NewEntry(u, y, h, delta, fee, freshId);
            && e.tx.payload.NanoPayPayload? && e.tx.payload.np.id == s.id
            && s.amount == Paid(y.issued) + delta - e.base
            && s.expiration + u.payer.duration < U32_MOD
  {
    var n := |y.issued|;
    if n > 0 {
      assert Exact(u, y.issued, n - 1);
    }
  }

  lemma IssueKeepsExact(u: Setup, y: System, h: u32, delta: u64, fee: u64, freshId: u64)
    requires ExactStream(u, y) && Smooth(u, y, Issue(Some(h), delta, fee, freshId))
    ensures ExactStream(u, Next(u, y, Issue(Some(h), delta, fee, freshId)))
  {
    var e := NewEntry(u, y, h, delta, fee, freshId);
    var n := |y.issued|;
    NewEntryExact(u, y, h, delta, fee, freshId);
    SenderFollows(u, y, h, delta, fee, freshId);
    hide Exact, Linked, NewEntry, IssueState, Paid;
    forall i | 0 <= i < n
      ensures Exact(u, y.issued + [e], i)
    {
      OldEntryStays(u, y.issued, e, i);
    }
    forall i | 0 <= i < n - 1
      ensures Linked(y.issued + [e], i)
    {
      OldPairStays(y.issued, e, i);
    }
  }

  // ------------------------------------------------------------ the claimer

  /** Everything delivered is claimed, and nothing else. */
  ghost predicate CaughtUp(y: System) {
    var s, d := y.claimer, y.delivered;
    && d <= |y.issued|
    && !s.closed && s.prevFlush >= 0
    && (s.tx.Some? ==> s.tx.value.payload.NanoPayPayload? && s.tx.value.Amount() > 0)
    && (d == 0 ==> s.id.None? && s.prevClaimed == 0 && s.amount == 0)
    && (d > 0 ==>
          && y.issued[d - 1].tx.payload.NanoPayPayload?
          && s.id == Some(y.issued[d - 1].tx.payload.np.id)
          && s.amount == y.issued[d - 1].tx.Amount()
          && s.prevClaimed == y.issued[d - 1].base)
  }

  ghost predicate InStep(u: Setup, y: System) {
    u.payer.recipient == u.payee.recipient && ExactStream(u, y) && CaughtUp(y)
  }

  /** The switch succeeds and leaves as earlier total exactly what was paid before the entry's channel. */
  lemma SwitchInStep(u: Setup, y: System)
    requires InStep(u, y) && y.delivered < |y.issued|
    ensures Exact(u, y.issued, y.delivered)
    ensures var e := y.issued[y.delivered];
            var (t, r) := Switch(u.payee, y.claimer, e.tx.payload.np, true);
            && r.Ok? && !t.closed && t.prevClaimed == e.base
            && t.prevFlush == (if y.claimer.id.Some? && y.claimer.id.value != e.tx.payload.np.id then 0 else y.claimer.prevFlush)
  {
    var d := y.delivered;
    assert Exact(u, y.issued, d);
    if d > 0 {
      assert Linked(y.issued, d - 1);
      assert Exact(u, y.issued, d - 1);
      PaidToMonotone(y.issued, d, d + 1);
      PaidToMonotone(y.issued, d, |y.issued|);
      assert y.issued[..|y.issued|] == y.issued;
    } else {
      assert y.issued[..0] == [];
    }
  }

  lemma ClaimInStep(u: Setup, y: System, k: nat, env: ClaimEnv)
    requires InStep(u, y) && Smooth(u, y, Deliver(k, env))
    ensures ClaimState(u.payee, y.claimer, y.issued[k].tx, env).1.Ok?
    ensures InStep(u, Next(u, y, Deliver(k, env)))
  {
    SwitchInStep(u, y);
    var e := y.issued[k];
    PaidToMonotone(y.issued, k, k + 1);
  }

  lemma NextInStep(u: Setup, y: System, m: Move)
    requires InStep(u, y) && Smooth(u, y, m)
    ensures InStep(u, Next(u, y, m))
  {
    match m
    case Flush(_, _) =>
    case Deliver(k, env) => ClaimInStep(u, y, k, env);
    case Issue(h, delta, fee, freshId) =>
      if h.Some? {
        IssueKeepsExact(u, y, h.value, delta, fee, freshId);
      }
  }

  lemma {:induction false} RunInStep(u: Setup, firstId: u64, ms: seq<Move>)
    requires u.payer.recipient == u.payee.recipient && SmoothRun(u, firstId, ms)
    ensures InStep(u, Run(u, firstId, ms))
  {
    if ms != [] {
      var front := ms[..|ms| - 1];
      forall i | 0 <= i < |front|
        ensures Smooth(u, Run(u, firstId, front[..i]), front[i])
      {
        assert front[..i] == ms[..i];
      }
      RunInStep(u, firstId, front);
      NextInStep(u, Run(u, firstId, front), ms[|ms| - 1]);
    }
  }

  lemma InStepTotal(u: Setup, y: System)
    requires InStep(u, y)
    ensures Total(y.claimer) == PaidTo(y.issued, y.delivered)
  {
    var d := y.delivered;
    if d > 0 {
      assert Exact(u, y.issued, d - 1);
      PaidToMonotone(y.issued, d, |y.issued|);
      assert y.issued[..|y.issued|] == y.issued;
    } else {
      assert y.issued[..0] == [];
    }
  }

  /**
   * Completeness: along every smooth run, across any number of channel resets, each claim is accepted
   * and the claimer's total is exactly the sum of the deltas claimed so far; once all are claimed it
   * is the sum of all deltas.
   */
  lemma EverythingIsClaimed(u: Setup, firstId: u64, ms: seq<Move>)
    requires u.payer.recipient == u.payee.recipient && SmoothRun(u, firstId, ms)
    ensures var y := Run(u, firstId, ms);
            && y.delivered <= |y.issued|
            && Total(y.claimer) == PaidTo(y.issued, y.delivered)
            && (y.delivered == |y.issued| ==> Total(y.claimer) == Paid(y.issued))
    ensures forall i :: 0 <= i < |ms| && ms[i].Deliver? ==>
              var y := Run(u, firstId, ms[..i]);
              ms[i].k < |y.issued| && ClaimState(u.payee, y.claimer, y.issued[ms[i].k].tx, ms[i].env).1.Ok?
  {
    RunInStep(u, firstId, ms);
    var y := Run(u, firstId, ms);
    InStepTotal(u, y);
    assert y.issued[..|y.issued|] == y.issued;
    forall i | 0 <= i < |ms| && ms[i].Deliver?
      ensures var y := Run(u, firstId, ms[..i]);
              ms[i].k < |y.issued| && ClaimState(u.payee, y.claimer, y.issued[ms[i].k].tx, ms[i].env).1.Ok?
    {
      PrefixSmooth(u, firstId, ms, i);
      RunInStep(u, firstId, ms[..i]);
      ClaimInStep(u, Run(u, firstId, ms[..i]), ms[i].k, ms[i].env);
    }
  }

  lemma PrefixSmooth(u: Setup, firstId: u64, ms: seq<Move>, i: nat)
    requires i <= |ms| && SmoothRun(u, firstId, ms)
    ensures SmoothRun(u, firstId, ms[..i])
  {
    forall k | 0 <= k < i
      ensures Smooth(u, Run(u, firstId, ms[..i][..k]), ms[..i][k])
    {
      assert ms[..i][..k] == ms[..k];
    }
  }

  /** One block late is the limit: a new channel's first payment expires exactly from two blocks late on. */
  lemma LatestClaim(c: SenderConfig, s: SenderState, h: u32, delta: u64, fee: u64, freshId: u64,
                    t: ClaimerState, balance: i64, late: nat)
    requires Resets(s, h) && h + SENDER_EXPIRATION_DELTA + c.duration + late < U32_MOD
    requires WrapI64(balance + t.prevFlush) >= IssuedTx(c, IssueState(s, h, delta, freshId), fee).Amount()
    ensures var np := IssuedTx(c, IssueState(s, h, delta, freshId), fee).payload.np;
            Admission(t, np, h + late, Some(balance)) == if late <= 1 then Ok(()) else Err(ExpiredTransaction)
  {
  }
}
