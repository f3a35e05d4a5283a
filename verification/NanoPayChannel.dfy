/**
 * Sender and claimer put together over a link that may lose and repeat transactions but does not
 * reorder them. A run is any interleaving of issues, deliveries, flushes and a close.
 */
module NanoPayChannel {
  import opened MachineInts
  import opened Common
  import opened NanoPay

  /** One issued transaction; `base` is the sum of all deltas issued before its channel opened. */
  datatype Entry = Entry(tx: Tx, delta: u64, height: u32, base: nat)

  /** `delivered` is one more than the index last delivered, `last` the index last accepted. */
  datatype System = System(
    sender: SenderState,
    claimer: ClaimerState,
    issued: seq<Entry>,
    delivered: nat,
    last: nat)

  datatype Setup = Setup(payer: SenderConfig, payee: ClaimerConfig)

  datatype Move =
    | Issue(height: Option<u32>, delta: u64, fee: u64, freshId: u64)
    | Deliver(k: nat, env: ClaimEnv)
    | Flush(force: bool, sendOk: bool)
    | Close

  ghost function Start(firstId: u64): System {
    System(NewSender(firstId), INITIAL_CLAIMER, [], 0, 0)
  }

  /** The sum of the deltas the sender was asked to pay. */
  ghost function Paid(issued: seq<Entry>): nat {
    if issued == [] then 0 else Paid(issued[..|issued| - 1]) + issued[|issued| - 1].delta
  }

  ghost function NewEntry(u: Setup, y: System, height: u32, delta: u64, fee: u64, freshId: u64): Entry {
    var s := IssueState(y.sender, height, delta, freshId);
    Entry(IssuedTx(u.payer, s, fee), delta, height,
          if Resets(y.sender, height) || y.issued == [] then Paid(y.issued)
          else y.issued[|y.issued| - 1].base)
  }

  ghost function Next(u: Setup, y: System, m: Move): System {
    match m
    case Issue(h, delta, fee, freshId) =>
      if h.None? then y
      else y.(sender := IssueState(y.sender, h.value, delta, freshId),
              issued := y.issued + [NewEntry(u, y, h.value, delta, fee, freshId)])
    case Deliver(k, env) =>
      if k >= |y.issued| then y
      else
        var (s, r) := ClaimState(u.payee, y.claimer, y.issued[k].tx, env);
        y.(claimer := s, delivered := k + 1, last := if r.Ok? then k else y.last)
    case Flush(force, sendOk) => y.(claimer := FlushState(u.payee, y.claimer, force, sendOk).0)
    case Close => y.(claimer := y.claimer.(closed := true))
  }

  /** In-order delivery, with loss and repetition; the transaction check only passes positive amounts. */
  ghost predicate InOrder(y: System, m: Move) {
    m.Deliver? ==>
      && y.delivered <= m.k + 1 && m.k < |y.issued|
      && (m.env.verdict == Ok(true) ==> y.issued[m.k].tx.Amount() > 0)
  }

  ghost function Run(u: Setup, firstId: u64, ms: seq<Move>): System {
    if ms == [] then Start(firstId) else Next(u, Run(u, firstId, ms[..|ms| - 1]), ms[|ms| - 1])
  }

  ghost predicate InOrderRun(u: Setup, firstId: u64, ms: seq<Move>) {
    forall i :: 0 <= i < |ms| ==> InOrder(Run(u, firstId, ms[..i]), ms[i])
  }

  // ------------------------------------------------------ the issued stream

  ghost function PaidTo(issued: seq<Entry>, k: nat): nat
    requires k <= |issued|
  {
    Paid(issued[..k])
  }

  ghost predicate EntryOk(issued: seq<Entry>, i: nat)
    requires i < |issued|
  {
    && issued[i].tx.payload.NanoPayPayload?
    && issued[i].base <= PaidTo(issued, i)
    && issued[i].tx.Amount() <= PaidTo(issued, i + 1) - issued[i].base
  }

  /** A later entry is of the same channel, or its channel opened after the earlier entry. */
  ghost predicate PairOk(issued: seq<Entry>, i: nat, j: nat)
    requires i < j < |issued|
  {
    && issued[i].tx.payload.NanoPayPayload? && issued[j].tx.payload.NanoPayPayload?
    && issued[i].base <= issued[j].base
    && (issued[i].tx.payload.np.id == issued[j].tx.payload.np.id || PaidTo(issued, i + 1) <= issued[j].base)
  }

  ghost predicate StreamOk(y: System) {
    && (forall i :: 0 <= i < |y.issued| ==> EntryOk(y.issued, i))
    && (forall i, j :: 0 <= i < j < |y.issued| ==> PairOk(y.issued, i, j))
    && (y.issued == [] ==> y.sender.expiration == 0)
    && (y.issued != [] ==>
          var e := y.issued[|y.issued| - 1];
          && e.tx.payload.NanoPayPayload? && e.tx.payload.np.id == y.sender.id
          && y.sender.amount <= Paid(y.issued) - e.base)
  }

  lemma PaidToSnoc(issued: seq<Entry>, e: Entry, k: nat)
    requires k <= |issued|
    ensures PaidTo(issued + [e], k) == PaidTo(issued, k)
    ensures PaidTo(issued, |issued|) == Paid(issued)
    ensures PaidTo(issued + [e], |issued| + 1) == Paid(issued + [e]) == Paid(issued) + e.delta
  {
    assert (issued + [e])[..k] == issued[..k];
    assert (issued + [e])[..|issued|] == issued;
    assert issued[..|issued|] == issued;
    assert (issued + [e])[..|issued| + 1] == issued + [e];
  }

  lemma {:induction false} PaidToMonotone(issued: seq<Entry>, i: nat, j: nat)
    requires i <= j <= |issued|
    ensures PaidTo(issued, i) <= PaidTo(issued, j)
    ensures i < j && issued[j - 1].delta > 0 ==> PaidTo(issued, i) < PaidTo(issued, j)
    decreases j
  {
    if i < j {
      assert issued[..j][..j - 1] == issued[..j - 1];
      PaidToMonotone(issued, i, j - 1);
    }
  }

  /** Appending an entry that fits the last one keeps every entry and every pair in order. */
  lemma SnocKeepsEntries(issued: seq<Entry>, e: Entry, i: nat)
    requires i <= |issued|
    requires forall k :: 0 <= k < |issued| ==> EntryOk(issued, k)
    requires e.tx.payload.NanoPayPayload? && e.base <= Paid(issued)
    requires e.tx.Amount() <= Paid(issued) + e.delta - e.base
    ensures EntryOk(issued + [e], i)
  {
    PaidToSnoc(issued, e, i);
    if i < |issued| {
      PaidToSnoc(issued, e, i + 1);
      assert EntryOk(issued, i);
    }
  }

  lemma SnocKeepsPairs(issued: seq<Entry>, e: Entry, i: nat, j: nat)
    requires i < j <= |issued|
    requires forall k :: 0 <= k < |issued| ==> EntryOk(issued, k)
    requires forall k, l :: 0 <= k < l < |issued| ==> PairOk(issued, k, l)
    requires e.tx.payload.NanoPayPayload?
    requires var d := issued[|issued| - 1];
             e.base == Paid(issued)
             || (d.tx.payload.NanoPayPayload? && d.tx.payload.np.id == e.tx.payload.np.id && e.base == d.base)
    ensures PairOk(issued + [e], i, j)
  {
    var n := |issued|;
    PaidToSnoc(issued, e, i + 1);
    assert EntryOk(issued, i);
    if j < n {
      assert PairOk(issued, i, j);
    } else if e.base == Paid(issued) {
      PaidToMonotone(issued, i, n);
      PaidToMonotone(issued, i + 1, n);
    } else if i < n - 1 {
      assert PairOk(issued, i, n - 1);
    }
  }

  lemma IssueKeepsStream(u: Setup, y: System, h: u32, delta: u64, fee: u64, freshId: u64)
    requires StreamOk(y)
    ensures StreamOk(Next(u, y, Issue(Some(h), delta, fee, freshId)))
  {
    var e := NewEntry(u, y, h, delta, fee, freshId);
    var n := |y.issued|;
    PaidToSnoc(y.issued, e, n);
    if n > 0 {
      assert EntryOk(y.issued, n - 1);
      PaidToMonotone(y.issued, n - 1, n);
    }
    forall i | 0 <= i <= n
      ensures EntryOk(y.issued + [e], i)
    {
      SnocKeepsEntries(y.issued, e, i);
    }
    forall i, j | 0 <= i < j <= n
      ensures PairOk(y.issued + [e], i, j)
    {
      SnocKeepsPairs(y.issued, e, i, j);
    }
  }

  // --------------------------------------------------------------- safety

  /** What the claimer holds never runs ahead of what was issued up to the last accepted entry. */
  ghost predicate Covered(y: System) {
    && y.delivered <= |y.issued|
    && y.claimer.amount >= 0
    && (y.claimer.id.None? ==>
          && y.claimer.amount == 0
          && (y.claimer.prevClaimed <= 0
              || (y.delivered > 0 && y.claimer.prevClaimed <= y.issued[y.delivered - 1].base)))
    && (y.claimer.id.Some? ==>
          && y.last < y.delivered
          && y.issued[y.last].tx.payload.NanoPayPayload?
          && y.claimer.id.value == y.issued[y.last].tx.payload.np.id
          && y.claimer.amount == y.issued[y.last].tx.Amount()
          && y.claimer.prevClaimed <= y.issued[y.last].base)
  }

  ghost predicate Safe(y: System) {
    StreamOk(y) && Covered(y)
  }

  /** After the switch the earlier channels are covered by what was issued before the entry's channel. */
  lemma SwitchCovered(u: Setup, y: System, k: nat, flushOk: bool)
    requires Safe(y) && y.delivered <= k + 1 && k < |y.issued|
    ensures y.issued[k].tx.payload.NanoPayPayload?
    ensures var (t, r) := Switch(u.payee, y.claimer, y.issued[k].tx.payload.np, flushOk);
            && (t.id == y.claimer.id ==> t.amount == y.claimer.amount && t.prevClaimed == y.claimer.prevClaimed)
            && (t.id == y.claimer.id || (t.id.None? && t.amount == 0))
            && (r.Ok? && t.id.Some? ==> t.id.value == y.issued[k].tx.payload.np.id)
            && (t.id.None? ==> t.prevClaimed <= y.issued[k].base)
            && (r.Ok? ==> t.prevClaimed <= y.issued[k].base)
  {
    assert EntryOk(y.issued, k);
    if y.claimer.id.Some? {
      assert EntryOk(y.issued, y.last);
      if y.last < k {
        assert PairOk(y.issued, y.last, k);
      }
    } else if y.delivered > 0 && y.delivered - 1 < k {
      assert PairOk(y.issued, y.delivered - 1, k);
    }
  }

  lemma DeliverKeepsCovered(u: Setup, y: System, k: nat, env: ClaimEnv)
    requires Safe(y) && InOrder(y, Deliver(k, env))
    ensures Covered(Next(u, y, Deliver(k, env)))
  {
    SwitchCovered(u, y, k, env.flushOk);
    assert EntryOk(y.issued, k);
    if y.claimer.id.None? && y.delivered > 0 && y.delivered - 1 < k {
      assert PairOk(y.issued, y.delivered - 1, k);
    }
  }

  lemma NextSafe(u: Setup, y: System, m: Move)
    requires Safe(y) && InOrder(y, m)
    ensures Safe(Next(u, y, m))
  {
    match m
    case Close =>
    case Flush(_, _) =>
    case Deliver(k, env) => DeliverKeepsCovered(u, y, k, env);
    case Issue(h, delta, fee, freshId) =>
      if h.Some? {
        IssueKeepsStream(u, y, h.value, delta, fee, freshId);
      }
  }

  lemma {:induction false} RunSafe(u: Setup, firstId: u64, ms: seq<Move>)
    requires InOrderRun(u, firstId, ms)
    ensures Safe(Run(u, firstId, ms))
  {
    if ms != [] {
      var front := ms[..|ms| - 1];
      forall i | 0 <= i < |front|
        ensures InOrder(Run(u, firstId, front[..i]), front[i])
      {
        assert front[..i] == ms[..i];
      }
      RunSafe(u, firstId, front);
      NextSafe(u, Run(u, firstId, front), ms[|ms| - 1]);
    }
  }

  lemma SafeBound(y: System)
    requires Safe(y)
    ensures Total(y.claimer) <= Paid(y.issued)
  {
    var n := |y.issued|;
    assert y.issued[..n] == y.issued;
    if y.claimer.id.Some? {
      assert EntryOk(y.issued, y.last);
      PaidToMonotone(y.issued, y.last + 1, n);
    } else if y.delivered > 0 {
      assert EntryOk(y.issued, y.delivered - 1);
      PaidToMonotone(y.issued, y.delivered - 1, n);
    }
  }

  /**
   * Safety: in every in-order run, whatever fails and however often ids repeat or counters wrap, the
   * claimer's total is at most the sum of the deltas the sender issued.
   */
  lemma NeverOverclaims(u: Setup, firstId: u64, ms: seq<Move>)
    requires InOrderRun(u, firstId, ms)
    ensures Total(Run(u, firstId, ms).claimer) <= Paid(Run(u, firstId, ms).issued)
  {
    RunSafe(u, firstId, ms);
    SafeBound(Run(u, firstId, ms));
  }
}
