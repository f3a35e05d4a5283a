/** Payments accumulate: what a sender's channel holds over any sequence of payments. */
module SenderRuns {
  import opened MachineInts
  import opened Common
  import opened NanoPay

  /** One call of the sender; without a height the call fails. `freshId` is the random id it would use. */
  datatype Pay = Pay(height: Option<u32>, delta: u64, freshId: u64)

  ghost function AfterPay(s: SenderState, p: Pay): SenderState {
    if p.height.None? then s else IssueState(s, p.height.value, p.delta, p.freshId)
  }

  ghost function AfterPays(s: SenderState, ps: seq<Pay>): SenderState {
    if ps == [] then s else AfterPay(AfterPays(s, ps[..|ps| - 1]), ps[|ps| - 1])
  }

  /** The deltas of the calls that did not fail. */
  ghost function Sum(ps: seq<Pay>): nat {
    if ps == [] then 0
    else Sum(ps[..|ps| - 1]) + if ps[|ps| - 1].height.Some? then ps[|ps| - 1].delta else 0
  }

  /** A channel opened by this call would not outlive the one that expires at `expiration`. */
  ghost predicate InTime(p: Pay, expiration: u32) {
    p.height.Some? ==> (p.height.value + 5) % U32_MOD <= expiration
  }

  ghost predicate AllInTime(ps: seq<Pay>, expiration: u32) {
    forall i :: 0 <= i < |ps| ==> InTime(ps[i], expiration)
  }

  lemma {:induction false} Accumulates(s: SenderState, ps: seq<Pay>)
    requires s.expiration != 0 && AllInTime(ps, s.expiration) && s.amount + Sum(ps) < U64_MOD
    ensures AfterPays(s, ps) == SenderState(s.id, s.amount + Sum(ps), s.expiration)
  {
    if ps != [] {
      var n := |ps| - 1;
      Accumulates(s, ps[..n]);
      assert InTime(ps[n], s.expiration);
    }
  }

  lemma {:induction false} SumGrows(ps: seq<Pay>, k: nat)
    requires k <= |ps|
    ensures Sum(ps[..k]) <= Sum(ps)
    decreases |ps|
  {
    if k < |ps| {
      assert ps[..|ps| - 1][..k] == ps[..k];
      SumGrows(ps[..|ps| - 1], k);
    } else {
      assert ps[..k] == ps;
    }
  }

  /**
   * While calls come in time they all pay into one channel: every transaction carries its id and the sum
   * paid so far, so the last one carries the sum of all.
   */
  lemma OneChannel(c: SenderConfig, s: SenderState, ps: seq<Pay>, fee: u64, k: nat)
    requires s.expiration != 0 && AllInTime(ps, s.expiration) && s.amount + Sum(ps) < I64_LIMIT
    requires k <= |ps|
    ensures var tx := IssuedTx(c, AfterPays(s, ps[..k]), fee);
            tx.payload.NanoPayPayload? && tx.payload.np.id == s.id && tx.Amount() == s.amount + Sum(ps[..k])
  {
    SumGrows(ps, k);
    Accumulates(s, ps[..k]);
  }

  lemma StaysAt(s: SenderState, ps: seq<Pay>, k: nat)
    requires k <= |ps| && s.expiration != 0 && AllInTime(ps[..k], s.expiration) && s.amount + Sum(ps) < U64_MOD
    ensures AfterPays(s, ps[..k]).id == s.id && AfterPays(s, ps[..k]).expiration == s.expiration
  {
    SumGrows(ps, k);
    Accumulates(s, ps[..k]);
  }

  lemma LatePay(s: SenderState, p: Pay)
    requires s.expiration != 0 && !InTime(p, s.expiration)
    ensures AfterPay(s, p).id == p.freshId
  {
  }

  lemma LeavesAt(s: SenderState, ps: seq<Pay>, k: nat)
    requires s.expiration != 0 && k < |ps| && s.amount + Sum(ps) < U64_MOD
    requires AllInTime(ps[..k], s.expiration) && !InTime(ps[k], s.expiration)
    ensures AfterPays(s, ps[..k + 1]).id == ps[k].freshId
  {
    hide AfterPay, InTime, Sum;
    StaysAt(s, ps, k);
    assert ps[..k + 1][..k] == ps[..k];
    LatePay(AfterPays(s, ps[..k]), ps[k]);
  }

  /** Calls with ids of their own stay in the channel exactly when all of them come in time. */
  lemma OneChannelExactly(s: SenderState, ps: seq<Pay>)
    requires s.expiration != 0 && s.amount + Sum(ps) < U64_MOD
    requires forall i :: 0 <= i < |ps| ==> ps[i].freshId != s.id
    ensures (forall k :: 0 <= k <= |ps| ==> AfterPays(s, ps[..k]).id == s.id) <==> AllInTime(ps, s.expiration)
  {
    hide AfterPays, Sum, InTime;
    if AllInTime(ps, s.expiration) {
      forall k | 0 <= k <= |ps|
        ensures AfterPays(s, ps[..k]).id == s.id
      {
        StaysAt(s, ps, k);
      }
    } else {
      var k := FirstLate(ps, s.expiration);
      LeavesAt(s, ps, k);
    }
  }

  lemma {:induction false} FirstLate(ps: seq<Pay>, expiration: u32) returns (k: nat)
    requires !AllInTime(ps, expiration)
    ensures k < |ps| && AllInTime(ps[..k], expiration) && !InTime(ps[k], expiration)
  {
    var n := |ps| - 1;
    if AllInTime(ps[..n], expiration) {
      k := n;
      assert forall i :: 0 <= i < n ==> ps[..n][i] == ps[i];
    } else {
      k := FirstLate(ps[..n], expiration);
      assert ps[..n][..k] == ps[..k];
    }
  }

  /** The first payment of a new sender opens a channel of that amount. */
  lemma FirstPay(c: SenderConfig, firstId: u64, h: u32, delta: u64, freshId: u64, fee: u64)
    requires delta < I64_LIMIT
    ensures var t := IssueState(NewSender(firstId), h, delta, freshId);
            t.id == freshId && IssuedTx(c, t, fee).payload.NanoPayPayload? && IssuedTx(c, t, fee).Amount() == delta
  {
  }

  /** The payments of one block: the first opens a channel, the others add to it. */
  lemma OneBlock(c: SenderConfig, s: SenderState, h: u32, ps: seq<Pay>, delta: u64, freshId: u64, fee: u64)
    requires (s.expiration == 0 || s.expiration < (h + 5) % U32_MOD) && 0 < (h + 5) % U32_MOD && delta + Sum(ps) < I64_LIMIT
    requires forall i :: 0 <= i < |ps| ==> ps[i].height == Some(h)
    ensures var t := AfterPays(IssueState(s, h, delta, freshId), ps);
            && t.id == freshId
            && IssuedTx(c, t, fee).Amount() == delta + Sum(ps)
  {
    var t := IssueState(s, h, delta, freshId);
    KeepsChannelExactly(s, h, delta, freshId);
    assert ps[..|ps|] == ps;
    OneChannel(c, t, ps, fee, |ps|);
  }
}
