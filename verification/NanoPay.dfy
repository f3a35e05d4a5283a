/**
 * The two ends of a NanoPay channel. Heights, balances, RPC outcomes, the verdict of the
 * transaction check and fresh channel ids are inputs of each step.
 */
module NanoPay {
  import opened MachineInts
  import opened Common

  const SENDER_EXPIRATION_DELTA: u32 := 5
  const RECEIVER_EXPIRATION_DELTA: u32 := 3

  datatype Payment = Payment(
    sender: string,
    recipient: string,
    id: u64,
    amount: i64,
    txnExpiration: u32,
    nanoPayExpiration: u32)

  datatype Payload = NanoPayPayload(np: Payment) | OtherPayload

  datatype Tx = Tx(payload: Payload, fee: i64) {
    function Amount(): i64 {
      if payload.NanoPayPayload? then payload.np.amount else 0
    }
  }

  datatype PayError =
    | RpcFailed
    | NotNanoPay
    | WrongRecipient
    | VerifyFailed
    | IncorrectTransaction
    | ChannelClosed
    | InvalidAmount
    | InsufficientBalance
    | ExpiredTransaction
    | ExpiredNanoPay

  // ---------------------------------------------------------------- sender

  datatype SenderConfig = SenderConfig(payer: string, recipient: string, fee: i64, duration: u32)

  datatype SenderState = SenderState(id: u64, amount: u64, expiration: u32)

  /** A new sender has an id but no open channel. */
  function NewSender(freshId: u64): SenderState {
    SenderState(freshId, 0, 0)
  }

  predicate Resets(s: SenderState, height: u32) {
    s.expiration == 0 || s.expiration < WrapU32(height + SENDER_EXPIRATION_DELTA)
  }

  function IssueState(s: SenderState, height: u32, delta: u64, freshId: u64): SenderState {
    if Resets(s, height)
    then SenderState(freshId, delta, WrapU32(height + SENDER_EXPIRATION_DELTA))
    else s.(amount := WrapU64(s.amount + delta))
  }

  function IssuedTx(c: SenderConfig, s: SenderState, fee: u64): Tx {
    Tx(NanoPayPayload(Payment(c.payer, c.recipient, s.id, WrapI64(s.amount), s.expiration,
                              WrapU32(s.expiration + c.duration))),
       if fee == 0 then c.fee else WrapI64(fee))
  }

  /**
   * A payment goes into the open channel exactly when there is one and it does not expire sooner than a
   * channel opened now; else it is the first one of a new channel.
   */
  lemma KeepsChannelExactly(s: SenderState, height: u32, delta: u64, freshId: u64)
    ensures var t, soon := IssueState(s, height, delta, freshId), (height + 5) % U32_MOD;
            if s.expiration != 0 && soon <= s.expiration
            then t.id == s.id && t.expiration == s.expiration && (t.amount - (s.amount + delta)) % U64_MOD == 0
            else t.id == freshId && t.expiration == soon && t.amount == delta
  {
  }

  /** So a channel opened at one height takes another payment at most until that height. */
  lemma KeptWithinBlock(s: SenderState, first: u32, later: u32, delta: u64, delta': u64, id: u64, id': u64)
    requires (s.expiration == 0 || s.expiration < first + 5) && first + 5 < U32_MOD && later + 5 < U32_MOD && delta + delta' < U64_MOD && id != id'
    ensures var t := IssueState(IssueState(s, first, delta, id), later, delta', id');
            && (t.id == id <==> later <= first)
            && (t.amount == if later <= first then delta + delta' else delta')
  {
  }

  /** What is issued, field by field. */
  lemma IssuedMeans(c: SenderConfig, s: SenderState, fee: u64)
    ensures var tx := IssuedTx(c, s, fee);
            && tx.payload.NanoPayPayload?
            && var np := tx.payload.np;
               && np.sender == c.payer && np.recipient == c.recipient && np.id == s.id
               && (s.amount < I64_LIMIT ==> np.amount == s.amount == tx.Amount())
               && (s.amount - np.amount) % U64_MOD == 0
               && np.txnExpiration == s.expiration
               && (np.nanoPayExpiration - (s.expiration + c.duration)) % U32_MOD == 0
               && (if fee == 0 then tx.fee == c.fee else (fee - tx.fee) % U64_MOD == 0)
  {
  }

  class Sender {
    const config: SenderConfig
    var id: u64
    var amount: u64
    var expiration: u32

    function State(): SenderState
      reads this
    {
      SenderState(id, amount, expiration)
    }

    constructor (config: SenderConfig, freshId: u64)
      ensures this.config == config
      ensures State() == NewSender(freshId)
    {
      this.config := config;
      id, amount, expiration := freshId, 0, 0;
    }

    /** Adds `delta` to the channel, opening a new channel when the current one is too old. */
    method IncreaseAmount(height: Option<u32>, delta: u64, fee: u64, freshId: u64)
      returns (r: Result<Tx, PayError>)
      modifies this
      ensures height.None? ==> r == Err(RpcFailed) && State() == old(State())
      ensures height.Some? ==>
                && State() == IssueState(old(State()), height.value, delta, freshId)
                && r == Ok(IssuedTx(config, State(), fee))
    {
      if height.None? {
        return Err(RpcFailed);
      }
      if expiration == 0 || expiration < WrapU32(height.value + SENDER_EXPIRATION_DELTA) {
        expiration := WrapU32(height.value + SENDER_EXPIRATION_DELTA);
        id := freshId;
        amount := 0;
      }
      amount := WrapU64(amount + delta);
      var newFee := fee;
      if fee == 0 {
        newFee := WrapU64(config.fee);
      }
      var np := Payment(config.payer, config.recipient, id, WrapI64(amount), expiration,
                        WrapU32(expiration + config.duration));
      r := Ok(Tx(NanoPayPayload(np), WrapI64(newFee)));
    }
  }

  // --------------------------------------------------------------- claimer

  /** What the claimer did, in order: the reference its counters are proved against. */
  datatype Event = Accepted(tx: Tx) | Submitted(tx: Tx) | RolledOver

  datatype ClaimerConfig = ClaimerConfig(recipient: string, minFlush: i64)

  datatype ClaimerState = ClaimerState(
    id: Option<u64>,
    amount: i64,
    closed: bool,
    expiration: u32,
    prevClaimed: i64,
    prevFlush: i64,
    tx: Option<Tx>,
    log: seq<Event>)

  const INITIAL_CLAIMER := ClaimerState(None, 0, false, 0, 0, 0, None, [])

  /** The outcome of every remote call one claim may make. */
  datatype ClaimEnv = ClaimEnv(
    height: Option<u32>,
    verdict: Result<bool, PayError>,
    flushOk: bool,
    balance: Option<i64>)

  function FlushState(c: ClaimerConfig, s: ClaimerState, force: bool, sendOk: bool)
    : (ClaimerState, Result<(), PayError>)
  {
    if !force && WrapI64(s.amount - s.prevFlush) < c.minFlush then (s, Ok(()))
    else if s.tx.None? then (s, Ok(()))
    else if s.tx.value.payload.OtherPayload? then (s, Err(NotNanoPay))
    else if !sendOk then (s, Err(RpcFailed))
    else (Cleared(s, s.tx.value), Ok(()))
  }

  /** The state after the submission of `tx`: whatever is pending by then is cleared. */
  function Cleared(s: ClaimerState, tx: Tx): ClaimerState {
    s.(tx := None, expiration := 0, prevFlush := tx.Amount(), log := s.log + [Submitted(tx)])
  }

  /**
   * A flush sends exactly when it is forced or enough is unflushed, and a payment is pending. Then it
   * succeeds exactly when the send does, and that payment is submitted and no longer pending; a failed
   * send is an error and changes nothing, forced or not.
   */
  lemma FlushOutcome(c: ClaimerConfig, s: ClaimerState, force: bool, sendOk: bool)
    ensures var (s', r) := FlushState(c, s, force, sendOk);
            var passes := force || WrapI64(s.amount - s.prevFlush) >= c.minFlush;
            var sends := passes && s.tx.Some? && s.tx.value.payload.NanoPayPayload?;
            && (sends && sendOk ==>
                  && r == Ok(()) && s'.log == s.log + [Submitted(s.tx.value)]
                  && s'.tx == None && s'.prevFlush == s.tx.value.payload.np.amount && s'.expiration == 0
                  && s' == s.(tx := s'.tx, prevFlush := s'.prevFlush, expiration := s'.expiration, log := s'.log))
            && (r == Err(RpcFailed) <==> sends && !sendOk)
            && (r == Err(NotNanoPay) <==> passes && s.tx.Some? && s.tx.value.payload.OtherPayload?)
            && (r.Ok? <==> !(sends && !sendOk) && !(passes && s.tx.Some? && s.tx.value.payload.OtherPayload?))
            && (!(sends && sendOk) ==> s' == s)
  {
  }

  /** Closes the current channel: its amount moves into the total of the channels before it. */
  function RollOver(s: ClaimerState): ClaimerState {
    s.(id := None, prevClaimed := WrapI64(s.prevClaimed + s.amount), prevFlush := 0, amount := 0,
       log := s.log + [RolledOver])
  }

  /** The checks that need no channel state. */
  function Screen(c: ClaimerConfig, s: ClaimerState, tx: Tx, env: ClaimEnv): Option<PayError> {
    if env.height.None? then Some(RpcFailed)
    else if tx.payload.OtherPayload? then Some(NotNanoPay)
    else if tx.payload.np.recipient != c.recipient then Some(WrongRecipient)
    else if env.verdict.Err? then Some(env.verdict.error)
    else if !env.verdict.value then Some(IncorrectTransaction)
    else if s.closed then Some(ChannelClosed)
    else None
  }

  /** The state after the channel switch, and the error that stopped it, if any. */
  function Switch(c: ClaimerConfig, s: ClaimerState, np: Payment, flushOk: bool)
    : (ClaimerState, Result<(), PayError>)
  {
    if s.id.None? then (s, Ok(()))
    else if s.id.value == np.id then
      (s, if s.amount >= np.amount then Err(InvalidAmount) else Ok(()))
    else
      var (f, r) := FlushState(c, s, false, flushOk);
      if r.Err? then (f, r) else (RollOver(f), Ok(()))
  }

  function Admission(s: ClaimerState, np: Payment, height: u32, balance: Option<i64>)
    : Result<(), PayError>
  {
    if balance.None? then Err(RpcFailed)
    else if WrapI64(balance.value + s.prevFlush) < np.amount then Err(InsufficientBalance)
    else if np.txnExpiration <= WrapU32(height + RECEIVER_EXPIRATION_DELTA) then Err(ExpiredTransaction)
    else if np.nanoPayExpiration <= WrapU32(height + RECEIVER_EXPIRATION_DELTA) then Err(ExpiredNanoPay)
    else Ok(())
  }

  function Accept(s: ClaimerState, tx: Tx, np: Payment): ClaimerState {
    s.(id := Some(np.id), tx := Some(tx), expiration := np.txnExpiration, amount := np.amount,
       log := s.log + [Accepted(tx)])
  }

  function ClaimState(c: ClaimerConfig, s: ClaimerState, tx: Tx, env: ClaimEnv)
    : (ClaimerState, Result<i64, PayError>)
  {
    var e := Screen(c, s, tx, env);
    if e.Some? then (s, Err(e.value))
    else
      var np := tx.payload.np;
      var (t, sw) := Switch(c, s, np, env.flushOk);
      if sw.Err? then (t, Err(sw.error))
      else
        var adm := Admission(t, np, env.height.value, env.balance);
        if adm.Err? then (t, Err(adm.error))
        else (Accept(t, tx, np), Ok(WrapI64(t.prevClaimed + np.amount)))
  }

  function Total(s: ClaimerState): i64 {
    WrapI64(s.prevClaimed + s.amount)
  }

  /** Whether the payment is of another channel than the open one. */
  predicate Other(s: ClaimerState, np: Payment) {
    s.id.Some? && s.id.value != np.id
  }

  /** Exactly when a claim is accepted, in terms of the state before it. */
  lemma AcceptedExactly(c: ClaimerConfig, s: ClaimerState, tx: Tx, env: ClaimEnv)
    ensures ClaimState(c, s, tx, env).1.Ok? <==>
              && tx.payload.NanoPayPayload?
              && env.height.Some? && env.balance.Some? && env.verdict == Ok(true)
              && var np := tx.payload.np;
                 var soon := WrapU32(env.height.value + RECEIVER_EXPIRATION_DELTA);
                 && np.recipient == c.recipient && !s.closed
                 && (s.id == Some(np.id) ==> s.amount < np.amount)
                 && (Other(s, np) ==> FlushState(c, s, false, env.flushOk).1.Ok?)
                 && WrapI64(env.balance.value + if Other(s, np) then 0 else s.prevFlush) >= np.amount
                 && np.txnExpiration > soon && np.nanoPayExpiration > soon
  {
  }

  /** What an accepted claim leaves; a refused one leaves the total alone, even when it closed a channel. */
  lemma ClaimEffect(c: ClaimerConfig, s: ClaimerState, tx: Tx, env: ClaimEnv)
    ensures var (s', r) := ClaimState(c, s, tx, env);
            && (r.Ok? ==>
                  && r.value == Total(s') && s'.tx == Some(tx)
                  && s'.id == Some(tx.payload.np.id) && s'.amount == tx.payload.np.amount
                  && s'.expiration == tx.payload.np.txnExpiration
                  && s'.prevClaimed == (if Other(s, tx.payload.np) then Total(s) else s.prevClaimed)
                  && s'.prevFlush == (if Other(s, tx.payload.np) then 0 else s.prevFlush))
            && (r.Err? ==> Total(s') == Total(s))
            && s'.closed == s.closed
  {
  }

  type Check = (bool, PayError)

  /** The checks of a claim in the order they are made, each with the error it gives. */
  ghost function Checks(c: ClaimerConfig, s: ClaimerState, tx: Tx, env: ClaimEnv): seq<Check>
    requires tx.payload.NanoPayPayload? && env.height.Some?
  {
    var np, soon := tx.payload.np, (env.height.value + 3) % U32_MOD;
    var closes := s.id.Some? && s.id.value != np.id;
    var sends := WrapI64(s.amount - s.prevFlush) >= c.minFlush && s.tx.Some?;
    [(np.recipient != c.recipient, WrongRecipient),
     (env.verdict.Err?, if env.verdict.Err? then env.verdict.error else IncorrectTransaction),
     (env.verdict == Ok(false), IncorrectTransaction),
     (s.closed, ChannelClosed),
     (s.id == Some(np.id) && np.amount <= s.amount, InvalidAmount),
     (closes && sends && s.tx.value.payload.OtherPayload?, NotNanoPay),
     (closes && sends && !env.flushOk, RpcFailed),
     (env.balance.None?, RpcFailed),
     (env.balance.Some? && WrapI64(env.balance.value + if closes then 0 else s.prevFlush) < np.amount, InsufficientBalance),
     (np.txnExpiration <= soon, ExpiredTransaction),
     (np.nanoPayExpiration <= soon, ExpiredNanoPay)]
  }

  /** The first of the checks from `k` on that fails, or none. */
  ghost function FirstFailing(checks: seq<Check>, k: nat): Option<PayError>
    requires k <= |checks|
    decreases |checks| - k
  {
    if k == |checks| then None else if checks[k].0 then Some(checks[k].1) else FirstFailing(checks, k + 1)
  }

  /** A claim is refused with the error of the first check that fails. */
  lemma RefusedByFirstFailing(c: ClaimerConfig, s: ClaimerState, tx: Tx, env: ClaimEnv)
    ensures var r := ClaimState(c, s, tx, env).1;
            if env.height.None? then r == Err(RpcFailed)
            else if tx.payload.OtherPayload? then r == Err(NotNanoPay)
            else match FirstFailing(Checks(c, s, tx, env), 0)
                 case Some(e) => r == Err(e)
                 case None => r.Ok?
  {
    if env.height.Some? && tx.payload.NanoPayPayload? {
      var checks := Checks(c, s, tx, env);
      assert |checks| == 11;
      FailingStep(checks, 0);
      FailingStep(checks, 3);
      FailingStep(checks, 6);
      FailingStep(checks, 8);
      assert FirstFailing(checks, 11) == None;
    }
  }

  lemma FailingStep(checks: seq<Check>, k: nat)
    requires k + 3 <= |checks|
    ensures FirstFailing(checks, k) ==
            if checks[k].0 then Some(checks[k].1)
            else if checks[k + 1].0 then Some(checks[k + 1].1)
            else if checks[k + 2].0 then Some(checks[k + 2].1)
            else FirstFailing(checks, k + 3)
  {
    assert FirstFailing(checks, k + 1) == if checks[k + 1].0 then Some(checks[k + 1].1) else FirstFailing(checks, k + 2);
  }

  /**
   * A refused claim changes the state exactly when it got past the checks before the switch, is of
   * another channel, and the flush of the old one did not fail; then the old channel is closed.
   */
  lemma RefusedEffect(c: ClaimerConfig, s: ClaimerState, tx: Tx, env: ClaimEnv)
    requires ClaimState(c, s, tx, env).1.Err?
    ensures var s' := ClaimState(c, s, tx, env).0;
            && (s' != s <==>
                  && env.height.Some? && tx.payload.NanoPayPayload? && tx.payload.np.recipient == c.recipient
                  && env.verdict == Ok(true) && !s.closed
                  && s.id.Some? && s.id.value != tx.payload.np.id
                  && FlushState(c, s, false, env.flushOk).1.Ok?)
            && (s' != s ==>
                  && s'.id == None && s'.amount == 0 && s'.prevFlush == 0 && s'.prevClaimed == Total(s)
                  && s'.tx == FlushState(c, s, false, env.flushOk).0.tx
                  && s'.log == FlushState(c, s, false, env.flushOk).0.log + [RolledOver])
  {
  }

  class Claimer {
    const config: ClaimerConfig
    var id: Option<u64>
    var amount: i64
    var closed: bool
    var expiration: u32
    var prevClaimed: i64
    var prevFlush: i64
    var tx: Option<Tx>
    ghost var log: seq<Event>

    ghost function State(): ClaimerState
      reads this
    {
      ClaimerState(id, amount, closed, expiration, prevClaimed, prevFlush, tx, log)
    }

    constructor (config: ClaimerConfig)
      ensures this.config == config && State() == INITIAL_CLAIMER
    {
      this.config := config;
      id, amount, closed, expiration := None, 0, false, 0;
      prevClaimed, prevFlush, tx, log := 0, 0, None, [];
    }

    method Amount() returns (total: i64)
      ensures total == Total(State())
    {
      total := WrapI64(prevClaimed + amount);
    }

    method Close()
      modifies this`closed
      ensures State() == old(State()).(closed := true)
    {
      closed := true;
    }

    /** Submits the pending transaction, unless too little was claimed since the last submission. */
    method Flush(force: bool, sendOk: bool) returns (r: Result<(), PayError>)
      modifies this
      ensures (State(), r) == FlushState(config, old(State()), force, sendOk)
    {
      if !force && WrapI64(amount - prevFlush) < config.minFlush {
        return Ok(());
      }
      if tx.None? {
        return Ok(());
      }
      if tx.value.payload.OtherPayload? {
        return Err(NotNanoPay);
      }
      var np := tx.value.payload.np;
      if !sendOk {
        return Err(RpcFailed);
      }
      log := log + [Submitted(tx.value)];
      tx := None;
      expiration := 0;
      prevFlush := np.amount;
      return Ok(());
    }

    /** Refuses a payment that adds nothing, and closes the channel when the payment is of another one. */
    method SwitchChannel(np: Payment, flushOk: bool) returns (r: Result<(), PayError>)
      modifies this
      ensures (State(), r) == Switch(config, old(State()), np, flushOk)
    {
      if id.Some? {
        if id.value == np.id {
          if amount >= np.amount {
            return Err(InvalidAmount);
          }
        } else {
          r := Flush(false, flushOk);
          if r.Err? {
            return;
          }
          id := None;
          prevClaimed := WrapI64(prevClaimed + amount);
          prevFlush := 0;
          amount := 0;
          log := log + [RolledOver];
        }
      }
      return Ok(());
    }

    /** Accepts a payment of the current channel, or closes that channel and opens the next one. */
    method Claim(t: Tx, env: ClaimEnv) returns (r: Result<i64, PayError>)
      modifies this
      ensures (State(), r) == ClaimState(config, old(State()), t, env)
    {
      if env.height.None? {
        return Err(RpcFailed);
      }
      if t.payload.OtherPayload? {
        return Err(NotNanoPay);
      }
      var np := t.payload.np;
      if np.recipient != config.recipient {
        return Err(WrongRecipient);
      }
      if env.verdict.Err? {
        return Err(env.verdict.error);
      }
      if !env.verdict.value {
        return Err(IncorrectTransaction);
      }
      if closed {
        return Err(ChannelClosed);
      }
      var sw := SwitchChannel(np, env.flushOk);
      if sw.Err? {
        return Err(sw.error);
      }
      if env.balance.None? {
        return Err(RpcFailed);
      }
      if WrapI64(env.balance.value + prevFlush) < np.amount {
        return Err(InsufficientBalance);
      }
      if np.txnExpiration <= WrapU32(env.height.value + RECEIVER_EXPIRATION_DELTA) {
        return Err(ExpiredTransaction);
      }
      if np.nanoPayExpiration <= WrapU32(env.height.value + RECEIVER_EXPIRATION_DELTA) {
        return Err(ExpiredNanoPay);
      }
      id := Some(np.id);
      tx := Some(t);
      expiration := np.txnExpiration;
      amount := np.amount;
      log := log + [Accepted(t)];
      return Ok(WrapI64(prevClaimed + amount));
    }
  }
}
