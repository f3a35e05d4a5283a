/**
 * The claimer's books when flushes overlap with claims. The counters still say what the log says; the
 * flush bookkeeping survives exactly as long as every completed flush was of the payment that is last
 * in the channel still open when it clears.
 */
module RaceLoss {
  import opened MachineInts
  import opened Common
  import opened NanoPay
  import opened ClaimerLog
  import opened ClaimerLoss
  import opened FlushRace

  // ------------------------------------------------ what the code may do next

  /** A channel is left right after the caller's flush returned: nothing is pending, or too little is. */
  ghost predicate Flushed(c: ClaimerConfig, s: ClaimerState) {
    s.tx.None? || WrapI64(s.amount - s.prevFlush) < c.minFlush
  }

  /** A payment is taken only if it adds to the open channel or opens one. */
  ghost predicate Adds(s: ClaimerState, tx: Tx) {
    && tx.payload.NanoPayPayload? && tx.Amount() > 0
    && (s.id.Some? ==> s.id.value == tx.payload.np.id && s.amount < tx.Amount())
  }

  ghost predicate Allowed(c: ClaimerConfig, r: Racing, p: Part) {
    match p
    case Take(tx) => Caller in r.flights || Adds(r.s, tx)
    case Leave => Caller in r.flights || (r.s.id.Some? && Flushed(c, r.s))
    case _ => true
  }

  ghost predicate AllowedFrom(c: ClaimerConfig, r: Racing, ps: seq<Part>) {
    forall i :: 0 <= i < |ps| ==> Allowed(c, AfterAll(c, r, ps[..i]), ps[i])
  }

  lemma AllowedSnoc(c: ClaimerConfig, r: Racing, ps: seq<Part>, p: Part)
    ensures AllowedFrom(c, r, ps + [p]) <==> AllowedFrom(c, r, ps) && Allowed(c, AfterAll(c, r, ps), p)
  {
    hide Allowed, AfterAll;
    var l := ps + [p];
    assert l[..|ps|] == ps && l[|ps|] == p;
    forall i | 0 <= i < |ps|
      ensures l[..i] == ps[..i] && l[i] == ps[i]
    {
    }
    if AllowedFrom(c, r, l) {
      assert Allowed(c, AfterAll(c, r, l[..|ps|]), l[|ps|]);
      forall i | 0 <= i < |ps|
        ensures Allowed(c, AfterAll(c, r, ps[..i]), ps[i])
      {
        assert Allowed(c, AfterAll(c, r, l[..i]), l[i]);
      }
    }
  }

  lemma {:induction false} AllowedConcat(c: ClaimerConfig, r: Racing, a: seq<Part>, b: seq<Part>)
    requires AllowedFrom(c, r, a) && AllowedFrom(c, AfterAll(c, r, a), b)
    ensures AllowedFrom(c, r, a + b)
    decreases |b|
  {
    hide Allowed, AllowedFrom, AfterAll;
    if b == [] {
      assert a + b == a;
    } else {
      var front, p := b[..|b| - 1], b[|b| - 1];
      assert b == front + [p] && a + b == (a + front) + [p];
      AllowedSnoc(c, AfterAll(c, r, a), front, p);
      AllowedConcat(c, r, a, front);
      AfterAllConcat(c, r, a, front);
      AllowedSnoc(c, r, a + front, p);
    }
  }

  lemma AllowedOne(c: ClaimerConfig, r: Racing, p: Part)
    requires Allowed(c, r, p)
    ensures AllowedFrom(c, r, [p])
  {
    assert [p][..0] == [];
  }

  lemma FlushedThenLeave(c: ClaimerConfig, s: ClaimerState, np: Payment, flushOk: bool)
    requires Other(s, np) && FlushState(c, s, false, flushOk).1.Ok?
    ensures FlushState(c, s, false, flushOk).0.id.Some? && Flushed(c, FlushState(c, s, false, flushOk).0)
  {
  }

  lemma SwitchAdds(c: ClaimerConfig, s: ClaimerState, tx: Tx, env: ClaimEnv)
    requires ClaimState(c, s, tx, env).1.Ok? && tx.Amount() > 0
    ensures Screen(c, s, tx, env).None? && Adds(Switch(c, s, tx.payload.np, env.flushOk).0, tx)
  {
  }

  /** The calls of the source only do what is allowed, whatever the timed loop has under way. */
  lemma ClaimIsAllowed(c: ClaimerConfig, r: Racing, tx: Tx, env: ClaimEnv)
    requires Kept(r) && Caller !in r.flights
    requires env.verdict == Ok(true) ==> tx.Amount() > 0
    ensures AllowedFrom(c, r, ClaimParts(c, r.s, tx, env))
  {
    hide Kept, FlushState, Admission, AfterAll, AllowedFrom, Adds, Flushed;
    assert AllowedFrom(c, r, []) by {
      NothingToAllow(c, r);
    }
    AfterNone(c, r);
    if Screen(c, r.s, tx, env).None? {
      var np := tx.payload.np;
      var (t, sw) := Switch(c, r.s, np, env.flushOk);
      var flush := FlushParts(false, env.flushOk);
      var first := if !Other(r.s, np) then [] else flush + if sw.Ok? then [Leave] else [];
      if Other(r.s, np) {
        FlushIsParts(c, r, false, env.flushOk);
        FlushIsAllowed(c, r, false, env.flushOk);
        SwitchIsParts(c, r, np, env.flushOk);
        assert flush + [] == flush;
        if sw.Ok? {
          FlushedThenLeave(c, r.s, np, env.flushOk);
          AllowedOne(c, AfterAll(c, r, flush), Leave);
          AllowedConcat(c, r, flush, [Leave]);
        }
      }
      assert AfterAll(c, r, first).s == t;
      assert first + [] == first;
      if ClaimState(c, r.s, tx, env).1.Ok? {
        SwitchAdds(c, r.s, tx, env);
        AllowedOne(c, AfterAll(c, r, first), Take(tx));
        AllowedConcat(c, r, first, [Take(tx)]);
      }
    }
  }

  lemma NothingToAllow(c: ClaimerConfig, r: Racing)
    ensures AllowedFrom(c, r, [])
  {
  }

  lemma FlushIsAllowed(c: ClaimerConfig, r: Racing, force: bool, sendOk: bool)
    ensures AllowedFrom(c, r, FlushParts(force, sendOk))
  {
  }

  // --------------------------------------- the counters are still the log's

  ghost predicate Pays(f: Flight) {
    f.tx.payload.NanoPayPayload? && f.tx.Amount() > 0
  }

  ghost predicate RaceBooks(r: Racing) {
    Kept(r) && Books(r.s) && forall w :: w in r.flights ==> Pays(r.flights[w])
  }

  lemma AfterBooks(c: ClaimerConfig, r: Racing, p: Part)
    requires RaceBooks(r) && Allowed(c, r, p)
    ensures RaceBooks(After(c, r, p))
  {
    AfterKept(c, r, p);
    hide Kept, GoodEpochs, Epochs, LastAccepted, Claimed;
    match p
    case Shut =>
    case Begin(_, _) =>
    case Take(tx) =>
      if Caller !in r.flights {
        AcceptKeepsBooks(r.s, tx);
      }
    case Leave =>
      if Caller !in r.flights {
        RollOverKeepsBooks(r.s);
      }
    case Finish(who, sendOk) =>
      if who in r.flights {
        ClearKeepsBooks(r.s, r.flights[who].tx);
      }
  }

  lemma {:induction false} RaceKeepsBooks(c: ClaimerConfig, ps: seq<Part>)
    requires AllowedFrom(c, IDLE, ps)
    ensures RaceBooks(Race(c, ps))
  {
    if ps == [] {
      assert Epochs([]) == [[]];
    } else {
      hide RaceBooks, Allowed;
      var front, p := ps[..|ps| - 1], ps[|ps| - 1];
      assert ps == front + [p];
      AllowedSnoc(c, IDLE, front, p);
      RaceKeepsBooks(c, front);
      AfterBooks(c, Race(c, front), p);
    }
  }

  /** Over every interleaving the total is what the log says, however flushes and claims overlap. */
  lemma RaceRefinesLog(c: ClaimerConfig, ps: seq<Part>)
    requires AllowedFrom(c, IDLE, ps)
    ensures Books(Race(c, ps).s)
    ensures IsWrapOf(Total(Race(c, ps).s), Claimed(Epochs(Race(c, ps).s.log)))
  {
    RaceKeepsBooks(c, ps);
    TotalIsClaimed(Race(c, ps).s);
  }

  // ------------------------------------------------ which flushes are up to date

  /** Since the flush's payment was accepted nothing but submissions happened. */
  ghost predicate UpToDate(log: seq<Event>, f: Flight) {
    forall i :: f.at < i < |log| ==> log[i].Submitted?
  }

  /** The channel of the flush's payment was not left since. */
  ghost predicate SameEpoch(log: seq<Event>, f: Flight) {
    forall i :: f.at < i < |log| ==> !log[i].RolledOver?
  }

  /** In terms of the flush: it began on an open channel, and since then nothing was taken and no channel left. */
  lemma UpToDateSinceBegin(log: seq<Event>, f: Flight)
    requires Recorded(log, f)
    ensures UpToDate(log, f) <==>
              f.begun == f.at + 1 && forall i :: f.begun <= i < |log| ==> log[i].Submitted?
  {
    UnsubmittedAtMeans(log[..f.begun], f.at);
  }

  /** A flush begins right after its payment was accepted exactly when a channel is open. */
  lemma BeginsOnOpenChannel(r: Racing, k: nat)
    requires Kept(r) && Books(r.s) && UnsubmittedAt(r.s.log) == Some(k)
    ensures k == |r.s.log| - 1 <==> r.s.id.Some?
  {
    hide Claimed, GoodEpochs;
    var log := r.s.log;
    UnsubmittedAtMeans(log, k);
    var n := |log| - 1;
    assert log == log[..n] + [log[n]];
    EpochsSnoc(log[..n], log[n]);
    LastSnoc(Current(log[..n]), log[n]);
    NothingAccepted();
    if k < n {
      assert !Handled(log[n]);
    }
  }

  /** Events since the last rollover are the end of the current epoch. */
  lemma {:induction false} EndOfEpoch(log: seq<Event>, a: nat)
    requires a <= |log| && forall i :: a <= i < |log| ==> !log[i].RolledOver?
    ensures var e, n := Current(log), |log| - a;
            n <= |e| && e[|e| - n..] == log[a..]
    decreases |log|
  {
    if a < |log| {
      var n := |log| - 1;
      assert log == log[..n] + [log[n]];
      EndOfEpoch(log[..n], a);
      EpochsSnoc(log[..n], log[n]);
      assert log[a..] == log[..n][a..] + [log[n]];
    }
  }

  lemma {:induction false} LastOfEnd(e: Epoch, k: nat)
    requires k < |e| && e[k].Accepted? && forall i :: k < i < |e| ==> e[i].Submitted?
    ensures LastAccepted(e) == Some(e[k].tx)
  {
    if k < |e| - 1 {
      LastOfEnd(e[..|e| - 1], k);
    }
  }

  /** As long as its channel is open, a flush is up to date exactly when what it sends is the channel's amount. */
  lemma UpToDateByAmount(s: ClaimerState, f: Flight)
    requires Books(s) && Recorded(s.log, f) && SameEpoch(s.log, f)
    ensures f.tx.Amount() == s.amount <==> UpToDate(s.log, f)
  {
    hide Epochs, Claimed;
    var log, e := s.log, Current(s.log);
    EndOfEpoch(log, f.at);
    var d := |e| - (|log| - f.at);
    forall i | f.at <= i < |log|
      ensures e[d + i - f.at] == log[i]
    {
      assert e[d..][i - f.at] == log[f.at..][i - f.at];
    }
    if UpToDate(log, f) {
      forall j | d < j < |e|
        ensures e[j].Submitted?
      {
        assert e[j] == log[j - d + f.at];
      }
      LastOfEnd(e, d);
    } else {
      var i :| f.at < i < |log| && !log[i].Submitted?;
      LastAcceptedIsTop(e, d + i - f.at);
    }
  }

  // ------------------------------------------------- the flush bookkeeping

  /** Every submission was made in the epoch that accepted its payment. */
  ghost predicate AllSameEpoch(r: Racing) {
    forall n :: n in r.sent ==> n < |r.s.log| && SameEpoch(r.s.log[..n], r.sent[n])
  }

  ghost predicate Booked(c: ClaimerConfig, r: Racing) {
    Healthy(c, r.s) && AllSameEpoch(r)
  }

  ghost predicate Completes(r: Racing, p: Part) {
    p.Finish? && p.sendOk && p.who in r.flights
  }

  /** A completed flush that is not up to date: a payment was taken or its channel left meanwhile. */
  ghost predicate LateClear(r: Racing, p: Part) {
    Completes(r, p) && !UpToDate(r.s.log, r.flights[p.who])
  }

  /** The flushed amount stays right through a clear exactly when what was sent is the open channel's amount. */
  lemma FinishHealthyExactly(c: ClaimerConfig, r: Racing, who: Who)
    requires RaceBooks(r) && Healthy(c, r.s) && who in r.flights
    ensures Healthy(c, After(c, r, Finish(who, true)).s) <==> r.flights[who].tx.Amount() == r.s.amount
  {
    hide Kept, GoodEpochs, Claimed, Epochs;
    var tx := r.flights[who].tx;
    EpochsSnoc(r.s.log, Submitted(tx));
    LastSnoc(Current(r.s.log), Submitted(tx));
  }


  /** A part adds at most one event to the log, and records the flush that a submission ends. */
  lemma AfterGrows(c: ClaimerConfig, r: Racing, p: Part)
    ensures var r' := After(c, r, p);
            && |r.s.log| <= |r'.s.log| && r'.s.log[..|r.s.log|] == r.s.log
            && (if Completes(r, p)
                then |r'.s.log| > |r.s.log| && r'.sent == r.sent[|r.s.log| := r.flights[p.who]]
                else r'.sent == r.sent)
  {
  }

  lemma PrefixOfPrefix(log: seq<Event>, l: seq<Event>, n: nat)
    requires n <= |log| <= |l| && l[..|log|] == log
    ensures l[..n] == log[..n]
  {
    assert l[..|log|][..n] == l[..n];
  }

  /** Leaving a flushed channel loses at most one threshold. */
  lemma LeaveHealthy(c: ClaimerConfig, s: ClaimerState)
    requires Books(s) && Healthy(c, s) && s.id.Some? && Flushed(c, s)
    ensures Healthy(c, RollOver(s))
  {
    CloseEpochHealthy(c, s);
  }

  /** Parts other than a completed flush keep the flush bookkeeping. */
  lemma OthersHealthy(c: ClaimerConfig, r: Racing, p: Part)
    requires RaceBooks(r) && Healthy(c, r.s) && Allowed(c, r, p)
    requires !Completes(r, p)
    ensures Healthy(c, After(c, r, p).s)
  {
    if p.Take? && Caller !in r.flights {
      NothingOpen(r.s);
      hide Healthy, Kept;
      AcceptHealthy(c, r.s, p.tx);
    } else if p.Leave? && Caller !in r.flights {
      hide Healthy, Kept;
      LeaveHealthy(c, r.s);
    }
  }

  lemma NothingOpen(s: ClaimerState)
    requires Books(s)
    ensures s.id.None? ==> s.amount == 0
  {
  }

  lemma SameEpochSnoc(c: ClaimerConfig, r: Racing, p: Part)
    requires AllSameEpoch(r)
    ensures AllSameEpoch(After(c, r, p)) <==> (Completes(r, p) ==> SameEpoch(r.s.log, r.flights[p.who]))
  {
    var r' := After(c, r, p);
    AfterGrows(c, r, p);
    hide After, SameEpoch;
    forall n | n in r.sent
      ensures r'.s.log[..n] == r.s.log[..n]
    {
      PrefixOfPrefix(r.s.log, r'.s.log, n);
    }
  }

  /** One part keeps the books exactly when it is not a late clear. */
  lemma BookedExactly(c: ClaimerConfig, r: Racing, p: Part)
    requires RaceBooks(r) && Booked(c, r) && Allowed(c, r, p)
    ensures Booked(c, After(c, r, p)) <==> !LateClear(r, p)
  {
    if Completes(r, p) {
      SameEpochSnoc(c, r, p);
      FinishHealthyExactly(c, r, p.who);
      if SameEpoch(r.s.log, r.flights[p.who]) {
        assert Recorded(r.s.log, r.flights[p.who]);
        UpToDateByAmount(r.s, r.flights[p.who]);
      }
      hide Healthy, Books, Kept, After, AllSameEpoch, Recorded;
      assert SameEpoch(r.s.log, r.flights[p.who]) || !UpToDate(r.s.log, r.flights[p.who]);
    } else {
      SameEpochSnoc(c, r, p);
      OthersHealthy(c, r, p);
    }
  }

  /** Every completed flush of the run was up to date when it cleared. */
  ghost predicate AllUpToDate(r: Racing) {
    forall n :: n in r.sent ==> n < |r.s.log| && UpToDate(r.s.log[..n], r.sent[n])
  }

  lemma AllUpToDateSnoc(c: ClaimerConfig, r: Racing, p: Part)
    requires Kept(r)
    ensures AllUpToDate(After(c, r, p)) <==> AllUpToDate(r) && !LateClear(r, p)
  {
    var r' := After(c, r, p);
    AfterGrows(c, r, p);
    hide After, Recorded, UpToDate;
    forall n | n in r.sent
      ensures n < |r.s.log| && r'.s.log[..n] == r.s.log[..n]
    {
      PrefixOfPrefix(r.s.log, r'.s.log, n);
    }
    if AllUpToDate(r') {
      forall n | n in r.sent
        ensures UpToDate(r.s.log[..n], r.sent[n])
      {
        assert n in r'.sent;
      }
    }
  }

  /** The books are right at every point of the run. */
  ghost predicate AlwaysBooked(c: ClaimerConfig, ps: seq<Part>) {
    forall k :: 0 <= k <= |ps| ==> Booked(c, Race(c, ps[..k]))
  }

  lemma AlwaysBookedSnoc(c: ClaimerConfig, front: seq<Part>, p: Part)
    ensures AlwaysBooked(c, front + [p]) <==> AlwaysBooked(c, front) && Booked(c, Race(c, front + [p]))
    ensures AlwaysBooked(c, front) ==> Booked(c, Race(c, front))
  {
    hide Booked, Race;
    var l := front + [p];
    assert l[..|l|] == l && front[..|front|] == front;
    forall k | 0 <= k <= |front|
      ensures l[..k] == front[..k]
    {
    }
    if AlwaysBooked(c, l) {
      forall k | 0 <= k <= |front|
        ensures Booked(c, Race(c, front[..k]))
      {
        assert Booked(c, Race(c, l[..k]));
      }
      assert Booked(c, Race(c, l[..|l|]));
    }
    if AlwaysBooked(c, front) {
      assert Booked(c, Race(c, front[..|front|]));
    }
  }

  lemma BookedAtFirst(c: ClaimerConfig)
    ensures AlwaysBooked(c, []) && AllUpToDate(IDLE) && Race(c, []) == IDLE
  {
    assert Epochs([]) == [[]];
  }

  /** The books are right at every point of an interleaving exactly when every completed flush was up to date. */
  lemma {:induction false} BookedRunsExactly(c: ClaimerConfig, ps: seq<Part>)
    requires AllowedFrom(c, IDLE, ps)
    ensures AlwaysBooked(c, ps) <==> AllUpToDate(Race(c, ps))
  {
    if ps == [] {
      BookedAtFirst(c);
    } else {
      hide RaceBooks, Booked, AlwaysBooked, AllUpToDate, AllowedFrom, Allowed, LateClear, After, Kept;
      var front, p := ps[..|ps| - 1], ps[|ps| - 1];
      assert ps == front + [p];
      AllowedSnoc(c, IDLE, front, p);
      BookedRunsExactly(c, front);
      RaceKeepsBooks(c, front);
      RaceKept(c, front);
      AllUpToDateSnoc(c, Race(c, front), p);
      AlwaysBookedSnoc(c, front, p);
      if AlwaysBooked(c, front) {
        BookedExactly(c, Race(c, front), p);
      }
    }
  }

  lemma UpToDateIsBooked(c: ClaimerConfig, ps: seq<Part>)
    requires AllowedFrom(c, IDLE, ps) && AllUpToDate(Race(c, ps))
    ensures Booked(c, Race(c, ps))
  {
    hide AllUpToDate, Booked, AllowedFrom;
    BookedRunsExactly(c, ps);
    assert ps[..|ps|] == ps;
    assert Booked(c, Race(c, ps[..|ps|]));
  }

  // ----------------------------------------------------------- how much is lost

  /** Bounded loss over every interleaving whose completed flushes were all up to date. */
  lemma RaceLossIsBounded(c: ClaimerConfig, ps: seq<Part>)
    requires AllowedFrom(c, IDLE, ps) && AllUpToDate(Race(c, ps))
    ensures var s := Race(c, ps).s;
            && 0 <= s.prevFlush <= s.amount
            && (s.id.Some? ==>
                  (s.tx.None? <==> AmountOf(LastSubmitted(Current(s.log))) == AmountOf(LastAccepted(Current(s.log)))))
            && (forall e :: e in Closed(s.log) ==> SmallLoss(c, e))
            && 0 <= Claimed(Epochs(s.log)) - Redeemed(Epochs(s.log))
                 <= |Closed(s.log)| * Threshold(c) + (s.amount - s.prevFlush)
  {
    UpToDateIsBooked(c, ps);
    RaceKeepsBooks(c, ps);
    hide AllUpToDate, Kept, AllowedFrom;
    HealthyLoss(c, Race(c, ps).s);
  }

  /** What a channel is left with when nothing is pending although not all of it was submitted. */
  ghost function ErasedBy(r: Racing, p: Part): nat {
    if p.Leave? && Caller !in r.flights && r.s.tx.None? && r.s.prevFlush < r.s.amount
    then r.s.amount - r.s.prevFlush else 0
  }

  ghost function Erased(c: ClaimerConfig, ps: seq<Part>): nat {
    if ps == [] then 0 else Erased(c, ps[..|ps| - 1]) + ErasedBy(Race(c, ps[..|ps| - 1]), ps[|ps| - 1])
  }

  ghost predicate ClosedLoss(c: ClaimerConfig, s: ClaimerState, erased: nat) {
    && s.prevFlush == AmountOf(LastSubmitted(Current(s.log)))
    && Claimed(Closed(s.log)) - Redeemed(Closed(s.log)) <= |Closed(s.log)| * Threshold(c) + erased
  }

  lemma AfterLoss(c: ClaimerConfig, r: Racing, p: Part, erased: nat)
    requires RaceBooks(r) && Allowed(c, r, p) && ClosedLoss(c, r.s, erased)
    ensures ClosedLoss(c, After(c, r, p).s, erased + ErasedBy(r, p))
  {
    hide Kept, GoodEpochs, Epochs, Closed, Current, LastAccepted, LastSubmitted, Claimed, Redeemed;
    var log := r.s.log;
    match p
    case Shut =>
    case Begin(_, _) =>
    case Take(tx) =>
      EpochsSnoc(log, Accepted(tx));
      LastSnoc(Current(log), Accepted(tx));
    case Finish(who, _) =>
      if who in r.flights {
        EpochsSnoc(log, Submitted(r.flights[who].tx));
        LastSnoc(Current(log), Submitted(r.flights[who].tx));
      }
    case Leave =>
      EpochsSnoc(log, RolledOver);
      ClaimedSnoc(Closed(log), Current(log));
      OneMore(|Closed(log)|, Threshold(c));
      NothingSubmitted();
  }

  lemma NothingSubmitted()
    ensures LastSubmitted([]) == None
  {
  }

  lemma {:induction false} RaceClosedLoss(c: ClaimerConfig, ps: seq<Part>)
    requires AllowedFrom(c, IDLE, ps)
    ensures ClosedLoss(c, Race(c, ps).s, Erased(c, ps))
  {
    if ps == [] {
      assert Epochs([]) == [[]];
    } else {
      hide RaceBooks, ClosedLoss, Allowed, After;
      var front, p := ps[..|ps| - 1], ps[|ps| - 1];
      assert ps == front + [p];
      AllowedSnoc(c, IDLE, front, p);
      RaceClosedLoss(c, front);
      RaceKeepsBooks(c, front);
      AfterLoss(c, Race(c, front), p, Erased(c, front));
    }
  }

  /**
   * Loss over every interleaving: at most one threshold for each closed channel, what the open one has
   * not submitted, and what was erased in the channels that were left with nothing pending.
   */
  lemma LossInEveryRace(c: ClaimerConfig, ps: seq<Part>)
    requires AllowedFrom(c, IDLE, ps)
    ensures var s := Race(c, ps).s;
            Claimed(Epochs(s.log)) - Redeemed(Epochs(s.log))
            <= |Closed(s.log)| * Threshold(c) + (s.amount - s.prevFlush) + Erased(c, ps)
  {
    RaceClosedLoss(c, ps);
    RaceKeepsBooks(c, ps);
    hide Kept, GoodEpochs;
    var s := Race(c, ps).s;
    EpochsSnoc(s.log, RolledOver);
    ClaimedSnoc(Closed(s.log), Current(s.log));
  }

  /** Nothing is erased in channels left while every completed flush was up to date. */
  lemma {:induction false} NothingErased(c: ClaimerConfig, ps: seq<Part>)
    requires AllowedFrom(c, IDLE, ps) && AllUpToDate(Race(c, ps))
    ensures Erased(c, ps) == 0
  {
    if ps != [] {
      hide RaceBooks, AllUpToDate, LateClear, After, Kept;
      var front, p := ps[..|ps| - 1], ps[|ps| - 1];
      assert ps == front + [p];
      AllowedSnoc(c, IDLE, front, p);
      RaceKept(c, front);
      AllUpToDateSnoc(c, Race(c, front), p);
      NothingErased(c, front);
      UpToDateIsBooked(c, front);
    }
  }

  // ------------------------------------------------------- what a late clear does

  /** An uninterrupted flush clears late exactly when it is a stale forced flush. */
  lemma StaleFlushIsLate(c: ClaimerConfig, r: Racing, force: bool)
    requires RaceBooks(r) && Healthy(c, r.s) && Caller !in r.flights
    ensures LateClear(After(c, r, Begin(Caller, force)), Finish(Caller, true))
            <==> StaleFlush(r.s, Op.Flush(force, true))
  {
    var b := After(c, r, Begin(Caller, force));
    NothingOpen(r.s);
    if b != r {
      var f := b.flights[Caller];
      var log := r.s.log;
      assert log[..|log|] == log;
      UnsubmittedAtMeans(log, f.at);
      BeginsOnOpenChannel(r, f.at);
      UpToDateSinceBegin(log, f);
    }
  }

  /** Two accepted claims around the copy of a timed flush: a run of calls, without any forced flush. */
  lemma OvertakenIsAllowed(c: ClaimerConfig, a: Tx, b: Tx, env: ClaimEnv)
    requires Overtakes(c, a, b, env) && a.Amount() > 0 && b.Amount() > 0
    ensures AllowedFrom(c, IDLE, Overtaken(c, a, b, env))
  {
    hide ClaimState, ClaimParts, Kept, Sends, AfterAll, AllowedFrom, Recorded;
    var s := ClaimState(c, INITIAL_CLAIMER, a, env).0;
    var first, second := ClaimParts(c, INITIAL_CLAIMER, a, env), ClaimParts(c, s, b, env);
    var begin, finish := Begin(TimedLoop, false), Finish(TimedLoop, true);
    RaceKept(c, []);
    AfterNone(c, IDLE);
    ClaimIsAllowed(c, IDLE, a, env);
    ClaimIsParts(c, IDLE, a, env);
    AllowedOne(c, Race(c, first), begin);
    AllowedConcat(c, IDLE, first, [begin]);
    AfterAllConcat(c, IDLE, first, [begin]);
    AfterOne(c, Race(c, first), begin);
    var r := Race(c, first + [begin]);
    RaceKept(c, first + [begin]);
    ClaimIsAllowed(c, r, b, env);
    AllowedConcat(c, IDLE, first + [begin], second);
    AllowedOne(c, Race(c, first + [begin] + second), finish);
    AllowedConcat(c, IDLE, first + [begin] + second, [finish]);
  }

  /** Such a run ends with the flushed amount of one payment against the other one's, and with nothing pending. */
  lemma OvertakenBreaks(c: ClaimerConfig, a: Tx, b: Tx, env: ClaimEnv)
    requires Overtakes(c, a, b, env) && a.Amount() > 0 && b.Amount() > 0
    ensures var r := Race(c, Overtaken(c, a, b, env));
            && !AllUpToDate(r)
            && r.s.prevFlush == a.Amount() && r.s.amount == b.Amount()
            && r.s.tx == None && r.s.id == Some(b.payload.np.id)
            && (a.Amount() != b.Amount() ==> !Healthy(c, r.s))
  {
    var s := ClaimState(c, INITIAL_CLAIMER, a, env).0;
    OvertakenEnds(c, a, b, env);
    OvertakenIsLost(c, a, b, env);
    ClaimEffect(c, s, b, env);
    hide Race, Overtaken, ClaimState;
    var r := Race(c, Overtaken(c, a, b, env));
    var n := |r.s.log| - 1;
    assert r.s.log[..n][n - 1] == r.s.log[n - 1];
    assert !UpToDate(r.s.log[..n], r.sent[n]);
  }

  /** It happens inside one channel and across two: then more is flushed than the channel's amount. */
  lemma OvertakenIsReachable(across: bool)
    ensures exists c: ClaimerConfig, a: Tx, b: Tx, env: ClaimEnv ::
              && Overtakes(c, a, b, env) && AllowedFrom(c, IDLE, Overtaken(c, a, b, env))
              && (a.payload.np.id != b.payload.np.id <==> across)
              && var s := Race(c, Overtaken(c, a, b, env)).s;
                 s.tx.None? && if across then s.prevFlush > s.amount else s.prevFlush < s.amount
  {
    hide Race, AllowedFrom;
    var c := ClaimerConfig("r", 1);
    var a := Tx(NanoPayPayload(Payment("p", "r", 1, 10, 50, 50)), 0);
    var b := Tx(NanoPayPayload(if across then Payment("p", "r", 2, 5, 50, 50) else Payment("p", "r", 1, 20, 50, 50)), 0);
    var env := ClaimEnv(Some(1), Ok(true), true, Some(20));
    assert Overtakes(c, a, b, env);
    OvertakenIsAllowed(c, a, b, env);
    OvertakenBreaks(c, a, b, env);
  }

  /** A claim of another channel that fails after the switch, such as one whose balance is unknown. */
  ghost function LeftAfter(c: ClaimerConfig, a: Tx, b: Tx, t: Tx, env: ClaimEnv): seq<Part> {
    Overtaken(c, a, b, env) + ClaimParts(c, Race(c, Overtaken(c, a, b, env)).s, t, env.(balance := None))
  }

  lemma LeftEnds(c: ClaimerConfig, a: Tx, b: Tx, t: Tx, env: ClaimEnv)
    requires Overtakes(c, a, b, env) && 0 < a.Amount() && 0 < b.Amount() && t.Amount() > 0
    ensures var r, ps := Race(c, Overtaken(c, a, b, env)), LeftAfter(c, a, b, t, env);
            && AllowedFrom(c, IDLE, ps)
            && Race(c, ps).s == ClaimState(c, r.s, t, env.(balance := None)).0
  {
    hide ClaimState, ClaimParts, Kept, AfterAll, AllowedFrom, Overtaken, Overtakes;
    var first := Overtaken(c, a, b, env);
    OvertakenIsAllowed(c, a, b, env);
    OvertakenEnds(c, a, b, env);
    RaceKept(c, first);
    var r := Race(c, first);
    ClaimIsAllowed(c, r, t, env.(balance := None));
    ClaimIsParts(c, r, t, env.(balance := None));
    var second := ClaimParts(c, r.s, t, env.(balance := None));
    AllowedConcat(c, IDLE, first, second);
    AfterAllConcat(c, IDLE, first, second);
  }

  /** The books of two acceptances in one channel, the submission of the first, and the rollover. */
  lemma FourEvents(a: Tx, b: Tx)
    ensures var log := [Accepted(a), Accepted(b), Submitted(a), RolledOver];
            |Closed(log)| == 1 && Claimed(Epochs(log)) == b.Amount() && Redeemed(Epochs(log)) == a.Amount()
  {
    hide Epochs, Claimed, Redeemed, LastAccepted, LastSubmitted;
    var l0, l1, l2, l3 := [], [Accepted(a)], [Accepted(a), Accepted(b)], [Accepted(a), Accepted(b), Submitted(a)];
    EmptyBooks();
    assert l0 + [Accepted(a)] == l1 && l1 + [Accepted(b)] == l2 && l2 + [Submitted(a)] == l3;
    EpochsSnoc(l0, Accepted(a));
    EpochsSnoc(l1, Accepted(b));
    EpochsSnoc(l2, Submitted(a));
    EpochsSnoc(l3, RolledOver);
    LastSnoc([Accepted(a)], Accepted(b));
    LastSnoc([Accepted(a), Accepted(b)], Submitted(a));
    ClaimedSnoc([], Current(l3));
    ClaimedSnoc([Current(l3)], []);
    assert [] + [Current(l3)] == [Current(l3)];
    assert l3 + [RolledOver] == [Accepted(a), Accepted(b), Submitted(a), RolledOver];
  }

  lemma EmptyBooks()
    ensures Epochs([]) == [[]] && Claimed([]) == 0 && Redeemed([]) == 0
    ensures LastAccepted([]) == None && LastSubmitted([]) == None
  {
  }

  /** After a late clear the bound on the loss fails by any amount: calls of the source can lose `d` in one channel. */
  lemma LossIsUnbounded(d: nat)
    requires 0 < d < I64_LIMIT - 1
    ensures exists c: ClaimerConfig, a: Tx, b: Tx, t: Tx, env: ClaimEnv ::
              Overtakes(c, a, b, env) && AllowedFrom(c, IDLE, LeftAfter(c, a, b, t, env))
              && var s := Race(c, LeftAfter(c, a, b, t, env)).s;
                 Claimed(Epochs(s.log)) - Redeemed(Epochs(s.log))
                 == |Closed(s.log)| * Threshold(c) + (s.amount - s.prevFlush) + d
  {
    hide Race, AllowedFrom, Epochs, Closed, Claimed, Redeemed, Overtaken, LeftAfter;
    var c := ClaimerConfig("r", 1);
    var a := Tx(NanoPayPayload(Payment("p", "r", 1, 1, 50, 50)), 0);
    var b := Tx(NanoPayPayload(Payment("p", "r", 1, d + 1, 50, 50)), 0);
    var t := Tx(NanoPayPayload(Payment("p", "r", 2, 1, 50, 50)), 0);
    var env := ClaimEnv(Some(1), Ok(true), true, Some(d + 1));
    var s := ClaimState(c, INITIAL_CLAIMER, a, env).0;
    assert Overtakes(c, a, b, env);
    OvertakenEnds(c, a, b, env);
    LeftEnds(c, a, b, t, env);
    var r := Race(c, Overtaken(c, a, b, env));
    assert r.s.log == [Accepted(a), Accepted(b), Submitted(a)] && r.s.amount == d + 1 && r.s.prevFlush == 1;
    var s' := Race(c, LeftAfter(c, a, b, t, env)).s;
    assert s' == RollOver(r.s);
    assert s'.log == [Accepted(a), Accepted(b), Submitted(a), RolledOver];
    FourEvents(a, b);
  }
}
