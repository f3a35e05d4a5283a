/**
 * Flushes are not atomic: the pending transaction is copied, sent, and only then cleared, and the
 * timed loop flushes beside the caller. A run interleaves the parts between which the source waits.
 */
module FlushRace {
  import opened MachineInts
  import opened Common
  import opened NanoPay

  /** The caller's own flush (its claims flush too), and the timed loop's. */
  datatype Who = Caller | TimedLoop

  /** A flush under way: what it sends, and the lengths of the log when that was accepted and when it began. */
  datatype Flight = Flight(tx: Tx, at: nat, begun: nat)

  /** `sent` tells for each submission in the log which flush it ended. */
  datatype Racing = Racing(s: ClaimerState, flights: map<Who, Flight>, sent: map<nat, Flight>)

  /** What happens between two waits. A claim is `Leave` and `Take`, with the caller's flush before them. */
  datatype Part =
    | Begin(who: Who, force: bool)
    | Finish(who: Who, sendOk: bool)
    | Leave
    | Take(tx: Tx)
    | Shut

  /** Where in the log the pending transaction was accepted. */
  ghost function UnsubmittedAt(log: seq<Event>): Option<nat> {
    if log == [] then None
    else match log[|log| - 1]
         case Accepted(_) => Some(|log| - 1)
         case Submitted(_) => None
         case RolledOver => UnsubmittedAt(log[..|log| - 1])
  }

  /** Whether a flush goes as far as sending something. */
  predicate Sends(c: ClaimerConfig, s: ClaimerState, force: bool) {
    && (force || WrapI64(s.amount - s.prevFlush) >= c.minFlush)
    && s.tx.Some? && s.tx.value.payload.NanoPayPayload?
  }

  ghost function After(c: ClaimerConfig, r: Racing, p: Part): Racing {
    match p
    case Begin(who, force) =>
      if who in r.flights || !Sends(c, r.s, force) || UnsubmittedAt(r.s.log).None? then r
      else r.(flights := r.flights[who := Flight(r.s.tx.value, UnsubmittedAt(r.s.log).value, |r.s.log|)])
    case Finish(who, sendOk) =>
      if who !in r.flights then r
      else
        var f := r.flights[who];
        var rest := r.(flights := r.flights - {who});
        if !sendOk then rest
        else rest.(s := Cleared(r.s, f.tx), sent := r.sent[|r.s.log| := f])
    case Leave => if Caller in r.flights then r else r.(s := RollOver(r.s))
    case Take(tx) =>
      if Caller in r.flights || tx.payload.OtherPayload? then r else r.(s := Accept(r.s, tx, tx.payload.np))
    case Shut => r.(s := r.s.(closed := true))
  }

  const IDLE := Racing(INITIAL_CLAIMER, map[], map[])

  ghost function AfterAll(c: ClaimerConfig, r: Racing, ps: seq<Part>): Racing {
    if ps == [] then r else After(c, AfterAll(c, r, ps[..|ps| - 1]), ps[|ps| - 1])
  }

  ghost function Race(c: ClaimerConfig, ps: seq<Part>): Racing {
    AfterAll(c, IDLE, ps)
  }

  // ---------------------------------------------------- whole calls are parts

  ghost function FlushParts(force: bool, sendOk: bool): seq<Part> {
    [Begin(Caller, force), Finish(Caller, sendOk)]
  }

  ghost function ClaimParts(c: ClaimerConfig, s: ClaimerState, tx: Tx, env: ClaimEnv): seq<Part> {
    if Screen(c, s, tx, env).Some? then []
    else
      var np := tx.payload.np;
      var (t, sw) := Switch(c, s, np, env.flushOk);
      (if !Other(s, np) then [] else FlushParts(false, env.flushOk) + if sw.Ok? then [Leave] else [])
      + if ClaimState(c, s, tx, env).1.Ok? then [Take(tx)] else []
  }

  // ------------------------------------------------------------ bookkeeping

  ghost predicate Recorded(log: seq<Event>, f: Flight) {
    && f.begun <= |log|
    && UnsubmittedAt(log[..f.begun]) == Some(f.at)
    && f.at < f.begun && log[f.at] == Accepted(f.tx)
  }

  ghost predicate Pending(log: seq<Event>, tx: Option<Tx>) {
    match UnsubmittedAt(log)
    case None => tx == None
    case Some(k) => k < |log| && log[k].Accepted? && tx == Some(log[k].tx)
  }

  ghost predicate Kept(r: Racing) {
    && Pending(r.s.log, r.s.tx)
    && (forall w :: w in r.flights ==> Recorded(r.s.log, r.flights[w]))
    && (forall n :: n in r.sent ==> n < |r.s.log| && Recorded(r.s.log[..n], r.sent[n]))
    && (forall n :: 0 <= n < |r.s.log| && r.s.log[n].Submitted? ==> n in r.sent)
    && (forall n :: n in r.sent ==> r.s.log[n] == Submitted(r.sent[n].tx))
  }

  lemma RecordedSnoc(log: seq<Event>, e: Event, f: Flight)
    requires Recorded(log, f)
    ensures Recorded(log + [e], f)
  {
    assert (log + [e])[..f.begun] == log[..f.begun];
  }

  lemma PendingSnoc(log: seq<Event>, tx: Option<Tx>, e: Event)
    requires Pending(log, tx)
    ensures Pending(log + [e], match e
                               case Accepted(t) => Some(t)
                               case Submitted(_) => None
                               case RolledOver => tx)
  {
    assert (log + [e])[..|log|] == log;
  }

  /** One more event; a submission is recorded as the end of the flush `f`. */
  lemma EventKept(r: Racing, r': Racing, e: Event, f: Flight)
    requires Kept(r) && r'.s.log == r.s.log + [e] && Pending(r'.s.log, r'.s.tx)
    requires forall w :: w in r'.flights ==> w in r.flights && r'.flights[w] == r.flights[w]
    requires if e.Submitted? then Recorded(r.s.log, f) && f.tx == e.tx && r'.sent == r.sent[|r.s.log| := f]
             else r'.sent == r.sent
    ensures Kept(r')
  {
    hide Recorded, Pending;
    var log, log' := r.s.log, r'.s.log;
    assert log'[..|log|] == log;
    forall w | w in r'.flights
      ensures Recorded(log', r'.flights[w])
    {
      RecordedSnoc(log, e, r.flights[w]);
    }
    forall n | n in r'.sent
      ensures n < |log'| && Recorded(log'[..n], r'.sent[n]) && log'[n] == Submitted(r'.sent[n].tx)
    {
      if n < |log| {
        assert n in r.sent;
        assert log'[..n] == log[..n];
      }
    }
  }

  lemma AfterKept(c: ClaimerConfig, r: Racing, p: Part)
    requires Kept(r)
    ensures Kept(After(c, r, p))
  {
    hide UnsubmittedAt, WrapI64;
    var r' := After(c, r, p);
    var none := Flight(Tx(OtherPayload, 0), 0, 0);
    match p
    case Shut =>
    case Begin(who, force) =>
      assert r.s.log[..|r.s.log|] == r.s.log;
    case Leave =>
      if r' != r {
        PendingSnoc(r.s.log, r.s.tx, RolledOver);
        EventKept(r, r', RolledOver, none);
      }
    case Take(tx) =>
      if r' != r {
        PendingSnoc(r.s.log, r.s.tx, Accepted(tx));
        EventKept(r, r', Accepted(tx), none);
      }
    case Finish(who, sendOk) =>
      if who in r.flights && sendOk {
        PendingSnoc(r.s.log, r.s.tx, Submitted(r.flights[who].tx));
        EventKept(r, r', Submitted(r.flights[who].tx), r.flights[who]);
      }
  }

  lemma {:induction false} RaceKept(c: ClaimerConfig, ps: seq<Part>)
    ensures Kept(Race(c, ps))
  {
    if ps != [] {
      RaceKept(c, ps[..|ps| - 1]);
      AfterKept(c, Race(c, ps[..|ps| - 1]), ps[|ps| - 1]);
    }
  }

  /** A whole flush is its two parts, whatever the timed loop has under way. */
  lemma FlushIsParts(c: ClaimerConfig, r: Racing, force: bool, sendOk: bool)
    requires Kept(r) && Caller !in r.flights
    ensures var r' := AfterAll(c, r, FlushParts(force, sendOk));
            r'.s == FlushState(c, r.s, force, sendOk).0 && r'.flights == r.flights
  {
    var ps := FlushParts(force, sendOk);
    assert ps[..1] == [ps[0]] && [ps[0]][..0] == [];
    assert AfterAll(c, r, [ps[0]]) == After(c, AfterAll(c, r, []), ps[0]);
    var b := After(c, r, ps[0]);
    assert AfterAll(c, r, ps) == After(c, b, ps[1]);
    assert b == r || b.flights - {Caller} == r.flights;
  }

  lemma {:induction false} AfterAllConcat(c: ClaimerConfig, r: Racing, a: seq<Part>, b: seq<Part>)
    ensures AfterAll(c, r, a + b) == AfterAll(c, AfterAll(c, r, a), b)
  {
    if b == [] {
      assert a + b == a;
    } else {
      AfterAllConcat(c, r, a, b[..|b| - 1]);
      assert (a + b)[..|a + b| - 1] == a + b[..|b| - 1];
    }
  }

  lemma AfterOne(c: ClaimerConfig, r: Racing, p: Part)
    ensures AfterAll(c, r, [p]) == After(c, r, p)
  {
    assert [p][..0] == [];
  }

  lemma SwitchIsParts(c: ClaimerConfig, r: Racing, np: Payment, flushOk: bool)
    requires Kept(r) && Caller !in r.flights && Other(r.s, np)
    ensures var (t, sw) := Switch(c, r.s, np, flushOk);
            var r' := AfterAll(c, r, FlushParts(false, flushOk) + if sw.Ok? then [Leave] else []);
            r'.s == t && r'.flights == r.flights
  {
    hide Kept, FlushState;
    FlushIsParts(c, r, false, flushOk);
    AfterAllConcat(c, r, FlushParts(false, flushOk), [Leave]);
    AfterOne(c, AfterAll(c, r, FlushParts(false, flushOk)), Leave);
    assert FlushParts(false, flushOk) + [] == FlushParts(false, flushOk);
  }

  /** A whole claim is its parts, so what holds of every race holds when claims and flushes are not cut up. */
  lemma ClaimIsParts(c: ClaimerConfig, r: Racing, tx: Tx, env: ClaimEnv)
    requires Kept(r) && Caller !in r.flights
    ensures var r' := AfterAll(c, r, ClaimParts(c, r.s, tx, env));
            r'.s == ClaimState(c, r.s, tx, env).0 && r'.flights == r.flights
  {
    hide Kept, FlushState, FlushParts, AfterAll, Admission;
    AfterNone(c, r);
    if Screen(c, r.s, tx, env).None? {
      var np := tx.payload.np;
      var (t, sw) := Switch(c, r.s, np, env.flushOk);
      var first := if !Other(r.s, np) then [] else FlushParts(false, env.flushOk) + if sw.Ok? then [Leave] else [];
      if Other(r.s, np) {
        SwitchIsParts(c, r, np, env.flushOk);
      }
      assert AfterAll(c, r, first).s == t && AfterAll(c, r, first).flights == r.flights;
      AfterAllConcat(c, r, first, [Take(tx)]);
      AfterOne(c, AfterAll(c, r, first), Take(tx));
      assert first + [] == first;
    }
  }

  lemma AfterNone(c: ClaimerConfig, r: Racing)
    ensures AfterAll(c, r, []) == r
  {
  }

  // ------------------------------------------------------- what gets lost

  ghost predicate Handled(e: Event) {
    e.Accepted? || e.Submitted?
  }

  /** The pending transaction of a log is its last acceptance, if no submission follows. */
  lemma {:induction false} UnsubmittedAtMeans(log: seq<Event>, k: nat)
    ensures UnsubmittedAt(log) == Some(k) <==>
              && k < |log| && log[k].Accepted?
              && forall i :: k < i < |log| ==> !Handled(log[i])
  {
    if log != [] {
      UnsubmittedAtMeans(log[..|log| - 1], k);
    }
  }

  /** The submission at `n` clears the acceptance at `k`: nothing was accepted or submitted between them. */
  ghost predicate Clears(log: seq<Event>, n: nat, k: nat) {
    && k < n < |log| && log[k].Accepted? && log[n].Submitted?
    && forall i :: k < i < n ==> !Handled(log[i])
  }

  /** The submission at `n` is of the acceptance at `k`. */
  ghost predicate SubmitsAt(r: Racing, n: nat, k: nat) {
    n in r.sent && r.sent[n].at == k
  }

  /** The acceptance at `k` was cleared, and no submission of the run was of it. */
  ghost predicate Lost(r: Racing, k: nat) {
    && (exists n: nat :: Clears(r.s.log, n, k))
    && (forall n: nat :: !SubmitsAt(r, n, k))
  }

  /** A flush submits the acceptance that was the last one when it began. */
  lemma SubmitsWhatItBeganWith(r: Racing, n: nat, k: nat, m: nat)
    requires Kept(r) && Clears(r.s.log, n, k) && m in r.sent && m >= n
    ensures SubmitsAt(r, m, k) <==> k < r.sent[m].begun <= n
  {
    var log, f := r.s.log, r.sent[m];
    assert Recorded(log[..m], f);
    var early := log[..f.begun];
    assert log[..m][..f.begun] == early;
    UnsubmittedAtMeans(early, f.at);
    UnsubmittedAtMeans(early, k);
    if n < f.begun {
      assert early[n] == log[n] && Handled(early[n]);
    }
  }

  /**
   * The clear of a finished flush erases an acceptance that this flush did not send exactly when the
   * acceptance fell between the flush's copy and its clear.
   */
  lemma ErasedExactly(r: Racing, n: nat, k: nat)
    requires Kept(r) && Clears(r.s.log, n, k)
    ensures n in r.sent && r.sent[n].begun <= n
    ensures !SubmitsAt(r, n, k) <==> r.sent[n].begun <= k < n
  {
    assert Recorded(r.s.log[..n], r.sent[n]);
    SubmitsWhatItBeganWith(r, n, k, n);
  }

  /**
   * Over every race an acceptance is lost exactly when a flush that began before it cleared it, and no
   * other flush that began between the acceptance and that clear was completed.
   */
  lemma LostExactly(c: ClaimerConfig, ps: seq<Part>, k: nat)
    ensures var r := Race(c, ps);
            Lost(r, k) <==>
              exists n: nat :: Clears(r.s.log, n, k) && n in r.sent && r.sent[n].begun <= k
                               && forall m :: m in r.sent && m > n ==> !(k < r.sent[m].begun <= n)
  {
    hide Recorded, After;
    var r := Race(c, ps);
    RaceKept(c, ps);
    if n: nat :| Clears(r.s.log, n, k) {
      forall m | m in r.sent && m < n
        ensures r.sent[m].at != k
      {
        EarlierSubmission(r, n, k, m);
      }
      forall m | m in r.sent && m >= n
        ensures SubmitsAt(r, m, k) <==> k < r.sent[m].begun <= n
      {
        SubmitsWhatItBeganWith(r, n, k, m);
      }
      ErasedExactly(r, n, k);
      OneClear(r.s.log, n, k);
    }
  }

  lemma EarlierSubmission(r: Racing, n: nat, k: nat, m: nat)
    requires Kept(r) && Clears(r.s.log, n, k) && m in r.sent && m < n
    ensures r.sent[m].at != k
  {
    assert Recorded(r.s.log[..m], r.sent[m]);
    if r.sent[m].at == k {
      assert Handled(r.s.log[m]);
    }
  }

  lemma OneClear(log: seq<Event>, n: nat, k: nat)
    requires Clears(log, n, k)
    ensures forall m: nat :: Clears(log, m, k) ==> m == n
  {
    forall m: nat | Clears(log, m, k)
      ensures m == n
    {
      assert Handled(log[m]) && Handled(log[n]);
    }
  }

  /** No flush begins before an earlier one has cleared. */
  ghost predicate OneAtATime(r: Racing) {
    forall n, m :: n in r.sent && m in r.sent && n < m ==> n < r.sent[m].begun
  }

  /** When flushes do not overlap, an acceptance is lost exactly when it falls inside the flush that clears it. */
  lemma LostInside(c: ClaimerConfig, ps: seq<Part>, k: nat)
    requires OneAtATime(Race(c, ps))
    ensures var r := Race(c, ps);
            Lost(r, k) <==> exists n: nat :: Clears(r.s.log, n, k) && n in r.sent && r.sent[n].begun <= k < n
  {
    hide Race;
    LostExactly(c, ps, k);
  }

  lemma SameAcceptance(r: Racing, n: nat, m: nat)
    requires Kept(r) && n < m && n in r.sent && m in r.sent && r.sent[n].at == r.sent[m].at
    ensures r.sent[m].begun <= n
  {
    var log, f := r.s.log, r.sent[m];
    assert Recorded(log[..n], r.sent[n]) && Recorded(log[..m], f);
    assert log[n].Submitted?;
    hide Kept, UnsubmittedAt;
    assert log[..m][..f.begun] == log[..f.begun];
    UnsubmittedAtMeans(log[..f.begun], f.at);
    if n < f.begun {
      assert false;
    }
  }

  /** One acceptance is submitted twice only by flushes that overlap. */
  lemma SubmittedAgainOverlaps(c: ClaimerConfig, ps: seq<Part>, n: nat, m: nat)
    requires var r := Race(c, ps); n < m && n in r.sent && m in r.sent && r.sent[n].at == r.sent[m].at
    ensures Race(c, ps).sent[m].begun <= n
  {
    RaceKept(c, ps);
    SameAcceptance(Race(c, ps), n, m);
  }

  // ------------------------------------------------- a claim overtakes a flush

  /** A claim of `a`, then a flush of the timed loop during which the caller claims `b`. */
  ghost function Overtaken(c: ClaimerConfig, a: Tx, b: Tx, env: ClaimEnv): seq<Part> {
    var s := ClaimState(c, INITIAL_CLAIMER, a, env).0;
    ClaimParts(c, INITIAL_CLAIMER, a, env) + [Begin(TimedLoop, false)] + ClaimParts(c, s, b, env)
    + [Finish(TimedLoop, true)]
  }

  /** Both claims are accepted, and there is enough for the loop to send. */
  ghost predicate Overtakes(c: ClaimerConfig, a: Tx, b: Tx, env: ClaimEnv) {
    var s := ClaimState(c, INITIAL_CLAIMER, a, env).0;
    ClaimState(c, INITIAL_CLAIMER, a, env).1.Ok? && Sends(c, s, false) && ClaimState(c, s, b, env).1.Ok?
  }

  lemma FirstClaim(c: ClaimerConfig, a: Tx, env: ClaimEnv)
    requires ClaimState(c, INITIAL_CLAIMER, a, env).1.Ok?
    ensures ClaimParts(c, INITIAL_CLAIMER, a, env) == [Take(a)]
    ensures ClaimState(c, INITIAL_CLAIMER, a, env).0 == Accept(INITIAL_CLAIMER, a, a.payload.np)
    ensures After(c, IDLE, Take(a)) == Racing(ClaimState(c, INITIAL_CLAIMER, a, env).0, map[], map[])
  {
  }

  lemma AcceptedLast(c: ClaimerConfig, s: ClaimerState, b: Tx, env: ClaimEnv)
    requires ClaimState(c, s, b, env).1.Ok?
    ensures var l := ClaimState(c, s, b, env).0.log; |l| > |s.log| && l[|l| - 1] == Accepted(b)
  {
  }

  /** Where such a run ends: the loop's flush clears `b`, and records the amount of `a`. */
  lemma OvertakenEnds(c: ClaimerConfig, a: Tx, b: Tx, env: ClaimEnv)
    requires Overtakes(c, a, b, env)
    ensures var s := ClaimState(c, INITIAL_CLAIMER, a, env).0;
            var r, f := Race(c, Overtaken(c, a, b, env)), Flight(a, 0, 1);
            && r.s == Cleared(ClaimState(c, s, b, env).0, a) && r.flights == map[]
            && |r.s.log| - 1 in r.sent && r.sent[|r.s.log| - 1] == f
  {
    hide ClaimState, ClaimParts, Kept, Sends, AfterAll;
    var first := ClaimParts(c, INITIAL_CLAIMER, a, env);
    FirstClaim(c, a, env);
    var s := ClaimState(c, INITIAL_CLAIMER, a, env).0;
    var second := ClaimParts(c, s, b, env);
    AfterOne(c, IDLE, Take(a));
    AfterAllConcat(c, IDLE, first, [Begin(TimedLoop, false)]);
    var r1 := Race(c, first);
    AfterOne(c, r1, Begin(TimedLoop, false));
    RaceKept(c, first + [Begin(TimedLoop, false)]);
    var r2 := Race(c, first + [Begin(TimedLoop, false)]);
    assert r2 == Racing(s, map[TimedLoop := Flight(a, 0, 1)], map[]) by {
      FirstFlight(c, a, env);
    }
    ClaimIsParts(c, r2, b, env);
    AfterAllConcat(c, IDLE, first + [Begin(TimedLoop, false)], second);
    var r3 := Race(c, first + [Begin(TimedLoop, false)] + second);
    AfterAllConcat(c, IDLE, first + [Begin(TimedLoop, false)] + second, [Finish(TimedLoop, true)]);
    AfterOne(c, r3, Finish(TimedLoop, true));
    assert r3.flights - {TimedLoop} == map[];
  }

  lemma FirstFlight(c: ClaimerConfig, a: Tx, env: ClaimEnv)
    requires ClaimState(c, INITIAL_CLAIMER, a, env).1.Ok?
    requires Sends(c, ClaimState(c, INITIAL_CLAIMER, a, env).0, false)
    ensures var s := ClaimState(c, INITIAL_CLAIMER, a, env).0;
            After(c, Racing(s, map[], map[]), Begin(TimedLoop, false))
            == Racing(s, map[TimedLoop := Flight(a, 0, 1)], map[])
  {
    FirstClaim(c, a, env);
    hide ClaimState;
    var s := ClaimState(c, INITIAL_CLAIMER, a, env).0;
    assert s.log == [Accepted(a)] && UnsubmittedAt(s.log) == Some(0);
  }

  /** Any two accepted claims around the copy of a timed flush lose the second transaction. */
  lemma OvertakenIsLost(c: ClaimerConfig, a: Tx, b: Tx, env: ClaimEnv)
    requires Overtakes(c, a, b, env)
    ensures var r := Race(c, Overtaken(c, a, b, env));
            |r.s.log| >= 3 && r.s.log[|r.s.log| - 2] == Accepted(b) && Lost(r, |r.s.log| - 2)
  {
    var r := Race(c, Overtaken(c, a, b, env));
    OvertakenEnds(c, a, b, env);
    RaceKept(c, Overtaken(c, a, b, env));
    hide Race, Overtaken, Recorded, ClaimState;
    var s := ClaimState(c, INITIAL_CLAIMER, a, env).0;
    FirstClaim(c, a, env);
    AcceptedLast(c, s, b, env);
    var n := |r.s.log| - 1;
    assert Clears(r.s.log, n, n - 1);
    forall m | m in r.sent
      ensures !SubmitsAt(r, m, n - 1)
    {
      if m < n {
        EarlierSubmission(r, n, n - 1, m);
      } else {
        SubmitsWhatItBeganWith(r, n, n - 1, m);
      }
    }
  }

  /** It does happen: a larger payment of the channel is claimed while the loop submits the one before. */
  lemma LossIsReachable()
    ensures exists c: ClaimerConfig, a: Tx, b: Tx, env: ClaimEnv ::
              && Overtakes(c, a, b, env) && 0 < a.Amount() < b.Amount()
              && a.payload.np.id == b.payload.np.id
              && Lost(Race(c, Overtaken(c, a, b, env)), 1)
  {
    hide Race, Lost;
    var c := ClaimerConfig("r", 1);
    var a := Tx(NanoPayPayload(Payment("p", "r", 1, 10, 50, 50)), 0);
    var b := Tx(NanoPayPayload(Payment("p", "r", 1, 20, 50, 50)), 0);
    var env := ClaimEnv(Some(1), Ok(true), true, Some(20));
    assert Overtakes(c, a, b, env);
    OvertakenIsLost(c, a, b, env);
    OvertakenEnds(c, a, b, env);
    assert |ClaimState(c, ClaimState(c, INITIAL_CLAIMER, a, env).0, b, env).0.log| == 2;
  }
}
