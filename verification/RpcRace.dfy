/**
 * The racing RPC caller: every worker walks its own rotation of the server list, and all workers
 * share one result cell. A run is any interleaving of the workers' steps.
 */
module RpcRace {
  import opened Common

  type Reply<T> = Result<T, string>

  const NOTHING_YET := "couldn't find"

  function Rotate<A>(servers: seq<A>, i: nat): seq<A>
    requires i <= |servers|
  {
    servers[i..] + servers[..i]
  }

  /** The address list of each worker; a concurrency of 0 means one worker a server. */
  method WorkerAddresses(servers: seq<string>, concurrency: nat) returns (r: Result<seq<seq<string>>, string>)
    ensures r.Err? <==> servers == []
    ensures r.Ok? ==>
              && |r.value| == (if concurrency > 0 then concurrency else |servers|)
              && forall i :: 0 <= i < |r.value| ==>
                   && r.value[i] == Rotate(servers, i % |servers|)
                   && multiset(r.value[i]) == multiset(servers)
                   && IsRotation(r.value[i], servers, i)
    ensures r.Ok? && concurrency == 0 ==> EachFirst(r.value, servers)
  {
    hide IsRotation, Rotate, EachFirst;
    if servers == [] {
      return Err("No server addresses in config");
    }
    var n := if concurrency > 0 then concurrency else |servers|;
    var lists: seq<seq<string>> := [];
    for i := 0 to n
      invariant |lists| == i
      invariant forall k :: 0 <= k < i ==> lists[k] == Rotate(servers, k % |servers|)
    {
      var at := i % |servers|;
      var left, right := servers[..at], servers[at..];
      RotateMeans(servers, at);
      lists := lists + [right + left];
    }
    forall i | 0 <= i < n
      ensures multiset(lists[i]) == multiset(servers) && IsRotation(lists[i], servers, i)
    {
      RotateIsPermutation(servers, i % |servers|);
      RotateAt(servers, i);
    }
    if concurrency == 0 {
      RotationsStartApart(lists, servers);
    }
    r := Ok(lists);
  }

  lemma RotateMeans<A>(servers: seq<A>, i: nat)
    requires i <= |servers|
    ensures Rotate(servers, i) == servers[i..] + servers[..i]
  {
  }

  /** There is one list for each server, and it begins with that server. */
  ghost predicate EachFirst(lists: seq<seq<string>>, servers: seq<string>) {
    |lists| == |servers| && forall j :: 0 <= j < |servers| ==> lists[j] != [] && lists[j][0] == servers[j]
  }

  lemma RotationsStartApart(lists: seq<seq<string>>, servers: seq<string>)
    requires servers != [] && |lists| == |servers|
    requires forall i :: 0 <= i < |lists| ==> IsRotation(lists[i], servers, i)
    ensures EachFirst(lists, servers)
  {
    forall j | 0 <= j < |servers|
      ensures lists[j] != [] && lists[j][0] == servers[j]
    {
      assert IsRotation(lists[j], servers, j);
      assert (j + 0) % |servers| == j;
    }
  }

  /** The address at place `j` of worker `i` is `i + j` places further round the server list. */
  ghost predicate IsRotation(list: seq<string>, servers: seq<string>, i: nat)
    requires servers != []
  {
    |list| == |servers| && forall j :: 0 <= j < |list| ==> list[j] == servers[(i + j) % |servers|]
  }

  lemma RotateAt(servers: seq<string>, i: nat)
    requires servers != []
    ensures IsRotation(Rotate(servers, i % |servers|), servers, i)
  {
    var n, list := |servers|, Rotate(servers, i % |servers|);
    forall j | 0 <= j < n
      ensures list[j] == servers[(i + j) % n]
    {
      Around(i, j, n);
    }
  }

  lemma Around(i: nat, j: nat, n: nat)
    requires j < n
    ensures (i + j) % n == if i % n + j < n then i % n + j else i % n + j - n
  {
    var q, r := i / n, i % n;
    assert i == n * q + r;
    if r + j < n {
      Residue(i + j, q, r + j, n);
    } else {
      assert n * (q + 1) == n * q + n;
      Residue(i + j, q + 1, r + j - n, n);
    }
  }

  lemma {:induction false} Multiples(n: nat, a: nat, b: nat)
    requires a < b
    ensures n * a + n <= n * b
    decreases b
  {
    if a < b - 1 {
      Multiples(n, a, b - 1);
    }
    assert n * b == n * (b - 1) + n;
  }

  lemma Residue(a: nat, q: nat, r: nat, n: nat)
    requires r < n && a == n * q + r
    ensures a % n == r
  {
    var q' := a / n;
    assert a == n * q' + a % n;
    if q < q' {
      Multiples(n, q, q');
    } else if q' < q {
      Multiples(n, q', q);
    }
  }

  lemma RotateIsPermutation<A>(servers: seq<A>, i: nat)
    requires i <= |servers|
    ensures multiset(Rotate(servers, i)) == multiset(servers)
  {
    assert servers == servers[..i] + servers[i..];
  }

  // ------------------------------------------------------------- the race

  datatype Phase<T> = Checking | Posting | Holding(reply: Reply<T>) | Finished

  datatype Worker<T> = Worker(addresses: seq<string>, next: nat, phase: Phase<T>)

  /** One finished post: in `posts` in the order of the replies, in `arrivals` in the order of the lock. */
  datatype Attempt<T> = Attempt(worker: nat, address: string, reply: Reply<T>)

  datatype Race<T> = Race(
    result: Reply<T>,
    workers: seq<Worker<T>>,
    posts: seq<Attempt<T>>,
    arrivals: seq<Attempt<T>>)

  datatype Step<T> = Check(w: nat) | Post(w: nat, reply: Reply<T>) | Write(w: nat)

  function Start<T>(lists: seq<seq<string>>): Race<T> {
    Race(Err(NOTHING_YET),
         seq(|lists|, i requires 0 <= i < |lists| =>
           Worker(lists[i], 0, if lists[i] == [] then Finished else Checking)),
         [], [])
  }

  predicate Enabled<T>(r: Race<T>, s: Step<T>) {
    && s.w < |r.workers|
    && match s
       case Check(w) => r.workers[w].phase.Checking?
       case Post(w, _) => r.workers[w].phase.Posting? && r.workers[w].next < |r.workers[w].addresses|
       case Write(w) => r.workers[w].phase.Holding? && r.workers[w].next < |r.workers[w].addresses|
  }

  function Next<T>(r: Race<T>, s: Step<T>): Race<T>
    requires Enabled(r, s)
  {
    var k := r.workers[s.w];
    match s
    case Check(w) =>
      r.(workers := r.workers[w := k.(phase := if r.result.Ok? then Finished else Posting)])
    case Post(w, reply) =>
      r.(workers := r.workers[w := k.(phase := Holding(reply))],
         posts := r.posts + [Attempt(w, k.addresses[k.next], reply)])
    case Write(w) =>
      r.(result := if r.result.Err? then k.phase.reply else r.result,
         workers := r.workers[w := k.(next := k.next + 1,
                                      phase := if k.next + 1 == |k.addresses| then Finished else Checking)],
         arrivals := r.arrivals + [Attempt(w, k.addresses[k.next], k.phase.reply)])
  }

  ghost predicate Reaches<T>(r: Race<T>, steps: seq<Step<T>>, r': Race<T>)
    decreases |steps|
  {
    if steps == [] then r' == r else Enabled(r, steps[0]) && Reaches(Next(r, steps[0]), steps[1..], r')
  }

  ghost predicate AllFinished<T>(r: Race<T>) {
    forall w :: 0 <= w < |r.workers| ==> r.workers[w].phase.Finished?
  }

  // ------------------------------------------------------------ invariants

  /** The cell holds the first success to reach the lock, or else the last failure. */
  ghost predicate CellOk<T>(r: Race<T>) {
    && (r.result.Err? ==>
          && (forall k :: 0 <= k < |r.arrivals| ==> r.arrivals[k].reply.Err?)
          && r.result == if r.arrivals == [] then Err(NOTHING_YET) else r.arrivals[|r.arrivals| - 1].reply)
    && (r.result.Ok? ==>
          exists k: nat :: FirstSuccess(r.arrivals, k) && r.arrivals[k].reply == r.result)
  }

  ghost predicate FirstSuccess<T>(arrivals: seq<Attempt<T>>, k: nat) {
    k < |arrivals| && arrivals[k].reply.Ok? && forall j :: 0 <= j < k ==> arrivals[j].reply.Err?
  }

  ghost function Tried<T>(arrivals: seq<Attempt<T>>, w: nat): seq<string> {
    if arrivals == [] then []
    else
      var a := arrivals[|arrivals| - 1];
      Tried(arrivals[..|arrivals| - 1], w) + if a.worker == w then [a.address] else []
  }

  /** A worker has tried exactly the addresses before `next`, and stops early only after a success. */
  ghost predicate WorkerOk<T>(r: Race<T>, w: nat)
    requires w < |r.workers|
  {
    var k := r.workers[w];
    && k.next <= |k.addresses|
    && Tried(r.arrivals, w) == k.addresses[..k.next]
    && (k.phase.Finished? <== k.next == |k.addresses|)
    && (k.phase.Finished? && k.next < |k.addresses| ==> r.result.Ok?)
  }

  /** A reply is in the cell's history or still held by the worker that got it. */
  ghost predicate PostOk<T>(r: Race<T>, p: Attempt<T>) {
    || p in r.arrivals
    || (&& p.worker < |r.workers|
        && var k := r.workers[p.worker];
           k.next < |k.addresses| && k.phase == Holding(p.reply) && k.addresses[k.next] == p.address)
  }

  ghost predicate HeldOk<T>(r: Race<T>, w: nat)
    requires w < |r.workers|
  {
    var k := r.workers[w];
    k.phase.Holding? && k.next < |k.addresses| ==> Attempt(w, k.addresses[k.next], k.phase.reply) in r.posts
  }

  ghost predicate Inv<T>(r: Race<T>) {
    && CellOk(r)
    && (forall w :: 0 <= w < |r.workers| ==> WorkerOk(r, w))
    && (forall w :: 0 <= w < |r.workers| ==> HeldOk(r, w))
    && (forall p :: p in r.posts ==> PostOk(r, p))
    && (forall p :: p in r.arrivals ==> p in r.posts)
  }

  lemma TriedSnoc<T>(arrivals: seq<Attempt<T>>, a: Attempt<T>, w: nat)
    ensures Tried(arrivals + [a], w) == Tried(arrivals, w) + if a.worker == w then [a.address] else []
  {
  }

  lemma WriteKeepsCell<T>(r: Race<T>, w: nat)
    requires CellOk(r) && Enabled(r, Write(w))
    ensures CellOk(Next(r, Write(w)))
  {
    var r' := Next(r, Write(w));
    if r.result.Ok? {
      var k: nat :| FirstSuccess(r.arrivals, k) && r.arrivals[k].reply == r.result;
      assert FirstSuccess(r'.arrivals, k);
    } else if r'.result.Ok? {
      assert FirstSuccess(r'.arrivals, |r.arrivals|);
    }
  }

  lemma StepKeepsWorkers<T>(r: Race<T>, s: Step<T>, v: nat)
    requires Enabled(r, s) && v < |r.workers| && WorkerOk(r, v)
    ensures WorkerOk(Next(r, s), v)
  {
    var k := r.workers[s.w];
    if s.Write? {
      TriedSnoc(r.arrivals, Attempt(s.w, k.addresses[k.next], k.phase.reply), v);
    }
  }

  lemma StepKeepsPosts<T>(r: Race<T>, s: Step<T>)
    requires Inv(r) && Enabled(r, s)
    ensures forall p :: p in Next(r, s).posts ==> PostOk(Next(r, s), p)
    ensures forall p :: p in Next(r, s).arrivals ==> p in Next(r, s).posts
    ensures forall w :: 0 <= w < |r.workers| ==> HeldOk(Next(r, s), w)
  {
    var r' := Next(r, s);
    forall p | p in r'.posts
      ensures PostOk(r', p)
    {
      if p in r.posts {
        assert PostOk(r, p);
      }
    }
    forall w | 0 <= w < |r.workers|
      ensures HeldOk(r', w)
    {
      assert HeldOk(r, w);
    }
    forall p | p in r'.arrivals
      ensures p in r'.posts
    {
      assert HeldOk(r, s.w);
    }
  }

  lemma StepKeepsInv<T>(r: Race<T>, s: Step<T>)
    requires Inv(r) && Enabled(r, s)
    ensures Inv(Next(r, s))
  {
    if s.Write? {
      WriteKeepsCell(r, s.w);
    }
    forall w | 0 <= w < |r.workers|
      ensures WorkerOk(Next(r, s), w)
    {
      StepKeepsWorkers(r, s, w);
    }
    StepKeepsPosts(r, s);
  }

  lemma {:induction false} RunKeepsInv<T>(r: Race<T>, steps: seq<Step<T>>, r': Race<T>)
    requires Inv(r) && Reaches(r, steps, r')
    ensures Inv(r')
    ensures |r'.workers| == |r.workers|
    ensures forall w :: 0 <= w < |r.workers| ==> r'.workers[w].addresses == r.workers[w].addresses
    decreases |steps|
  {
    if steps != [] {
      StepKeepsInv(r, steps[0]);
      RunKeepsInv(Next(r, steps[0]), steps[1..], r');
    }
  }

  // --------------------------------------------------------------- results

  /** Once the shared result is a success it never changes again. */
  lemma {:induction false} SuccessIsFinal<T>(r: Race<T>, steps: seq<Step<T>>, r': Race<T>)
    requires Reaches(r, steps, r') && r.result.Ok?
    ensures r'.result == r.result
    decreases |steps|
  {
    if steps != [] {
      SuccessIsFinal(Next(r, steps[0]), steps[1..], r');
    }
  }

  /**
   * The outcome of every finished race: a success exactly when some post succeeded, and then the
   * first success to reach the lock; a failure only after every worker tried its whole list.
   */
  lemma RaceOutcome<T>(lists: seq<seq<string>>, steps: seq<Step<T>>, r: Race<T>)
    requires Reaches(Start<T>(lists), steps, r) && AllFinished(r)
    ensures r.result.Ok? <==> exists p :: p in r.posts && p.reply.Ok?
    ensures r.result.Ok? ==> exists k: nat :: FirstSuccess(r.arrivals, k) && r.arrivals[k].reply == r.result
    ensures r.result.Err? ==>
              && (forall p :: p in r.posts ==> p.reply.Err?)
              && (forall w :: 0 <= w < |lists| ==> Tried(r.arrivals, w) == lists[w])
              && r.result == if r.arrivals == [] then Err(NOTHING_YET) else r.arrivals[|r.arrivals| - 1].reply
  {
    RunKeepsInv(Start<T>(lists), steps, r);
    forall p | p in r.posts
      ensures p in r.arrivals
    {
      assert PostOk(r, p);
    }
    if r.result.Ok? {
      var k: nat :| FirstSuccess(r.arrivals, k) && r.arrivals[k].reply == r.result;
      assert r.arrivals[k] in r.posts;
    } else {
      forall w | 0 <= w < |lists|
        ensures Tried(r.arrivals, w) == lists[w]
      {
        assert WorkerOk(r, w);
      }
    }
  }

  /** A failure with the rotated lists means that every worker tried every server, and each try failed. */
  lemma FailureTriedEverything<T>(servers: seq<string>, lists: seq<seq<string>>,
                                  steps: seq<Step<T>>, r: Race<T>, w: nat)
    requires servers != [] && w < |lists|
    requires forall i :: 0 <= i < |lists| ==> lists[i] == Rotate(servers, i % |servers|)
    requires Reaches(Start<T>(lists), steps, r) && AllFinished(r) && r.result.Err?
    ensures multiset(Tried(r.arrivals, w)) == multiset(servers)
    ensures forall a :: a in r.arrivals ==> a.reply.Err?
  {
    RunKeepsInv(Start<T>(lists), steps, r);
    RaceOutcome(lists, steps, r);
    RotateIsPermutation(servers, w % |servers|);
  }

  ghost function PostsOf<T>(posts: seq<Attempt<T>>, w: nat): nat {
    if posts == [] then 0
    else PostsOf(posts[..|posts| - 1], w) + if posts[|posts| - 1].worker == w then 1 else 0
  }

  lemma PostsOfSnoc<T>(posts: seq<Attempt<T>>, a: Attempt<T>, w: nat)
    ensures PostsOf(posts + [a], w) == PostsOf(posts, w) + if a.worker == w then 1 else 0
  {
  }

  /** After the first success a worker makes at most the one post that it had already decided on. */
  lemma {:induction false} PostsAfterSuccess<T>(r: Race<T>, steps: seq<Step<T>>, r': Race<T>, w: nat)
    requires Reaches(r, steps, r') && r.result.Ok? && w < |r.workers|
    ensures w < |r'.workers|
    ensures PostsOf(r'.posts, w) <= PostsOf(r.posts, w) + if r.workers[w].phase.Posting? then 1 else 0
    decreases |steps|
  {
    if steps != [] {
      var s := steps[0];
      if s.Post? {
        var k := r.workers[s.w];
        PostsOfSnoc(r.posts, Attempt(s.w, k.addresses[k.next], s.reply), w);
      }
      PostsAfterSuccess(Next(r, s), steps[1..], r', w);
    }
  }

  // ----------------------------------------------------------- termination

  ghost function Left<T>(k: Worker<T>): nat {
    if k.next >= |k.addresses| then 0
    else match k.phase
         case Checking => 3 * (|k.addresses| - k.next)
         case Posting => 3 * (|k.addresses| - k.next) - 1
         case Holding(_) => 3 * (|k.addresses| - k.next) - 2
         case Finished => 0
  }

  ghost function TotalLeft<T>(ks: seq<Worker<T>>): nat {
    if ks == [] then 0 else Left(ks[0]) + TotalLeft(ks[1..])
  }

  lemma {:induction false} TotalLeftUpdate<T>(ks: seq<Worker<T>>, w: nat, k: Worker<T>)
    requires w < |ks|
    ensures TotalLeft(ks[w := k]) == TotalLeft(ks) - Left(ks[w]) + Left(k)
  {
    if w == 0 {
      assert ks[w := k][1..] == ks[1..];
    } else {
      assert ks[w := k][1..] == ks[1..][w - 1 := k];
      TotalLeftUpdate(ks[1..], w - 1, k);
    }
  }

  lemma {:induction false} EveryStepCounts<T>(r: Race<T>, steps: seq<Step<T>>, r': Race<T>)
    requires Inv(r) && Reaches(r, steps, r')
    ensures |steps| + TotalLeft(r'.workers) <= TotalLeft(r.workers)
    ensures !AllFinished(r') ==> exists s :: Enabled(r', s)
    decreases |steps|
  {
    RunKeepsInv(r, steps, r');
    if steps != [] {
      var s := steps[0];
      assert WorkerOk(r, s.w);
      TotalLeftUpdate(r.workers, s.w, Next(r, s).workers[s.w]);
      StepKeepsInv(r, s);
      EveryStepCounts(Next(r, s), steps[1..], r');
    } else if !AllFinished(r) {
      var w :| 0 <= w < |r.workers| && !r.workers[w].phase.Finished?;
      assert WorkerOk(r, w);
      match r.workers[w].phase
      case Checking => assert Enabled(r, Check(w));
      case Posting => assert Enabled(r, Post(w, Err("")));
      case Holding(_) => assert Enabled(r, Write(w));
    }
  }

  ghost function Addresses(lists: seq<seq<string>>): nat {
    if lists == [] then 0 else |lists[0]| + Addresses(lists[1..])
  }

  lemma {:induction false} StartLeft<T>(lists: seq<seq<string>>)
    ensures TotalLeft(Start<T>(lists).workers) == 3 * Addresses(lists)
  {
    if lists != [] {
      assert Start<T>(lists).workers[1..] == Start<T>(lists[1..]).workers;
      StartLeft<T>(lists[1..]);
    }
  }

  /** Every run takes at most three steps an address, and some step is enabled until all have finished. */
  lemma RaceTerminates<T>(lists: seq<seq<string>>, steps: seq<Step<T>>, r: Race<T>)
    requires Reaches(Start<T>(lists), steps, r)
    ensures |steps| <= 3 * Addresses(lists)
    ensures !AllFinished(r) ==> exists s :: Enabled(r, s)
  {
    StartLeft<T>(lists);
    EveryStepCounts(Start<T>(lists), steps, r);
  }
}
