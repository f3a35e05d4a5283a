/**
 * Run-length encoding of acknowledgements. The queue is given in the order the heap pops it; nothing
 * is assumed about that order.
 */
module Acks {
  import opened MachineInts
  import opened SequenceNumbers

  /** `Crashed`: the loop popped an empty queue. */
  datatype AckOutcome = Crashed | Packet(starts: seq<SeqId>, counts: seq<u32>)

  // -------------------------------------------------------------- decoding

  function Range(start: SeqId, count: u32): (r: seq<u32>)
    ensures |r| == count
  {
    if count == 0 then [] else Range(start, count - 1) + [NextSeq(start, count - 1)]
  }

  lemma {:induction false} RangeAt(start: SeqId, count: u32, i: nat)
    requires i < count
    ensures Range(start, count)[i] == NextSeq(start, i)
  {
    if i < count - 1 {
      RangeAt(start, count - 1, i);
    }
  }

  function Expand(starts: seq<SeqId>, counts: seq<u32>): seq<u32>
    requires |starts| == |counts|
  {
    if starts == [] then []
    else
      var n := |starts| - 1;
      Expand(starts[..n], counts[..n]) + Range(starts[n], counts[n])
  }

  function Ones(n: nat): seq<u32> { seq(n, _ => 1) }

  /** The receiver's reading of a packet: no counts means one id an entry. */
  function Decode(starts: seq<SeqId>, counts: seq<u32>): seq<u32>
    requires counts == [] || |starts| == |counts|
  {
    Expand(starts, if counts == [] then Ones(|starts|) else counts)
  }

  /** An entry means the window from its start to `count` steps later. */
  lemma RangeIsWindow(start: SeqId, count: u32, x: SeqId)
    requires count < CYCLE
    ensures NextSeq(start, count) >= 1
    ensures x in Range(start, count) <==> SeqInBetween(x, start, NextSeq(start, count))
  {
    NextSeqForward(start, count);
    InBetweenIsCyclic(x, start, NextSeq(start, count));
    DistanceIsUnique(start, x, 0);
    var d := Distance(start, x);
    DistanceIsUnique(start, x, d);
    if d < count {
      RangeAt(start, count, d);
    }
    forall i | 0 <= i < count && Range(start, count)[i] == x
      ensures d < count
    {
      RangeAt(start, count, i);
      DistanceIsUnique(start, x, i);
    }
  }

  // -------------------------------------------------------------- encoding

  ghost predicate Consecutive(a: SeqId, b: SeqId) {
    Distance(a, b) == 1
  }

  /** The reference: how many maximal runs of consecutive ids the first `k` ids are made of. */
  ghost function RunCount(queue: seq<SeqId>, k: nat): nat
    requires k <= |queue|
  {
    if k == 0 then 0
    else RunCount(queue, k - 1) + if k > 1 && Consecutive(queue[k - 2], queue[k - 1]) then 0 else 1
  }

  lemma ExpandSnoc(starts: seq<SeqId>, counts: seq<u32>, start: SeqId, count: u32)
    requires |starts| == |counts|
    ensures Expand(starts + [start], counts + [count]) == Expand(starts, counts) + Range(start, count)
  {
  }

  /** Pops the longest run of consecutive ids at the front of what is left of the queue. */
  method PopRun(queue: seq<SeqId>, i: nat) returns (start: SeqId, count: u32, next: nat)
    requires i < |queue| < U32_MOD
    requires i > 0 ==> !Consecutive(queue[i - 1], queue[i])
    ensures i < next <= |queue| && count == next - i
    ensures queue[i..next] == Range(start, count)
    ensures RunCount(queue, next) == RunCount(queue, i) + 1
    ensures next < |queue| ==> !Consecutive(queue[next - 1], queue[next])
  {
    hide Consecutive, Range, NextSeq, RunCount;
    start, count, next := queue[i], 1, i + 1;
    RunStart(queue, i);
    while next < |queue| && queue[next] == NextSeq(start, count)
      invariant i < next <= |queue| && count == next - i
      invariant IsRun(queue, i, next, start)
      invariant RunCount(queue, next) == RunCount(queue, i) + 1
    {
      RunStep(queue, i, next, start);
      RunCountNext(queue, next);
      next, count := next + 1, count + 1;
    }
    if next < |queue| {
      RunStep(queue, i, next, start);
    }
  }

  ghost predicate IsRun(queue: seq<SeqId>, i: nat, next: nat, start: SeqId) {
    i < next <= |queue| < U32_MOD && queue[i..next] == Range(start, next - i)
  }

  lemma RunStart(queue: seq<SeqId>, i: nat)
    requires i < |queue| < U32_MOD && (i > 0 ==> !Consecutive(queue[i - 1], queue[i]))
    ensures IsRun(queue, i, i + 1, queue[i]) && RunCount(queue, i + 1) == RunCount(queue, i) + 1
  {
    NextSeqForward(queue[i], 0);
  }

  lemma RunCountNext(queue: seq<SeqId>, k: nat)
    requires 0 < k < |queue|
    ensures RunCount(queue, k + 1) == RunCount(queue, k) + if Consecutive(queue[k - 1], queue[k]) then 0 else 1
  {
  }

  /** An id extends a run exactly when it follows the run's last id. */
  lemma RunStep(queue: seq<SeqId>, i: nat, next: nat, start: SeqId)
    requires IsRun(queue, i, next, start) && next < |queue|
    ensures queue[next] == NextSeq(start, next - i) <==> Consecutive(queue[next - 1], queue[next])
    ensures queue[next] == NextSeq(start, next - i) ==> IsRun(queue, i, next + 1, start)
  {
    var n := next - i;
    var last := queue[next - 1];
    assert last == queue[i..next][n - 1];
    NextSeqIsAction(start, n - 1, 1);
    DistanceIsUnique(last, queue[next], 1);
    if queue[next] == NextSeq(start, n) {
      assert queue[i..next + 1] == queue[i..next] + [queue[next]];
    }
  }

  /** The encoding loop with its guard as written: it leaves only when the queue is empty and the list full. */
  method EncodeRuns(queue: seq<SeqId>, maxEntries: nat) returns (r: AckOutcome)
    requires |queue| < U32_MOD
    ensures r.Crashed? <==> RunCount(queue, |queue|) < maxEntries
    ensures r.Packet? ==>
              && |r.starts| == |r.counts| == RunCount(queue, |queue|)
              && (forall k :: 0 <= k < |r.counts| ==> r.counts[k] >= 1)
              && Expand(r.starts, r.counts) == queue
  {
    var starts: seq<SeqId>, counts: seq<u32>, i := [], [], 0;
    while true
      invariant i <= |queue| && |starts| == |counts| == RunCount(queue, i)
      invariant forall k :: 0 <= k < |counts| ==> counts[k] >= 1
      invariant Expand(starts, counts) == queue[..i]
      invariant 0 < i < |queue| ==> !Consecutive(queue[i - 1], queue[i])
      decreases |queue| - i
    {
      assert i == |queue| ==> queue[..i] == queue;
      if i == |queue| && |starts| >= maxEntries {
        return Packet(starts, counts);
      }
      if i == |queue| {
        return Crashed;
      }
      var start, count, next := PopRun(queue, i);
      ExpandSnoc(starts, counts, start, count);
      assert queue[..next] == queue[..i] + queue[i..next];
      starts, counts, i := starts + [start], counts + [count], next;
    }
  }

  /** Encodes the queue and drops the counts when every one of them is 1. */
  method EncodeAcks(queue: seq<SeqId>, maxEntries: nat) returns (r: AckOutcome)
    requires |queue| < U32_MOD
    ensures r.Crashed? <==> RunCount(queue, |queue|) < maxEntries
    ensures r.Packet? ==>
              && |r.starts| == RunCount(queue, |queue|)
              && (r.counts == [] || |r.starts| == |r.counts|)
              && Decode(r.starts, r.counts) == queue
              && (RunCount(queue, |queue|) == |queue| <==> r.counts == [])
  {
    r := EncodeRuns(queue, maxEntries);
    if r.Packet? {
      var omit, k := true, 0;
      while k < |r.counts| && omit
        invariant k <= |r.counts|
        invariant omit <==> forall j :: 0 <= j < k ==> r.counts[j] == 1
      {
        if r.counts[k] != 1 {
          omit := false;
        }
        k := k + 1;
      }
      ExpandLength(r.starts, r.counts);
      if omit {
        assert r.counts == Ones(|r.starts|);
        r := Packet(r.starts, []);
      }
    }
  }

  /** As many ids as entries means that no entry stands for more than one. */
  lemma {:induction false} ExpandLength(starts: seq<SeqId>, counts: seq<u32>)
    requires |starts| == |counts| && forall k :: 0 <= k < |counts| ==> counts[k] >= 1
    ensures |Expand(starts, counts)| >= |starts|
    ensures |Expand(starts, counts)| == |starts| <==> forall k :: 0 <= k < |counts| ==> counts[k] == 1
  {
    if starts != [] {
      var n := |starts| - 1;
      ExpandLength(starts[..n], counts[..n]);
      assert forall k :: 0 <= k < n ==> counts[..n][k] == counts[k];
    }
  }

  /** The guard as meant: stop on an empty queue or a full list. */
  method EncodeAcksAsMeant(queue: seq<SeqId>, maxEntries: nat)
    returns (starts: seq<SeqId>, counts: seq<u32>, rest: seq<SeqId>)
    requires |queue| < U32_MOD
    ensures |starts| == |counts| <= maxEntries
    ensures Expand(starts, counts) + rest == queue
    ensures rest == [] <==> RunCount(queue, |queue|) <= maxEntries
    ensures rest != [] ==> |starts| == maxEntries
    ensures rest == [] ==> |starts| == RunCount(queue, |queue|)
  {
    var i := 0;
    starts, counts := [], [];
    while i < |queue| && |starts| < maxEntries
      invariant i <= |queue| && |starts| == |counts| == RunCount(queue, i) <= maxEntries
      invariant Expand(starts, counts) == queue[..i]
      invariant 0 < i < |queue| ==> !Consecutive(queue[i - 1], queue[i])
      decreases |queue| - i
    {
      var start, count, next := PopRun(queue, i);
      ExpandSnoc(starts, counts, start, count);
      assert queue[..next] == queue[..i] + queue[i..next];
      starts, counts, i := starts + [start], counts + [count], next;
    }
    rest := queue[i..];
    assert queue == queue[..i] + rest;
    if i < |queue| {
      RunCountMonotone(queue, i + 1, |queue|);
    }
    assert queue[..|queue|] == queue;
  }

  lemma {:induction false} RunCountMonotone(queue: seq<SeqId>, i: nat, j: nat)
    requires i <= j <= |queue|
    ensures RunCount(queue, i) <= RunCount(queue, j)
    decreases j
  {
    if i < j {
      RunCountMonotone(queue, i, j - 1);
    }
  }

  // ------------------------------------------------- what the queue gives

  /** Every id is popped before the ids it comes after: the greatest of those left goes first. */
  ghost predicate GreatestFirst(queue: seq<SeqId>) {
    forall i, j :: 0 <= i < j < |queue| ==> CompareSeq(queue[i], queue[j]) != -1
  }

  /** The ids lie in one window of less than half the cycle, where their order is total. */
  ghost predicate InWindow(ids: seq<SeqId>, s: SeqId) {
    forall i :: 0 <= i < |ids| ==> Distance(s, ids[i]) < HALF
  }

  /** A binary heap only promises that no id comes before one of its children. */
  ghost predicate HeapOrdered(heap: seq<SeqId>) {
    forall p, i :: 0 <= p < i < |heap| && p == (i - 1) / 2 ==> CompareSeq(heap[p], heap[i]) != -1
  }

  /** The ids are some heap's, with `top` at the root. */
  ghost predicate IsHeapOf(heap: seq<SeqId>, ids: seq<SeqId>, top: SeqId) {
    HeapOrdered(heap) && multiset(heap) == multiset(ids) && heap != [] && heap[0] == top
  }

  /** Each pop takes the root of some heap of the ids that are left. */
  ghost predicate PoppedFromHeap(queue: seq<SeqId>) {
    forall i :: 0 <= i < |queue| ==> exists heap :: IsHeapOf(heap, queue[i..], queue[i])
  }

  /** In one window "does not come before" is a comparison of offsets. */
  lemma NotBefore(s: SeqId, a: SeqId, b: SeqId)
    requires Distance(s, a) < HALF && Distance(s, b) < HALF
    ensures CompareSeq(a, b) != -1 <==> Distance(s, a) >= Distance(s, b)
  {
  }

  /** In one window the root of a heap is the greatest of its ids. */
  lemma {:induction false} RootIsGreatest(heap: seq<SeqId>, s: SeqId, i: nat)
    requires HeapOrdered(heap) && InWindow(heap, s) && i < |heap|
    ensures Distance(s, heap[0]) >= Distance(s, heap[i])
    decreases i
  {
    if i > 0 {
      RootIsGreatest(heap, s, (i - 1) / 2);
      NotBefore(s, heap[(i - 1) / 2], heap[i]);
    }
  }

  /** So a heap of ids from one window pops them greatest first. */
  lemma HeapPopsGreatestFirst(queue: seq<SeqId>, s: SeqId)
    requires PoppedFromHeap(queue) && InWindow(queue, s)
    ensures GreatestFirst(queue)
  {
    forall i, j | 0 <= i < j < |queue|
      ensures CompareSeq(queue[i], queue[j]) != -1
    {
      var left := queue[i..];
      var heap :| IsHeapOf(heap, left, queue[i]);
      forall k | 0 <= k < |heap|
        ensures Distance(s, heap[k]) < HALF
      {
        assert heap[k] in multiset(heap);
        var l :| 0 <= l < |left| && left[l] == heap[k];
        assert left[l] == queue[i + l];
      }
      assert left[j - i] == queue[j];
      assert left[j - i] in multiset(left);
      var k :| 0 <= k < |heap| && heap[k] == queue[j];
      RootIsGreatest(heap, s, k);
      NotBefore(s, queue[i], queue[j]);
    }
  }

  /** How many entries of a packet the receiver looks at. */
  function EntriesProcessed(starts: seq<SeqId>, counts: seq<u32>): nat {
    if counts != [] then |starts| else |counts|
  }

  /** Popped greatest first, no two neighbours ever form a run. */
  lemma {:induction false} MaxHeapNeverMerges(queue: seq<SeqId>, k: nat)
    requires k <= |queue| && GreatestFirst(queue)
    ensures RunCount(queue, k) == k
  {
    if k > 0 {
      MaxHeapNeverMerges(queue, k - 1);
      if k > 1 {
        CompareExactly(queue[k - 2], queue[k - 1]);
      }
    }
  }

  /**
   * Any queue: a packet carries no counts exactly when no two neighbours are consecutive, and the receiver
   * then skips all of it. That is so of every heap of ids of one window.
   */
  method SendAckPacket(queue: seq<SeqId>, maxEntries: nat) returns (r: AckOutcome)
    requires |queue| < U32_MOD
    ensures r.Crashed? <==> RunCount(queue, |queue|) < maxEntries
    ensures r.Packet? ==>
              && (r.counts == [] || |r.starts| == |r.counts|)
              && Decode(r.starts, r.counts) == queue
              && (r.counts == [] <==> RunCount(queue, |queue|) == |queue|)
              && EntriesProcessed(r.starts, r.counts) == if r.counts == [] then 0 else |r.starts|
    ensures PoppedFromHeap(queue) && (exists s :: InWindow(queue, s)) ==> RunCount(queue, |queue|) == |queue|
  {
    if s :| PoppedFromHeap(queue) && InWindow(queue, s) {
      HeapPopsGreatestFirst(queue, s);
      MaxHeapNeverMerges(queue, |queue|);
    }
    r := EncodeAcks(queue, maxEntries);
  }
}
