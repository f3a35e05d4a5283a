/** Cyclic packet sequence numbers: 1 .. 2^32 - 1, with 0 kept out as "no packet". */
module SequenceNumbers {
  import opened MachineInts

  const CYCLE := 0xFFFF_FFFF
  const HALF := 0x7FFF_FFFF

  type SeqId = x: u32 | x >= 1 witness 1

  /** The source's remainder by the cycle's length takes the sign of the dividend. */
  function TruncatedRemainder(a: int): int {
    if a >= 0 then a % CYCLE else -((-a) % CYCLE)
  }

  /** `step` steps along the cycle. The 64-bit sum must not overflow. */
  function NextSeq(seqId: u32, step: int): u32
    requires -I64_LIMIT <= seqId - 1 + step < I64_LIMIT
  {
    var res := TruncatedRemainder(seqId - 1 + step);
    (if res < 0 then res + CYCLE else res) + 1
  }

  predicate SeqInBetween(seqId: u32, start: u32, end: u32) {
    if start <= end then seqId >= start && seqId < end else seqId >= start || seqId < end
  }

  function CompareSeq(a: u32, b: u32): int {
    if a == b then 0
    else if a < b then (if b - a < HALF then -1 else 1)
    else (if a - b < HALF then 1 else -1)
  }

  // ------------------------------------------------------- the cycle itself

  /** The reference: how many steps forward from `a` to `b`. */
  ghost function Distance(a: SeqId, b: SeqId): nat {
    if a <= b then b - a else b - a + CYCLE
  }

  lemma RemainderUnique(a: int, q: int, r: int)
    requires a == CYCLE * q + r && 0 <= r < CYCLE
    ensures a % CYCLE == r
  {
  }

  /** The truncating remainder with its fix-up is the mathematical residue. */
  lemma NextSeqResidue(s: u32, step: int)
    requires -I64_LIMIT <= s - 1 + step < I64_LIMIT
    ensures NextSeq(s, step) == (s - 1 + step) % CYCLE + 1
    ensures 1 <= NextSeq(s, step)
  {
  }

  /** Steps add up, zero steps stay put, and the sentinel 0 is never reached. */
  lemma NextSeqIsAction(s: SeqId, a: int, b: int)
    requires -I64_LIMIT <= s - 1 + a < I64_LIMIT && -I64_LIMIT <= s - 1 + a + b < I64_LIMIT
    requires -I64_LIMIT <= NextSeq(s, a) - 1 + b < I64_LIMIT
    ensures NextSeq(s, a) != 0 && NextSeq(s, 0) == s
    ensures NextSeq(NextSeq(s, a), b) == NextSeq(s, a + b)
  {
    hide NextSeq, TruncatedRemainder;
    NextSeqResidue(s, 0);
    NextSeqResidue(s, a);
    NextSeqResidue(s, a + b);
    var t := NextSeq(s, a);
    NextSeqResidue(t, b);
    var x := s - 1 + a;
    var q := x / CYCLE;
    assert x == CYCLE * q + (t - 1);
    var q', r' := (t - 1 + b) / CYCLE, (t - 1 + b) % CYCLE;
    assert t - 1 + b == CYCLE * q' + r';
    assert x + b == CYCLE * (q + q') + r';
    RemainderUnique(x + b, q + q', r');
  }

  /** Moving less than a full turn: the explicit position. */
  lemma NextSeqForward(s: SeqId, d: nat)
    requires d < CYCLE
    ensures NextSeq(s, d) == if s + d <= CYCLE then s + d else s + d - CYCLE
    ensures NextSeq(s, d) >= 1 && Distance(s, NextSeq(s, d)) == d
  {
  }

  /** Every id reaches every other in exactly `Distance` steps, and in no other number below a turn. */
  lemma DistanceIsUnique(a: SeqId, b: SeqId, d: nat)
    requires d < CYCLE
    ensures Distance(a, b) < CYCLE
    ensures NextSeq(a, d) == b <==> d == Distance(a, b)
  {
  }

  /** One step forward is undone by one step back. */
  lemma StepBack(s: SeqId)
    ensures NextSeq(NextSeq(s, 1), -1) == s
  {
  }

  // ------------------------------------------------------------ membership

  /** A window test is a comparison of distances from the window's start. */
  lemma InBetweenIsCyclic(x: SeqId, start: SeqId, end: SeqId)
    ensures SeqInBetween(x, start, end) <==> Distance(start, x) < Distance(start, end)
  {
  }

  /** The session passes (start, end, target) where (seq, start, end) is expected. */
  predicate SessionBetween(start: u32, end: u32, target: u32) {
    SeqInBetween(start, end, target)
  }

  /**
   * The rotated call agrees with the window test except exactly when the target is the start of a
   * non-empty window, or the window is empty and the target is not its start.
   */
  lemma SessionBetweenDiffers(start: SeqId, end: SeqId, target: SeqId)
    ensures SessionBetween(start, end, target) != SeqInBetween(target, start, end)
            <==> (target == start && start != end) || (start == end && target != start)
  {
  }

  /** So the session's ack loop, which starts with the target at the range's start, is never entered. */
  lemma AckLoopNeverEntered(ackStart: u32, ackEnd: u32)
    ensures !SessionBetween(ackStart, ackEnd, ackStart)
  {
  }

  // ---------------------------------------------------------------- order

  lemma CompareAntisymmetric(a: u32, b: u32)
    ensures CompareSeq(a, b) == -CompareSeq(b, a)
    ensures CompareSeq(a, b) == 0 <==> a == b
  {
  }

  /** Exactly which ids come before which: half a turn ahead, with one id more when the step wraps. */
  lemma CompareExactly(a: SeqId, b: SeqId)
    ensures CompareSeq(a, b) == -1 <==> a != b && Distance(a, b) < (if a < b then HALF else HALF + 2)
  {
  }

  /** Ids of one window compare as their offsets do, across the wrap too. */
  lemma WindowOrder(s: SeqId, i: nat, j: nat)
    requires i < HALF && j < HALF
    ensures CompareSeq(NextSeq(s, i), NextSeq(s, j)) == if i == j then 0 else if i < j then -1 else 1
  {
  }

  /** The order is a strict total order on every window narrower than half the cycle. */
  lemma WindowTransitive(s: SeqId, a: SeqId, b: SeqId, c: SeqId)
    requires Distance(s, a) < HALF && Distance(s, b) < HALF && Distance(s, c) < HALF
    requires CompareSeq(a, b) == -1 && CompareSeq(b, c) == -1
    ensures CompareSeq(a, c) == -1
  {
  }

  /** Over the whole cycle it is not transitive: three ids can chase each other. */
  lemma NotTransitive()
    ensures exists a: SeqId, b: SeqId, c: SeqId ::
              CompareSeq(a, b) == -1 && CompareSeq(b, c) == -1 && CompareSeq(c, a) == -1
  {
    var a: SeqId, b: SeqId, c: SeqId := 1, 0x5555_5555, 0xAAAA_AAAA;
    assert CompareSeq(a, b) == -1 && CompareSeq(b, c) == -1 && CompareSeq(c, a) == -1;
  }
}
