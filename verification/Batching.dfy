/** Splitting a list of sized items, in order, into batches of bounded total size. */
module Batching {
  type Batch = seq<nat>

  ghost function Total(b: Batch): nat {
    if b == [] then 0 else Total(b[..|b| - 1]) + b[|b| - 1]
  }

  ghost function Flatten(bs: seq<Batch>): Batch {
    if bs == [] then [] else bs[0] + Flatten(bs[1..])
  }

  ghost predicate Fit(bs: seq<Batch>, max: nat) {
    forall k :: 0 <= k < |bs| ==> Total(bs[k]) <= max
  }

  /** No batch is empty, and none has room for the first item of the next one. */
  ghost predicate Tight(bs: seq<Batch>, max: nat) {
    && (forall k :: 0 <= k < |bs| ==> bs[k] != [])
    && (forall k :: 0 <= k < |bs| - 1 ==> Total(bs[k]) + bs[k + 1][0] > max)
  }

  lemma TotalSnoc(b: Batch, x: nat)
    ensures Total(b + [x]) == Total(b) + x
  {
  }

  lemma {:induction false} TotalAppend(a: Batch, b: Batch)
    ensures Total(a + b) == Total(a) + Total(b)
  {
    if b == [] {
      assert a + b == a;
    } else {
      var n := |b| - 1;
      TotalAppend(a, b[..n]);
      assert a + b == (a + b[..n]) + [b[n]];
      TotalSnoc(a + b[..n], b[n]);
    }
  }

  lemma {:induction false} FlattenSnoc(bs: seq<Batch>, b: Batch)
    ensures Flatten(bs + [b]) == Flatten(bs) + b
  {
    if bs == [] {
      assert [b][1..] == [];
    } else {
      FlattenSnoc(bs[1..], b);
      assert (bs + [b])[1..] == bs[1..] + [b];
    }
  }

  /** A tight split still makes progress when the other split's first batch starts before it. */
  lemma FirstBatchReachesNoFurther(g: seq<Batch>, head: Batch, p: Batch, rest: Batch, max: nat)
    requires Tight(g, max) && |g| > 1 && Total(p) <= max
    requires head + Flatten(g) == p + rest
    ensures |rest| >= |Flatten(g[1..])|
  {
    var tail := Flatten(g[1..]);
    assert Flatten(g) == g[0] + tail;
    if |rest| < |tail| {
      assert g[1..][0] == g[1];
      assert tail == g[1] + Flatten(g[1..][1..]);
      assert tail[0] == g[1][0];
      var start := head + g[0] + [g[1][0]];
      assert head + Flatten(g) == start + tail[1..];
      assert (start + tail[1..])[..|start|] == start;
      assert (p + rest)[..|start|] == p[..|start|];
      assert p == start + p[|start|..];
      TotalAppend(start, p[|start|..]);
      TotalSnoc(head + g[0], g[1][0]);
      TotalAppend(head, g[0]);
      assert false;
    }
  }

  lemma RestEndsWith(a: Batch, tail: Batch, p: Batch, rest: Batch)
    requires a + tail == p + rest && |rest| >= |tail|
    ensures rest == rest[..|rest| - |tail|] + tail
  {
    var all := a + tail;
    assert rest == all[|p|..];
    assert tail == all[|a|..] == rest[|rest| - |tail|..];
  }

  lemma FlattenNotEmpty(g: seq<Batch>, max: nat)
    requires Tight(g, max)
    ensures g != [] ==> Flatten(g) != []
    ensures g != [] ==> Tight(g[1..], max)
  {
  }

  /** A tight split stays ahead: no split of at least as much uses fewer batches. */
  lemma {:induction false} StaysAhead(g: seq<Batch>, head: Batch, p: seq<Batch>, max: nat)
    requires Tight(g, max) && Fit(p, max)
    requires head + Flatten(g) == Flatten(p)
    ensures |g| <= |p|
    decreases |g|
  {
    FlattenNotEmpty(g, max);
    if p != [] && |g| > 1 {
      var rest, tail := Flatten(p[1..]), Flatten(g[1..]);
      FirstBatchReachesNoFurther(g, head, p[0], rest, max);
      assert head + Flatten(g) == head + g[0] + tail;
      RestEndsWith(head + g[0], tail, p[0], rest);
      StaysAhead(g[1..], rest[..|rest| - |tail|], p[1..], max);
    }
  }

  /** Optimality: no order-preserving split into fitting batches uses fewer of them. */
  lemma TightIsOptimal(g: seq<Batch>, p: seq<Batch>, max: nat)
    requires Tight(g, max) && Fit(p, max) && Flatten(g) == Flatten(p)
    ensures |g| <= |p|
  {
    assert [] + Flatten(g) == Flatten(g);
    StaysAhead(g, [], p, max);
  }

  /** In particular two neighbours never fit together. */
  lemma NeighboursDoNotFit(g: seq<Batch>, k: nat, max: nat)
    requires Tight(g, max) && k + 1 < |g|
    ensures Total(g[k] + g[k + 1]) > max
  {
    TotalAppend(g[k], g[k + 1]);
    var b := g[k + 1];
    assert b == [b[0]] + b[1..];
    TotalAppend([b[0]], b[1..]);
    assert [b[0]][..0] == [];
    assert Total([b[0]]) == b[0];
  }
}
