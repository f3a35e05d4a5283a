/** How the send window is shared out among connections, with window sizes read as real numbers. */
module WindowShares {
  import opened Connection

  type Windows = map<string, real>

  ghost function Sum(m: Windows): real {
    if m == map[] then 0.0
    else
      var k :| k in m;
      m[k] + Sum(m - {k})
  }

  lemma {:induction false} SumRemove(m: Windows, k: string)
    requires k in m
    ensures Sum(m) == m[k] + Sum(m - {k})
    decreases |m|
  {
    var p :| p in m && Sum(m) == m[p] + Sum(m - {p});
    if p != k {
      SumRemove(m - {p}, k);
      SumRemove(m - {k}, p);
      assert m - {p} - {k} == m - {k} - {p};
    }
  }

  lemma {:induction false} SumPositive(m: Windows)
    requires forall k :: k in m ==> m[k] > 0.0
    ensures m != map[] ==> Sum(m) > 0.0
    ensures Sum(m) >= 0.0
    decreases |m|
  {
    if m != map[] {
      var k :| k in m;
      SumRemove(m, k);
      SumPositive(m - {k});
    }
  }

  /** Raising every window by at most 1 raises the sum by at most the number of connections. */
  lemma {:induction false} SumBetween(a: Windows, b: Windows)
    requires a.Keys == b.Keys
    requires forall k :: k in a ==> a[k] <= b[k] <= a[k] + 1.0
    ensures Sum(a) <= Sum(b) <= Sum(a) + |a| as real
    decreases |a|
  {
    if a == map[] {
      assert b == map[];
    } else {
      var k :| k in a;
      SumRemove(a, k);
      SumRemove(b, k);
      SumBetween(a - {k}, b - {k});
      assert (a - {k}).Keys == a.Keys - {k};
      assert |a| == |a - {k}| + 1;
    }
  }

  ghost function Plus(x: real, y: real): real { x + y }

  /** A share-out rule: adding windows adds their shares, and a larger window gets no smaller a share. */
  ghost predicate ShareRule(f: real -> real) {
    && f(0.0) == 0.0
    && (forall x, y {:trigger Plus(x, y)} :: f(Plus(x, y)) == f(x) + f(y))
    && (forall x, y :: x <= y ==> f(x) <= f(y))
  }

  lemma {:induction false} SumOfShares(a: Windows, b: Windows, f: real -> real)
    requires ShareRule(f) && a.Keys == b.Keys && forall k :: k in a ==> b[k] == f(a[k])
    ensures Sum(b) == f(Sum(a))
    decreases |a|
  {
    if a == map[] {
      assert b == map[];
    } else {
      var k :| k in a;
      SumRemove(a, k);
      SumRemove(b, k);
      SumOfShares(a - {k}, b - {k}, f);
      assert Sum(a) == Plus(a[k], Sum(a - {k}));
    }
  }

  lemma Proportional(c: real, f: real -> real)
    requires c >= 0.0 && forall x :: f(x) == c * x
    ensures ShareRule(f)
  {
  }

  // ------------------------------------------------------- the handshake split

  function ConnKey(localId: string, remoteId: string): string {
    localId + " - " + remoteId
  }

  /** The keys of the first `n` id pairs. */
  ghost function PairKeys(local: seq<string>, remote: seq<string>, n: nat): seq<string>
    requires n <= |local| && n <= |remote|
  {
    seq(n, i requires 0 <= i < n => ConnKey(local[i], remote[i]))
  }

  /** One connection a key, each with window `w`; a repeated key keeps one entry. */
  ghost function Split(keys: seq<string>, w: real): Windows {
    map k | k in keys :: w
  }

  ghost predicate Distinct(keys: seq<string>) {
    forall i, j :: 0 <= i < j < |keys| ==> keys[i] != keys[j]
  }

  lemma {:induction false} SplitSize(keys: seq<string>, w: real)
    ensures |Split(keys, w)| <= |keys|
    ensures |Split(keys, w)| == |keys| <==> Distinct(keys)
  {
    if keys != [] {
      var n := |keys| - 1;
      var k, front := keys[n], keys[..n];
      SplitSize(front, w);
      assert keys == front + [k];
      assert Split(keys, w).Keys == Split(front, w).Keys + {k};
      if k in front {
        assert Split(keys, w).Keys == Split(front, w).Keys;
        var i :| 0 <= i < n && front[i] == k;
        assert keys[i] == keys[n];
      } else {
        assert |Split(keys, w).Keys| == |Split(front, w).Keys| + 1;
        assert Distinct(front) ==> Distinct(keys);
      }
      assert Distinct(keys) ==> Distinct(front) by {
        assert forall i :: 0 <= i < n ==> front[i] == keys[i];
      }
    }
  }

  lemma {:induction false} SumOfOnes(m: Windows)
    requires forall k :: k in m ==> m[k] == 1.0
    ensures Sum(m) == |m| as real
    decreases |m|
  {
    if m != map[] {
      var k :| k in m;
      SumRemove(m, k);
      SumOfOnes(m - {k});
      assert (m - {k}).Keys == m.Keys - {k};
      assert |m| == |m - {k}| + 1;
    }
  }

  lemma SumOfEqual(m: Windows, w: real, f: real -> real)
    requires ShareRule(f) && f(1.0) == w && forall k :: k in m ==> m[k] == w
    ensures Sum(m) == f(|m| as real)
  {
    var ones := map k | k in m :: 1.0;
    SumOfOnes(ones);
    SumOfShares(ones, m, f);
    assert ones.Keys == m.Keys;
    assert |ones| == |m|;
  }

  lemma SplitSumBy(keys: seq<string>, w: real, f: real -> real)
    requires keys != [] && ShareRule(f) && f(1.0) == w > 0.0
    ensures var sum := Sum(Split(keys, w));
            sum <= f(|keys| as real) && (sum == f(|keys| as real) <==> Distinct(keys))
  {
    var m, n := Split(keys, w), |keys|;
    SplitSize(keys, w);
    SumOfEqual(m, w, f);
    assert Plus((n - 1) as real, 1.0) == n as real;
    assert |m| < n ==> f(|m| as real) <= f((n - 1) as real);
  }

  lemma Scaling(c: real) returns (f: real -> real)
    requires c >= 0.0
    ensures ShareRule(f) && forall x :: f(x) == c * x
  {
    f := (x: real) => c * x;
    Proportional(c, f);
  }

  lemma WholeShare(w: real, count: real, n: real)
    requires n > 0.0 && count > 0.0 && w == count / n
    ensures w > 0.0 && w * n == count
  {
  }

  lemma EqualSplit(w: real, count: real, n: real) returns (f: real -> real)
    requires w > 0.0 && w * n == count
    ensures ShareRule(f) && f(1.0) == w && f(n) == count
  {
    f := Scaling(w);
    assert f(1.0) == w * 1.0;
  }

  /** The shares add up to the packet count exactly when no two connections have the same key. */
  lemma SplitSum(keys: seq<string>, count: real)
    requires keys != [] && count > 0.0
    ensures Sum(Split(keys, count / |keys| as real)) == count <==> Distinct(keys)
    ensures Sum(Split(keys, count / |keys| as real)) <= count
  {
    var w := count / |keys| as real;
    WholeShare(w, count, |keys| as real);
    var f := EqualSplit(w, count, |keys| as real);
    SplitSumBy(keys, w, f);
  }

  // ---------------------------------------------------------- renormalisation

  /** The part of `count` that a window of size `w` is entitled to. */
  function Portion(count: real, w: real, total: real): real
    requires total > 0.0
  {
    count * (w / total)
  }

  ghost function Renormalised(m: Windows, count: real): Windows {
    var total := Sum(m);
    if total <= 0.0 then m else map k | k in m :: Clamp(Portion(count, m[k], total), MIN_WINDOW)
  }

  /** Shares by any rule, each raised to the minimum. */
  ghost predicate Raised(m: Windows, r: Windows, f: real -> real) {
    m.Keys == r.Keys && forall k :: k in m ==> m[k] > 0.0 && r[k] == Clamp(f(m[k]), MIN_WINDOW)
  }

  lemma RaisedInOrder(m: Windows, r: Windows, f: real -> real)
    requires ShareRule(f) && Raised(m, r, f)
    ensures forall k :: k in m ==> r[k] >= 1.0 && f(m[k]) <= r[k] <= f(m[k]) + 1.0
    ensures forall j, k :: j in m && k in m && m[j] <= m[k] ==> r[j] <= r[k]
  {
  }

  lemma RaisedSum(m: Windows, r: Windows, f: real -> real)
    requires ShareRule(f) && m.Keys == r.Keys
    requires forall k :: k in m ==> f(m[k]) <= r[k] <= f(m[k]) + 1.0
    ensures f(Sum(m)) <= Sum(r) <= f(Sum(m)) + |m| as real
  {
    var ideal := map k | k in m :: f(m[k]);
    SumOfShares(m, ideal, f);
    SumBetween(ideal, r);
    assert ideal.Keys == m.Keys;
    assert |ideal| == |m|;
  }

  lemma PortionIsProportional(count: real, w: real, total: real)
    requires total > 0.0 && count > 0.0
    ensures Portion(count, w, total) == (count / total) * w
    ensures count / total > 0.0 && (count / total) * total == count
  {
  }

  /** The part of `count` that `w` is of `total`, or 1 if that is less. */
  ghost predicate IsShare(r: real, w: real, count: real, total: real) {
    r * total == count * w || (r == 1.0 && count * w < total)
  }

  lemma Ratio(w: real, total: real, q: real)
    requires total > 0.0 && q == w / total
    ensures q * total == w
  {
  }

  lemma Regrouped(count: real, q: real, total: real, w: real, p: real)
    requires q * total == w && p == count * q
    ensures p * total == count * w
  {
  }

  lemma Below(p: real, total: real)
    requires total > 0.0 && p < 1.0
    ensures p * total < total
  {
  }

  lemma ClampedPortion(count: real, w: real, total: real)
    requires total > 0.0
    ensures IsShare(Clamp(Portion(count, w, total), MIN_WINDOW), w, count, total)
  {
    var p := Portion(count, w, total);
    Ratio(w, total, w / total);
    Regrouped(count, w / total, total, w, p);
    hide Portion;
    if p < 1.0 {
      Below(p, total);
    }
  }

  /** A connection gets the part of the packet count that its window is of all windows, or 1 if that is less. */
  lemma ShareExactly(m: Windows, count: real, k: string)
    requires Sum(m) > 0.0 && k in m
    ensures k in Renormalised(m, count) && IsShare(Renormalised(m, count)[k], m[k], count, Sum(m))
  {
    hide IsShare, Portion, Clamp;
    ClampedPortion(count, m[k], Sum(m));
  }

  lemma PortionRule(count: real, total: real) returns (f: real -> real)
    requires total > 0.0 && count > 0.0
    ensures ShareRule(f) && f(total) == count && forall w :: f(w) == Portion(count, w, total)
  {
    PortionIsProportional(count, total, total);
    f := Scaling(count / total);
    forall w
      ensures f(w) == Portion(count, w, total)
    {
      PortionIsProportional(count, w, total);
    }
  }

  /**
   * One renormalisation of positive windows: every window is at least 1, their order is kept, and the
   * sum is between the packet count and the packet count plus one a connection.
   */
  lemma RenormalisedShares(m: Windows, count: real)
    requires count > 0.0 && Sum(m) > 0.0 && forall k :: k in m ==> m[k] > 0.0
    ensures var r := Renormalised(m, count);
            && r.Keys == m.Keys
            && (forall k :: k in r ==> r[k] >= 1.0)
            && (forall j, k :: j in m && k in m && m[j] <= m[k] ==> r[j] <= r[k])
            && count <= Sum(r) <= count + |m| as real
  {
    var f := PortionRule(count, Sum(m));
    RaisedInOrder(m, Renormalised(m, count), f);
    RaisedSum(m, Renormalised(m, count), f);
  }
}
