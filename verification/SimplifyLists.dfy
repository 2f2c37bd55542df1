/** The passes that drop whole lists: those with an empty set, and duplicates. */
module SimplifyLists {
  import opened Waypoints
  import opened Simplify

  // ---------------------------------------------------------------------------------
  // Dropping whole lists

  predicate HasEmptySet(st: Waypoints) {
    exists j :: 0 <= j < |st| && st[j] == {}
  }

  lemma SizeLast(sts: seq<Waypoints>, n: nat)
    requires n < |sts|
    ensures Size(sts[..n + 1]) == Size(sts[..n]) + 1 + SetsSize(sts[n])
  {
    assert sts[..n + 1] == sts[..n] + [sts[n]];
    SizeJoin(sts[..n], [sts[n]]);
  }

  /** Lists in another order admit the same walks and have the same size. */
  lemma {:induction false} Permuted(a: seq<Waypoints>, b: seq<Waypoints>)
    requires multiset(a) == multiset(b)
    ensures |a| == |b| && Size(a) == Size(b)
    ensures forall p :: AdmitsAny(p, a) <==> AdmitsAny(p, b)
    ensures forall st :: st in a <==> st in b
  {
    assert |multiset(a)| == |a| && |multiset(b)| == |b|;
    forall st
      ensures st in a <==> st in b
    {
      assert st in a <==> st in multiset(a);
      assert st in b <==> st in multiset(b);
    }
    forall p
      ensures AdmitsAny(p, a) <==> AdmitsAny(p, b)
    {
      if i :| 0 <= i < |a| && Admits(p, a[i]) {
        assert a[i] in b;
      }
      if i :| 0 <= i < |b| && Admits(p, b[i]) {
        assert b[i] in a;
      }
    }
    PermutedSize(a, b);
  }

  lemma CountsWithoutAt<T>(s: seq<T>, i: nat)
    requires i < |s|
    ensures multiset(s[..i] + s[i + 1..]) == multiset(s) - multiset{s[i]}
  {
    var before, own, after := s[..i], [s[i]], s[i + 1..];
    assert s == before + own + after;
    assert multiset(before + own + after) == multiset(before) + multiset{s[i]} + multiset(after);
  }

  function WithoutAt(sts: seq<Waypoints>, i: nat): seq<Waypoints>
    requires i < |sts|
  {
    sts[..i] + sts[i + 1..]
  }

  lemma WithoutAtHolds(sts: seq<Waypoints>, i: nat)
    requires i < |sts|
    ensures multiset(WithoutAt(sts, i)) == multiset(sts) - multiset{sts[i]}
    ensures Size(sts) == Size(WithoutAt(sts, i)) + 1 + SetsSize(sts[i])
  {
    CountsWithoutAt(sts, i);
    WithoutAtSize(sts, i);
  }

  lemma {:induction false} WithoutAtSize(sts: seq<Waypoints>, i: nat)
    requires i < |sts|
    ensures Size(sts) == Size(WithoutAt(sts, i)) + 1 + SetsSize(sts[i])
  {
    var r := WithoutAt(sts, i);
    if i == 0 {
      assert r == sts[1..];
    } else {
      WithoutAtSize(sts[1..], i - 1);
      assert r[0] == sts[0] && r[1..] == WithoutAt(sts[1..], i - 1);
    }
  }

  lemma {:induction false} PermutedSize(a: seq<Waypoints>, b: seq<Waypoints>)
    requires multiset(a) == multiset(b)
    ensures Size(a) == Size(b)
  {
    assert |multiset(a)| == |a| && |multiset(b)| == |b|;
    if a != [] {
      assert a[0] in multiset(b);
      var i :| 0 <= i < |b| && b[i] == a[0];
      var rest := WithoutAt(b, i);
      WithoutAtHolds(b, i);
      WithoutAtHolds(a, 0);
      assert WithoutAt(a, 0) == a[1..];
      PermutedSize(a[1..], rest);
    }
  }

  /** Element `i` overwritten by the last one, and the last place given up. */
  function SwapRemove(sts: seq<Waypoints>, i: nat): (r: seq<Waypoints>)
    requires i < |sts|
    ensures |r| == |sts| - 1
  {
    sts[i := sts[|sts| - 1]][..|sts| - 1]
  }

  lemma SwapRemoveIsUpdate(sts: seq<Waypoints>, i: nat)
    requires i < |sts| - 1
    ensures SwapRemove(sts, i) == sts[..|sts| - 1][i := sts[|sts| - 1]]
  {
  }

  lemma SwapRemoveCounts(sts: seq<Waypoints>, i: nat)
    requires i < |sts|
    ensures multiset(SwapRemove(sts, i)) == multiset(sts) - multiset{sts[i]}
  {
    var u, last := sts[..|sts| - 1], sts[|sts| - 1];
    assert sts == u + [last];
    if i < |u| {
      SwapRemoveIsUpdate(sts, i);
      assert multiset(u[i := last]) == multiset(u) - multiset{u[i]} + multiset{last};
    } else {
      assert SwapRemove(sts, i) == u;
    }
  }

  lemma SwapRemoveSize(sts: seq<Waypoints>, i: nat)
    requires i < |sts|
    ensures Size(SwapRemove(sts, i)) + 1 + SetsSize(sts[i]) == Size(sts)
  {
    SwapRemoveCounts(sts, i);
    WithoutAtHolds(sts, i);
    PermutedSize(SwapRemove(sts, i), WithoutAt(sts, i));
  }

  /** What is left is the lists without an empty set, each as often as before. */
  ghost predicate EmptySetsRemoved(sts: seq<Waypoints>, live: seq<Waypoints>) {
    && multiset(live) <= multiset(sts)
    && forall st :: !HasEmptySet(st) ==> multiset(live)[st] == multiset(sts)[st]
  }

  lemma SwapRemoveKeeps(sts: seq<Waypoints>, live: seq<Waypoints>, i: nat)
    requires EmptySetsRemoved(sts, live) && i < |live| && HasEmptySet(live[i])
    ensures EmptySetsRemoved(sts, SwapRemove(live, i)) && Size(SwapRemove(live, i)) < Size(live)
  {
    SwapRemoveCounts(live, i);
    SwapRemoveSize(live, i);
  }

  /** Moves the last list into the place of each list with an empty set. */
  method RemoveEmptySets(sts: seq<Waypoints>) returns (live: seq<Waypoints>, changed: bool)
    ensures EmptySetsRemoved(sts, live) && forall i :: 0 <= i < |live| ==> !HasEmptySet(live[i])
    ensures |live| <= |sts| && (changed <==> |live| < |sts|)
    ensures if changed then Size(live) < Size(sts) else live == sts
  {
    live, changed := sts, false;
    var it := 0;
    while it != |live|
      invariant 0 <= it <= |live|
      invariant EmptySetsRemoved(sts, live)
      invariant forall i :: 0 <= i < it ==> !HasEmptySet(live[i])
      invariant |live| <= |sts| && (changed <==> |live| < |sts|)
      invariant if changed then Size(live) < Size(sts) else live == sts
      decreases |live| - it
    {
      if HasEmptySet(live[it]) {
        SwapRemoveKeeps(sts, live, it);
        live, changed := SwapRemove(live, it), true;
      } else {
        it := it + 1;
      }
    }
  }

  lemma AdmittedHasNoEmptySet(st: Waypoints, p: seq<nat>)
    requires Admits(p, st)
    ensures !HasEmptySet(st)
  {
    var pos :| VisitsInOrder(p, st, pos);
    forall j | 0 <= j < |st|
      ensures st[j] != {}
    {
      VisitedIsInhabited(p, st, pos, j);
    }
  }

  /** Nothing passes through the lists removed. */
  lemma RemoveEmptySetsKeepsWalks(sts: seq<Waypoints>, live: seq<Waypoints>, p: seq<nat>)
    requires EmptySetsRemoved(sts, live)
    ensures AdmitsAny(p, live) <==> AdmitsAny(p, sts)
    ensures forall st :: st in live ==> st in sts
  {
    forall st | st in live
      ensures st in sts
    {
      assert st in multiset(live) && st in multiset(sts);
    }
    if i :| 0 <= i < |live| && Admits(p, live[i]) {
      assert live[i] in sts;
    }
    if i :| 0 <= i < |sts| && Admits(p, sts[i]) {
      AdmittedHasNoEmptySet(sts[i], p);
      assert sts[i] in multiset(sts);
      assert sts[i] in multiset(live);
      assert sts[i] in live;
    }
  }

  /** Each list once; the order of the lists is not modelled. */
  method RemoveDuplicates(sts: seq<Waypoints>) returns (out: seq<Waypoints>, changed: bool)
    ensures forall st :: st in out <==> st in sts
    ensures forall i, j :: 0 <= i < j < |out| ==> out[i] != out[j]
    ensures |out| <= |sts| && (changed <==> |out| != |sts|)
    ensures Size(out) <= Size(sts) && (changed ==> Size(out) < Size(sts))
  {
    out := [];
    for i := 0 to |sts|
      invariant forall st :: st in out <==> st in sts[..i]
      invariant forall a, b :: 0 <= a < b < |out| ==> out[a] != out[b]
      invariant |out| <= i && Size(out) <= Size(sts[..i])
      invariant |out| < i ==> Size(out) < Size(sts[..i])
    {
      SizeLast(sts, i);
      if sts[i] !in out {
        SizeJoin(out, [sts[i]]);
        out := out + [sts[i]];
      }
    }
    assert sts[..|sts|] == sts;
    changed := |out| != |sts|;
  }
}
