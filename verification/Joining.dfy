/** Joining lists that differ in one column only, column after column within each pool of lists of one length. */
module Joining {
  import opened Waypoints
  import opened Simplify
  import opened Dropping
  import opened SimplifyLists

  /** The other columns. */
  function Key(st: Waypoints, i: nat): Waypoints
    requires i < |st|
  {
    Drop(st, i)
  }

  /** Adds column i of `st` to the list with the same other columns, or the list itself if there is none. */
  function MergeInto(merged: seq<Waypoints>, st: Waypoints, i: nat): (r: seq<Waypoints>)
    requires i < |st| && forall m :: m in merged ==> |m| == |st|
    ensures forall m :: m in r ==> |m| == |st|
    ensures |merged| <= |r| <= |merged| + 1
  {
    if merged == [] then [st]
    else if Key(merged[0], i) == Key(st, i) then [merged[0][i := merged[0][i] + st[i]]] + merged[1..]
    else [merged[0]] + MergeInto(merged[1..], st, i)
  }

  ghost predicate DistinctKeys(sts: seq<Waypoints>, i: nat) {
    forall a, b :: 0 <= a < b < |sts| && i < |sts[a]| && i < |sts[b]| ==> Key(sts[a], i) != Key(sts[b], i)
  }

  lemma SameKey(a: Waypoints, b: Waypoints, i: nat, j: nat)
    requires i < |a| == |b| && j < |a| && j != i && Key(a, i) == Key(b, i)
    ensures a[j] == b[j]
  {
    if j < i {
      assert a[j] == Key(a, i)[j] && b[j] == Key(b, i)[j];
    } else {
      assert a[j] == Key(a, i)[j - 1] && b[j] == Key(b, i)[j - 1];
    }
  }

  lemma JoinedAdmits(a: Waypoints, b: Waypoints, i: nat, p: seq<nat>)
    requires i < |a| == |b| && Key(a, i) == Key(b, i)
    ensures Admits(p, a[i := a[i] + b[i]]) <==> Admits(p, a) || Admits(p, b)
  {
    var u := a[i := a[i] + b[i]];
    forall j | 0 <= j < |a| && j != i
      ensures a[j] == b[j]
    {
      SameKey(a, b, i, j);
    }
    if pos :| VisitsInOrder(p, u, pos) {
      assert p[pos[i]] in u[i];
      if p[pos[i]] in a[i] {
        assert VisitsInOrder(p, a, pos);
      } else {
        assert VisitsInOrder(p, b, pos);
      }
    }
    if pos :| VisitsInOrder(p, a, pos) {
      assert VisitsInOrder(p, u, pos);
    }
    if pos :| VisitsInOrder(p, b, pos) {
      assert VisitsInOrder(p, u, pos);
    }
  }

  lemma AdmitsAnyJoin(p: seq<nat>, a: seq<Waypoints>, b: seq<Waypoints>)
    ensures AdmitsAny(p, a + b) <==> AdmitsAny(p, a) || AdmitsAny(p, b)
  {
    if i :| 0 <= i < |a| && Admits(p, a[i]) {
      assert Admits(p, (a + b)[i]);
    }
    if i :| 0 <= i < |b| && Admits(p, b[i]) {
      assert Admits(p, (a + b)[|a| + i]);
    }
  }

  lemma AdmitsAnyOne(p: seq<nat>, st: Waypoints)
    ensures AdmitsAny(p, [st]) <==> Admits(p, st)
  {
    if Admits(p, st) {
      assert Admits(p, [st][0]);
    }
  }

  lemma {:induction false} MergeAdmits(merged: seq<Waypoints>, st: Waypoints, i: nat, p: seq<nat>)
    requires i < |st| && forall m :: m in merged ==> |m| == |st|
    ensures AdmitsAny(p, MergeInto(merged, st, i)) <==> AdmitsAny(p, merged) || Admits(p, st)
  {
    AdmitsAnyOne(p, st);
    if merged != [] {
      var head, tail := merged[0], merged[1..];
      assert merged == [head] + tail;
      AdmitsAnyJoin(p, [head], tail);
      AdmitsAnyOne(p, head);
      if Key(head, i) == Key(st, i) {
        var u := head[i := head[i] + st[i]];
        JoinedAdmits(head, st, i, p);
        AdmitsAnyJoin(p, [u], tail);
        AdmitsAnyOne(p, u);
      } else {
        MergeAdmits(tail, st, i, p);
        AdmitsAnyJoin(p, [head], MergeInto(tail, st, i));
      }
    }
  }

  lemma UnionSize(a: set<nat>, b: set<nat>)
    ensures |a + b| <= |a| + |b|
  {
    assert a + b == a + (b - a);
    assert |a + (b - a)| == |a| + |b - a|;
    SubsetSize(b - a, b);
  }

  lemma {:induction false} ColumnSize(st: Waypoints, i: nat)
    requires i < |st|
    ensures |st[i]| < SetsSize(st)
  {
    if i > 0 {
      ColumnSize(st[1..], i - 1);
    }
  }

  lemma {:induction false} MergeSize(merged: seq<Waypoints>, st: Waypoints, i: nat)
    requires i < |st| && forall m :: m in merged ==> |m| == |st|
    ensures var r := MergeInto(merged, st, i);
            && Size(r) <= Size(merged) + 1 + SetsSize(st)
            && (|r| == |merged| ==> Size(r) < Size(merged) + 1 + SetsSize(st))
  {
    SizeJoin(merged, [st]);
    if merged != [] {
      var head, tail := merged[0], merged[1..];
      assert merged == [head] + tail;
      SizeJoin([head], tail);
      if Key(head, i) == Key(st, i) {
        var u := head[i := head[i] + st[i]];
        SetsSizeUpdate(head, i, head[i] + st[i]);
        UnionSize(head[i], st[i]);
        ColumnSize(st, i);
        SizeJoin([u], tail);
      } else {
        MergeSize(tail, st, i);
        SizeJoin([head], MergeInto(tail, st, i));
      }
    }
  }

  ghost predicate HasKey(sts: seq<Waypoints>, i: nat, key: Waypoints) {
    exists c :: 0 <= c < |sts| && i < |sts[c]| && Key(sts[c], i) == key
  }

  lemma KeyOfHeadOrTail(sts: seq<Waypoints>, i: nat, key: Waypoints)
    requires sts != [] && i < |sts[0]| && HasKey(sts, i, key)
    ensures Key(sts[0], i) == key || HasKey(sts[1..], i, key)
  {
    var c :| 0 <= c < |sts| && i < |sts[c]| && Key(sts[c], i) == key;
    if c > 0 {
      assert sts[1..][c - 1] == sts[c];
    }
  }

  /** A merge adds no key but that of the list merged in. */
  lemma {:induction false} MergeKeys(merged: seq<Waypoints>, st: Waypoints, i: nat, key: Waypoints)
    requires i < |st| && forall m :: m in merged ==> |m| == |st|
    requires HasKey(MergeInto(merged, st, i), i, key)
    ensures key == Key(st, i) || HasKey(merged, i, key)
  {
    var r := MergeInto(merged, st, i);
    if merged == [] {
      KeyOfHeadOrTail(r, i, key);
    } else {
      var head, tail := merged[0], merged[1..];
      assert head in merged;
      KeyOfHeadOrTail(r, i, key);
      if Key(head, i) == Key(st, i) {
        assert r[1..] == tail && Key(r[0], i) == Key(head, i);
      } else if Key(r[0], i) != key {
        assert r[1..] == MergeInto(tail, st, i);
        MergeKeys(tail, st, i, key);
      }
      if c :| 0 <= c < |tail| && i < |tail[c]| && Key(tail[c], i) == key {
        assert merged[c + 1] == tail[c];
      }
    }
  }

  /** The keys are distinct when the first is not among the others, and those are distinct. */
  lemma DistinctHead(sts: seq<Waypoints>, i: nat)
    requires sts != [] && i < |sts[0]|
    ensures DistinctKeys(sts, i) <==> DistinctKeys(sts[1..], i) && !HasKey(sts[1..], i, Key(sts[0], i))
  {
    var tail := sts[1..];
    assert forall a :: 0 <= a < |tail| ==> tail[a] == sts[a + 1];
    if DistinctKeys(tail, i) && !HasKey(tail, i, Key(sts[0], i)) {
      forall a, b | 0 <= a < b < |sts| && i < |sts[a]| && i < |sts[b]|
        ensures Key(sts[a], i) != Key(sts[b], i)
      {
        assert sts[b] == tail[b - 1];
        if a > 0 {
          assert sts[a] == tail[a - 1];
        }
      }
    }
    if DistinctKeys(sts, i) {
      forall a, b | 0 <= a < b < |tail| && i < |tail[a]| && i < |tail[b]|
        ensures Key(tail[a], i) != Key(tail[b], i)
      {
        assert Key(sts[a + 1], i) != Key(sts[b + 1], i);
      }
    }
  }

  lemma {:induction false} MergeDistinct(merged: seq<Waypoints>, st: Waypoints, i: nat)
    requires i < |st| && (forall m :: m in merged ==> |m| == |st|) && DistinctKeys(merged, i)
    ensures DistinctKeys(MergeInto(merged, st, i), i)
  {
    if merged != [] {
      var head, tail, r := merged[0], merged[1..], MergeInto(merged, st, i);
      assert head in merged;
      DistinctHead(merged, i);
      DistinctHead(r, i);
      if Key(head, i) == Key(st, i) {
        assert r[1..] == tail && Key(r[0], i) == Key(head, i);
      } else {
        assert r[1..] == MergeInto(tail, st, i);
        MergeDistinct(tail, st, i);
        if HasKey(MergeInto(tail, st, i), i, Key(head, i)) {
          MergeKeys(tail, st, i, Key(head, i));
        }
      }
    }
  }

  predicate AllOfLength(sts: seq<Waypoints>, n: nat) {
    forall st :: st in sts ==> |st| == n
  }

  ghost predicate Below(st: Waypoints, bound: nat) {
    forall j, v :: 0 <= j < |st| && v in st[j] ==> v < bound
  }

  ghost predicate AllBelow(sts: seq<Waypoints>, bound: nat) {
    forall st :: st in sts ==> Below(st, bound)
  }

  lemma {:induction false} MergeBelow(merged: seq<Waypoints>, st: Waypoints, i: nat, bound: nat)
    requires i < |st| && forall m :: m in merged ==> |m| == |st|
    requires AllBelow(merged, bound) && Below(st, bound)
    ensures AllBelow(MergeInto(merged, st, i), bound)
  {
    if merged != [] {
      var head, tail := merged[0], merged[1..];
      assert head in merged;
      if Key(head, i) == Key(st, i) {
        assert Below(head[i := head[i] + st[i]], bound);
      } else {
        MergeBelow(tail, st, i, bound);
      }
    }
  }

  ghost predicate AllApart(sts: seq<Waypoints>) {
    forall st :: st in sts ==> Apart(st)
  }

  lemma MergedApart(a: Waypoints, b: Waypoints, i: nat)
    requires i < |a| == |b| && Key(a, i) == Key(b, i) && Apart(a) && Apart(b)
    ensures Apart(a[i := a[i] + b[i]])
  {
    var u := a[i := a[i] + b[i]];
    forall j | 0 <= j < |a| && j != i
      ensures a[j] == b[j]
    {
      SameKey(a, b, i, j);
    }
    forall j, m | 1 <= j < m < |u|
      ensures u[j] !! u[m]
    {
      assert a[j] !! a[m] && b[j] !! b[m];
    }
  }

  lemma {:induction false} MergeApart(merged: seq<Waypoints>, st: Waypoints, i: nat)
    requires i < |st| && forall m :: m in merged ==> |m| == |st|
    requires AllApart(merged) && Apart(st)
    ensures AllApart(MergeInto(merged, st, i))
  {
    if merged != [] {
      var head, tail := merged[0], merged[1..];
      assert head in merged;
      if Key(head, i) == Key(st, i) {
        MergedApart(head, st, i);
      } else {
        MergeApart(tail, st, i);
      }
    }
  }

  /** A list that is merged into none is added at the end. */
  lemma {:induction false} MergeAppends(merged: seq<Waypoints>, st: Waypoints, i: nat)
    requires i < |st| && forall m :: m in merged ==> |m| == |st|
    ensures |MergeInto(merged, st, i)| == |merged| + 1 ==> MergeInto(merged, st, i) == merged + [st]
  {
    if merged != [] && Key(merged[0], i) != Key(st, i) {
      MergeAppends(merged[1..], st, i);
    }
  }

  /** `out` stands for the lists of `pool`, none of which it lost and some of which it may have joined. */
  ghost predicate Joined(pool: seq<Waypoints>, out: seq<Waypoints>, n: nat) {
    && AllOfLength(out, n)
    && (forall p :: AdmitsAny(p, out) <==> AdmitsAny(p, pool))
    && (forall bound :: AllBelow(pool, bound) ==> AllBelow(out, bound)) && (AllApart(pool) ==> AllApart(out))
    && |out| <= |pool| && Size(out) <= Size(pool) && (if |out| < |pool| then Size(out) < Size(pool) else out == pool)
  }

  lemma ApartParts(a: seq<Waypoints>, b: seq<Waypoints>)
    ensures AllApart(a + b) <==> AllApart(a) && AllApart(b)
  {
    forall st
      ensures st in a + b <==> st in a || st in b
    {
    }
  }

  lemma MergeJoined(pool: seq<Waypoints>, out: seq<Waypoints>, n: nat, st: Waypoints, i: nat)
    requires i < n == |st| && Joined(pool, out, n)
    ensures Joined(pool + [st], MergeInto(out, st, i), n)
  {
    MergeSize(out, st, i);
    SizeJoin(pool, [st]);
    MergeAppends(out, st, i);
    if AllApart(pool + [st]) {
      ApartParts(pool, [st]);
      MergeApart(out, st, i);
    }
    forall p
      ensures AdmitsAny(p, MergeInto(out, st, i)) <==> AdmitsAny(p, pool + [st])
    {
      MergeAdmits(out, st, i, p);
      AdmitsAnyJoin(p, pool, [st]);
      AdmitsAnyOne(p, st);
    }
    forall bound | AllBelow(pool + [st], bound)
      ensures AllBelow(MergeInto(out, st, i), bound)
    {
      assert st in pool + [st];
      forall l | l in pool
        ensures Below(l, bound)
      {
        assert l in pool + [st];
      }
      MergeBelow(out, st, i, bound);
    }
  }

  /** The lists of a pool, merged one after the other. */
  function MergeAll(pool: seq<Waypoints>, n: nat, i: nat): (r: seq<Waypoints>)
    requires i < n && AllOfLength(pool, n)
    ensures AllOfLength(r, n)
  {
    if pool == [] then []
    else
      var before, last := pool[..|pool| - 1], pool[|pool| - 1];
      assert last in pool;
      MergeInto(MergeAll(before, n, i), last, i)
  }

  lemma {:induction false} MergeAllJoins(pool: seq<Waypoints>, n: nat, i: nat)
    requires i < n && AllOfLength(pool, n)
    ensures Joined(pool, MergeAll(pool, n, i), n) && DistinctKeys(MergeAll(pool, n, i), i)
  {
    if pool != [] {
      var before, last := pool[..|pool| - 1], pool[|pool| - 1];
      assert last in pool && pool == before + [last];
      MergeAllJoins(before, n, i);
      MergeDistinct(MergeAll(before, n, i), last, i);
      MergeJoined(before, MergeAll(before, n, i), n, last, i);
    }
  }

  /** Joins the lists of a pool that differ at most in column i. */
  method JoinAt(pool: seq<Waypoints>, n: nat, i: nat) returns (out: seq<Waypoints>)
    requires i < n && AllOfLength(pool, n)
    ensures out == MergeAll(pool, n, i)
    ensures Joined(pool, out, n) && DistinctKeys(out, i)
  {
    out := [];
    for m := 0 to |pool|
      invariant out == MergeAll(pool[..m], n, i)
    {
      assert pool[m] in pool;
      assert pool[..m + 1][..m] == pool[..m];
      out := MergeInto(out, pool[m], i);
    }
    assert pool[..|pool|] == pool;
    MergeAllJoins(pool, n, i);
  }

  function Flatten(pools: seq<seq<Waypoints>>): seq<Waypoints> {
    if pools == [] then [] else pools[0] + Flatten(pools[1..])
  }

  /** Every pool holds lists of one length. */
  ghost predicate Uniform(pools: seq<seq<Waypoints>>) {
    forall i :: 0 <= i < |pools| ==> |pools[i]| > 0 && AllOfLength(pools[i], |pools[i][0]|)
  }

  /** Puts a list into the pool of its length. */
  function AddToPool(pools: seq<seq<Waypoints>>, st: Waypoints): (r: seq<seq<Waypoints>>)
    requires Uniform(pools)
    ensures Uniform(r)
  {
    if pools == [] then [[st]]
    else if |pools[0][0]| == |st| then [pools[0] + [st]] + pools[1..]
    else
      assert Uniform(pools[1..]);
      [pools[0]] + AddToPool(pools[1..], st)
  }

  lemma {:induction false} PoolHolds(pools: seq<seq<Waypoints>>, st: Waypoints)
    requires Uniform(pools)
    ensures multiset(Flatten(AddToPool(pools, st))) == multiset(Flatten(pools)) + multiset{st}
  {
    if pools == [] {
      assert Flatten([[st]]) == [st];
    } else {
      var head, tail := pools[0], pools[1..];
      assert Uniform(tail);
      if |head[0]| == |st| {
        var r := [head + [st]] + tail;
        assert r[1..] == tail;
        assert Flatten(r) == head + [st] + Flatten(tail);
      } else {
        PoolHolds(tail, st);
        var r := [head] + AddToPool(tail, st);
        assert r[1..] == AddToPool(tail, st);
        assert Flatten(r) == head + Flatten(AddToPool(tail, st));
      }
    }
  }

  /** Joins within one pool, column after column. */
  method JoinPool(pool: seq<Waypoints>, n: nat) returns (out: seq<Waypoints>)
    requires AllOfLength(pool, n)
    ensures Joined(pool, out, n) && (n > 0 ==> DistinctKeys(out, n - 1))
    ensures |out| == |pool| ==> DistinctTo(pool, n)
  {
    out := pool;
    for i := 0 to n
      invariant Joined(pool, out, n) && (i > 0 ==> DistinctKeys(out, i - 1))
      invariant |out| == |pool| ==> DistinctTo(pool, i)
    {
      var joined := JoinAt(out, n, i);
      JoinedFurther(pool, out, joined, n);
      if |joined| == |pool| {
        DistinctNext(pool, i);
      }
      out := joined;
    }
  }

  /** No two lists of the pool agree but for one of the first i columns. */
  ghost predicate DistinctTo(pool: seq<Waypoints>, i: nat) {
    forall j :: 0 <= j < i ==> DistinctKeys(pool, j)
  }

  lemma DistinctNext(pool: seq<Waypoints>, i: nat)
    requires DistinctTo(pool, i) && DistinctKeys(pool, i)
    ensures DistinctTo(pool, i + 1)
  {
  }

  lemma JoinedFurther(pool: seq<Waypoints>, mid: seq<Waypoints>, out: seq<Waypoints>, n: nat)
    requires Joined(pool, mid, n) && Joined(mid, out, n)
    ensures Joined(pool, out, n)
  {
  }

  /** No two different lists can be joined: those of one length differ in two columns or more. */
  ghost predicate Unjoinable(sts: seq<Waypoints>) {
    forall a, b, i: nat :: a in sts && b in sts && a != b && i < |a| == |b| ==> Key(a, i) != Key(b, i)
  }

  lemma DistinctIsUnjoinable(pool: seq<Waypoints>, n: nat)
    requires AllOfLength(pool, n) && DistinctTo(pool, n)
    ensures Unjoinable(pool)
  {
    forall a, b, i: nat | a in pool && b in pool && a != b && i < |a| == |b|
      ensures Key(a, i) != Key(b, i)
    {
      var x :| 0 <= x < |pool| && pool[x] == a;
      var y :| 0 <= y < |pool| && pool[y] == b;
      assert DistinctKeys(pool, i);
      assert x < y || y < x;
    }
  }

  /** Sorts the lists into pools of equal length and joins within each pool. */
  method Join(sts: seq<Waypoints>) returns (out: seq<Waypoints>, changed: bool)
    ensures JoinOf(sts, out) && (changed <==> |out| != |sts|)
  {
    var pools := MakePools(sts);
    PoolsAreSeparate(sts);
    out := JoinPools(pools);
    PoolsHold(sts);
    JoinOfPermuted(Flatten(pools), sts, out);
    changed := |out| != |sts|;
  }

  /**
   * `out` stands for the lists `sts`, some of which may be joined: the same walks pass through some list, no list
   * has a new length or a new node, and if no list was joined then none can be.
   */
  ghost predicate JoinOf(sts: seq<Waypoints>, out: seq<Waypoints>) {
    && (forall p :: AdmitsAny(p, out) <==> AdmitsAny(p, sts))
    && (forall st :: st in out ==> exists st' :: st' in sts && |st'| == |st|)
    && (forall bound :: AllBelow(sts, bound) ==> AllBelow(out, bound))
    && (AllApart(sts) ==> AllApart(out))
    && |out| <= |sts| && Size(out) <= Size(sts)
    && (if |out| < |sts| then Size(out) < Size(sts) else Unjoinable(out) && forall st :: st in out <==> st in sts)
  }

  lemma JoinOfPermuted(a: seq<Waypoints>, b: seq<Waypoints>, out: seq<Waypoints>)
    requires multiset(a) == multiset(b) && JoinOf(a, out)
    ensures JoinOf(b, out)
  {
    Permuted(a, b);
    SameBelow(a, b);
    forall st | st in out
      ensures exists st' :: st' in b && |st'| == |st|
    {
      var st' :| st' in a && |st'| == |st|;
      assert st' in b;
    }
  }

  function PoolsOf(sts: seq<Waypoints>): (r: seq<seq<Waypoints>>)
    ensures Uniform(r)
  {
    if sts == [] then [] else AddToPool(PoolsOf(sts[..|sts| - 1]), sts[|sts| - 1])
  }

  lemma {:induction false} PoolsHold(sts: seq<Waypoints>)
    ensures multiset(Flatten(PoolsOf(sts))) == multiset(sts)
  {
    if sts != [] {
      var n := |sts| - 1;
      PoolsHold(sts[..n]);
      PoolHolds(PoolsOf(sts[..n]), sts[n]);
      CountsWithoutAt(sts, n);
      assert sts[..n] + sts[n + 1..] == sts[..n];
      assert sts[n] in multiset(sts);
    }
  }

  /** The pools keep the lengths of their lists, and a new one is for a new length. */
  lemma {:induction false} AddedLengths(pools: seq<seq<Waypoints>>, st: Waypoints)
    requires Uniform(pools)
    ensures var r := AddToPool(pools, st);
            && |pools| <= |r| <= |pools| + 1 && (forall i :: 0 <= i < |pools| ==> |r[i][0]| == |pools[i][0]|)
            && (|r| > |pools| ==> |r[|pools|][0]| == |st| && forall i :: 0 <= i < |pools| ==> |pools[i][0]| != |st|)
  {
    if pools != [] && |pools[0][0]| != |st| {
      var tail := pools[1..];
      assert Uniform(tail);
      AddedLengths(tail, st);
      var t, r := AddToPool(tail, st), AddToPool(pools, st);
      assert r == [pools[0]] + t;
      forall i | 0 <= i < |pools|
        ensures |r[i][0]| == |pools[i][0]| && (|r| > |pools| ==> |pools[i][0]| != |st|)
      {
        if i > 0 {
          assert r[i] == t[i - 1] && pools[i] == tail[i - 1];
        }
      }
    }
  }

  lemma AddedSeparate(pools: seq<seq<Waypoints>>, st: Waypoints)
    requires Uniform(pools) && SeparatePools(pools)
    ensures SeparatePools(AddToPool(pools, st))
  {
    var r := AddToPool(pools, st);
    AddedLengths(pools, st);
    forall i, j | 0 <= i < j < |r|
      ensures |r[i][0]| != |r[j][0]|
    {
      if j == |pools| {
        assert |r[i][0]| == |pools[i][0]| != |st|;
      } else {
        assert |r[i][0]| == |pools[i][0]| && |r[j][0]| == |pools[j][0]|;
      }
    }
  }

  lemma {:induction false} PoolsAreSeparate(sts: seq<Waypoints>)
    ensures SeparatePools(PoolsOf(sts))
  {
    if sts != [] {
      PoolsAreSeparate(sts[..|sts| - 1]);
      AddedSeparate(PoolsOf(sts[..|sts| - 1]), sts[|sts| - 1]);
    }
  }

  method MakePools(sts: seq<Waypoints>) returns (pools: seq<seq<Waypoints>>)
    ensures pools == PoolsOf(sts)
  {
    pools := [];
    for i := 0 to |sts|
      invariant pools == PoolsOf(sts[..i])
    {
      assert sts[..i + 1][..i] == sts[..i];
      pools := AddToPool(pools, sts[i]);
    }
    assert sts[..|sts|] == sts;
  }

  lemma SameBelow(a: seq<Waypoints>, b: seq<Waypoints>)
    requires forall st :: st in a <==> st in b
    ensures forall bound :: AllBelow(b, bound) ==> AllBelow(a, bound)
  {
  }

  /** Different pools hold lists of different lengths. */
  ghost predicate SeparatePools(pools: seq<seq<Waypoints>>)
    requires Uniform(pools)
  {
    forall i, j :: 0 <= i < j < |pools| ==> |pools[i][0]| != |pools[j][0]|
  }

  lemma TailOfPools(pools: seq<seq<Waypoints>>)
    requires Uniform(pools) && SeparatePools(pools) && pools != []
    ensures Uniform(pools[1..]) && SeparatePools(pools[1..])
    ensures forall st :: st in Flatten(pools[1..]) ==> |st| != |pools[0][0]|
  {
    var tail := pools[1..];
    forall st | st in Flatten(tail)
      ensures |st| != |pools[0][0]|
    {
      var i := PoolOf(tail, st);
      assert tail[i] == pools[i + 1];
    }
  }

  lemma {:induction false} PoolOf(pools: seq<seq<Waypoints>>, st: Waypoints) returns (i: nat)
    requires Uniform(pools) && st in Flatten(pools)
    ensures i < |pools| && |pools[i][0]| == |st|
  {
    if st in pools[0] {
      i := 0;
    } else {
      assert Uniform(pools[1..]);
      i := PoolOf(pools[1..], st);
      i := i + 1;
    }
  }

  /** Lists of different pools have different lengths. */
  lemma PoolsUnjoinable(pools: seq<seq<Waypoints>>)
    requires Uniform(pools) && SeparatePools(pools) && pools != []
    requires Unjoinable(pools[0]) && Unjoinable(Flatten(pools[1..]))
    ensures Unjoinable(Flatten(pools))
  {
    TailOfPools(pools);
    var head, rest := pools[0], Flatten(pools[1..]);
    forall a, b, i: nat | a in Flatten(pools) && b in Flatten(pools) && a != b && i < |a| == |b|
      ensures Key(a, i) != Key(b, i)
    {
      assert (a in head && b in head) || (a in rest && b in rest);
    }
  }

  lemma BelowParts(a: seq<Waypoints>, b: seq<Waypoints>, bound: nat)
    requires AllBelow(a + b, bound)
    ensures AllBelow(a, bound) && AllBelow(b, bound)
  {
    forall st | st in a || st in b
      ensures Below(st, bound)
    {
      assert st in a + b;
    }
  }

  lemma JoinedPools(pools: seq<seq<Waypoints>>, a: seq<Waypoints>, b: seq<Waypoints>)
    requires Uniform(pools) && SeparatePools(pools) && pools != [] && Joined(pools[0], a, |pools[0][0]|)
    requires |a| == |pools[0]| ==> Unjoinable(pools[0])
    requires JoinOf(Flatten(pools[1..]), b) && (|b| == |Flatten(pools[1..])| ==> b == Flatten(pools[1..]))
    ensures JoinOf(Flatten(pools), a + b) && (|a + b| == |Flatten(pools)| ==> a + b == Flatten(pools))
  {
    var head, rest, out := pools[0], Flatten(pools[1..]), a + b;
    ApartParts(a, b);
    ApartParts(head, rest);
    if |out| == |head + rest| {
      PoolsUnjoinable(pools);
    }
    SizeJoin(a, b);
    SizeJoin(head, rest);
    forall p
      ensures AdmitsAny(p, out) <==> AdmitsAny(p, head + rest)
    {
      AdmitsAnyJoin(p, a, b);
      AdmitsAnyJoin(p, head, rest);
    }
    forall bound | AllBelow(head + rest, bound)
      ensures AllBelow(out, bound)
    {
      BelowParts(head, rest, bound);
    }
    forall st | st in out
      ensures exists st' :: st' in head + rest && |st'| == |st|
    {
      LengthOfJoined(head, rest, a, b, st);
    }
  }

  lemma LengthOfJoined(head: seq<Waypoints>, rest: seq<Waypoints>, a: seq<Waypoints>, b: seq<Waypoints>, st: Waypoints)
    requires head != [] && AllOfLength(a, |head[0]|) && JoinOf(rest, b) && st in a + b
    ensures exists st' :: st' in head + rest && |st'| == |st|
  {
    if st in a {
      assert head[0] in head + rest;
    } else {
      var st' :| st' in rest && |st'| == |st|;
      assert st' in head + rest;
    }
  }

  method JoinPools(pools: seq<seq<Waypoints>>) returns (out: seq<Waypoints>)
    requires Uniform(pools) && SeparatePools(pools)
    ensures JoinOf(Flatten(pools), out) && (|out| == |Flatten(pools)| ==> out == Flatten(pools))
  {
    if pools == [] {
      return [];
    }
    var head, tail := pools[0], pools[1..];
    TailOfPools(pools);
    var a := JoinPool(head, |head[0]|);
    if |a| == |head| {
      DistinctIsUnjoinable(head, |head[0]|);
    }
    var b := JoinPools(tail);
    JoinedPools(pools, a, b);
    out := a + b;
  }
}
