/**
 * Dropping a middle set that no walk between its neighbours can bypass, and exactly when that adds no walk: a
 * node shared with the next set counts as one visit afterwards where it had to be two before.
 */
module Dropping {
  import opened Graphs
  import opened Waypoints
  import opened Search
  import opened Simplify

  // ---------------------------------------------------------------------------------
  // Dropping a middle set that no walk can bypass

  /** A walk leads from A to C without entering B. */
  ghost predicate Bypassed(E: set<Edge>, A: set<nat>, B: set<nat>, C: set<nat>) {
    exists c :: c in C && PosReach(Avoiding(E, B), A, c)
  }

  function Drop(st: Waypoints, i: nat): (r: Waypoints)
    requires i < |st|
    ensures |r| == |st| - 1
  {
    st[..i] + st[i + 1..]
  }

  /** The list without the sets, from position i on, that cannot be bypassed between their neighbours. */
  ghost function DropRedundant(E: set<Edge>, st: Waypoints, i: nat): Waypoints
    requires 1 <= i
    decreases |st| - i
  {
    if i + 1 >= |st| then st
    else if Bypassed(E, st[i - 1], st[i], st[i + 1]) then DropRedundant(E, st, i + 1)
    else DropRedundant(E, Drop(st, i), i)
  }

  method RemoveRedundantInternal(st: Waypoints, g: IdxGraph) returns (st': Waypoints, changed: bool)
    requires WellFormed(g) && WaypointsOf(g, st) && |st| >= 2
    ensures st' == DropRedundant(Edges(g), st, 1)
    ensures 2 <= |st'| <= |st| && WaypointsOf(g, st')
    ensures changed <==> |st'| < |st|
    ensures if changed then SetsSize(st') < SetsSize(st) else st' == st
  {
    st', changed := st, false;
    var i := 1;
    while i + 1 < |st'|
      invariant 1 <= i < |st'| <= |st| && WaypointsOf(g, st')
      invariant DropRedundant(Edges(g), st', i) == DropRedundant(Edges(g), st, 1)
      invariant changed <==> |st'| < |st|
      invariant if changed then SetsSize(st') < SetsSize(st) else st' == st
      decreases |st'| - i
    {
      var A, B, C := st'[i - 1], st'[i], st'[i + 1];
      assert forall a :: a in A ==> a < |g|;
      var reach, order := Discover(g, A, B);
      if exists c :: c in C && c in reach {
        assert Bypassed(Edges(g), A, B, C);
        i := i + 1;
      } else {
        assert !Bypassed(Edges(g), A, B, C);
        DropSize(st', i);
        st', changed := Drop(st', i), true;
      }
    }
  }

  lemma {:induction false} DropSize(st: Waypoints, i: nat)
    requires i < |st|
    ensures SetsSize(Drop(st, i)) < SetsSize(st)
  {
    var r := Drop(st, i);
    if i == 0 {
      assert r == st[1..];
    } else {
      DropSize(st[1..], i - 1);
      assert r[0] == st[0] && r[1..] == Drop(st[1..], i - 1);
    }
  }

  function DropPos(pos: seq<nat>, i: nat): seq<nat>
    requires i < |pos|
  {
    pos[..i] + pos[i + 1..]
  }

  lemma DropAdmits(st: Waypoints, i: nat, p: seq<nat>)
    requires i < |st| && Admits(p, st)
    ensures Admits(p, Drop(st, i))
  {
    var pos :| VisitsInOrder(p, st, pos);
    assert VisitsInOrder(p, Drop(st, i), DropPos(pos, i));
  }

  /** A walk over the edges, on its way from A to C, that enters B nowhere after its start. */
  lemma BypassWalk(E: set<Edge>, A: set<nat>, B: set<nat>, C: set<nat>, q: seq<nat>)
    requires IsWalk(E, q) && |q| >= 2 && q[0] in A && q[|q| - 1] in C
    requires forall m :: 0 < m < |q| ==> q[m] !in B
    ensures Bypassed(E, A, B, C)
  {
    forall i | 0 <= i < |q| - 1
      ensures Hop(q, i) in Avoiding(E, B)
    {
      assert Hop(q, i) in E;
    }
    assert PosReach(Avoiding(E, B), A, q[|q| - 1]);
  }

  /** Between visits of A and C, a set B that cannot be bypassed is entered; before C if it has no node of C. */
  lemma VisitBetween(E: set<Edge>, A: set<nat>, B: set<nat>, C: set<nat>, p: seq<nat>, a: nat, c: nat) returns (b: nat)
    requires IsWalk(E, p) && a < c < |p| && p[a] in A && p[c] in C && !Bypassed(E, A, B, C)
    ensures a < b <= c && p[b] in B
    ensures B !! C ==> b < c
  {
    var q := p[a..c + 1];
    SliceOfWalk(E, p, a, c + 1);
    if forall m :: 0 < m < |q| ==> q[m] !in B {
      BypassWalk(E, A, B, C, q);
    }
    var m :| 0 < m < |q| && q[m] in B;
    b := a + m;
  }

  // ---------------------------------------------------------------------------------
  // Walks in parts

  lemma AdmitsInParts(u: seq<nat>, v: seq<nat>, W: Waypoints, W': Waypoints)
    requires Admits(u, W) && Admits(v, W')
    ensures Admits(u + v, W + W')
  {
    var pos :| VisitsInOrder(u, W, pos);
    var pos' :| VisitsInOrder(v, W', pos');
    var all := pos + Shift(pos', |u|);
    forall j | 0 <= j < |W + W'|
      ensures all[j] < |u + v| && (u + v)[all[j]] in (W + W')[j]
    {
      if j >= |W| {
        assert all[j] == pos'[j - |W|] + |u| && (W + W')[j] == W'[j - |W|];
        assert v[pos'[j - |W|]] in W'[j - |W|];
      } else {
        assert u[pos[j]] in W[j];
      }
    }
    forall j, m | 0 <= j < m < |W + W'|
      ensures all[j] < all[m]
    {
      if j < |W| {
        assert u[pos[j]] in W[j];
      }
      if m >= |W| {
        assert all[m] == pos'[m - |W|] + |u|;
      }
      if j >= |W| {
        assert all[j] == pos'[j - |W|] + |u| && pos'[j - |W|] < pos'[m - |W|];
      }
    }
    assert VisitsInOrder(u + v, W + W', all);
  }

  lemma AdmitsOne(u: seq<nat>, k: nat, S: set<nat>)
    requires k < |u| && u[k] in S
    ensures Admits(u, [S])
  {
    assert VisitsInOrder(u, [S], [k]);
  }

  /** The first k visits lie in the first s nodes. */
  lemma VisitsBefore(p: seq<nat>, W: Waypoints, pos: seq<nat>, k: nat, s: nat)
    requires VisitsInOrder(p, W, pos) && 1 <= k <= |W| && s <= |p| && pos[k - 1] < s
    ensures Admits(p[..s], W[..k])
  {
    assert forall j :: 0 <= j < k ==> j == k - 1 || pos[j] < pos[k - 1];
    assert forall j :: 0 <= j < k ==> p[pos[j]] in W[j];
    assert VisitsInOrder(p[..s], W[..k], pos[..k]);
  }

  /** The visits from the k-th on lie beyond the first s nodes. */
  lemma VisitsAfter(p: seq<nat>, W: Waypoints, pos: seq<nat>, k: nat, s: nat)
    requires VisitsInOrder(p, W, pos) && k <= |W| && s <= |p| && (k < |W| ==> s <= pos[k])
    ensures Admits(p[s..], W[k..])
  {
    var late := seq(|W| - k, j requires 0 <= j < |W| - k => if pos[k + j] >= s then pos[k + j] - s else 0);
    forall j | 0 <= j < |W| - k
      ensures pos[k + j] >= s && late[j] == pos[k + j] - s && late[j] < |p[s..]| && p[s..][late[j]] in W[k..][j]
    {
      assert j == 0 || pos[k] < pos[k + j];
      assert p[pos[k + j]] in W[k + j];
    }
    forall i, j | 0 <= i < j < |W| - k
      ensures late[i] < late[j]
    {
      assert pos[k + i] < pos[k + j];
    }
    assert VisitsInOrder(p[s..], W[k..], late);
  }

  // ---------------------------------------------------------------------------------
  // Exactly when a drop adds no walk

  /** Some walk comes to `a` just when it has visited the sets `W`, and not before. */
  ghost predicate Arrives(E: set<Edge>, W: Waypoints, a: nat) {
    exists w :: Arrival(E, W, a, w)
  }

  ghost predicate Arrival(E: set<Edge>, W: Waypoints, a: nat, w: seq<nat>) {
    IsWalk(E, w) && w[|w| - 1] == a && Admits(w, W) && !Admits(w[..|w| - 1], W)
  }

  /** Some walk from `c` visits the sets `W`, but not C and then the sets `W`. */
  ghost predicate Leaves(E: set<Edge>, C: set<nat>, W: Waypoints, c: nat) {
    exists r :: Departure(E, C, W, c, r)
  }

  ghost predicate Departure(E: set<Edge>, C: set<nat>, W: Waypoints, c: nat, r: seq<nat>) {
    IsWalk(E, r) && r[0] == c && Admits(r[1..], W) && !Admits(r[1..], [C] + W)
  }

  /**
   * No walk comes out of the sets before, enters set i for the first time in a node that is in the next set too,
   * and leaves through the sets after without another visit of the next set.
   */
  ghost predicate ExactDrop(E: set<Edge>, st: Waypoints, i: nat)
    requires 1 <= i && i + 1 < |st|
  {
    forall a, c :: Arrives(E, st[..i], a) && c in st[i] * st[i + 1] && DirectReach(E, st[i], {c}, a) ==>
      !Leaves(E, st[i + 1], st[i + 2..], c)
  }

  lemma DropParts(st: Waypoints, i: nat)
    requires 1 <= i && i + 1 < |st|
    ensures st == st[..i] + [st[i]] + ([st[i + 1]] + st[i + 2..])
    ensures Drop(st, i) == st[..i] + [st[i + 1]] + st[i + 2..]
  {
  }

  /** A walk in three parts that the drop adds. */
  lemma AddedWalk(E: set<Edge>, st: Waypoints, i: nat, a: nat, c: nat, w: seq<nat>, q: seq<nat>, r: seq<nat>)
    returns (p: seq<nat>)
    requires 1 <= i && i + 1 < |st| && c in st[i] * st[i + 1]
    requires Arrival(E, st[..i], a, w) && DirectWalk(E, st[i], {c}, a, q) && Departure(E, st[i + 1], st[i + 2..], c, r)
    ensures IsWalk(E, p) && Admits(p, Drop(st, i)) && !Admits(p, st)
  {
    p := w + q[1..] + r[1..];
    JoinWalks(E, w, q);
    assert (w + q[1..])[|w + q[1..]| - 1] == c;
    JoinWalks(E, w + q[1..], r);
    AdmitsOne(q[1..], |q| - 2, st[i + 1]);
    AdmitsInParts(w, q[1..], st[..i], [st[i + 1]]);
    AdmitsInParts(w + q[1..], r[1..], st[..i] + [st[i + 1]], st[i + 2..]);
    DropParts(st, i);
    if pos :| VisitsInOrder(p, st, pos) {
      AddedWalkVisitsLate(E, st, i, a, c, w, q, r, p, pos);
    }
  }

  /** The visits of `W` end no earlier than the arrival. */
  lemma ArrivesLast(p: seq<nat>, st: Waypoints, pos: seq<nat>, i: nat, w: seq<nat>)
    requires 1 <= i <= |st| && VisitsInOrder(p, st, pos) && |w| >= 1 && w <= p && !Admits(w[..|w| - 1], st[..i])
    ensures pos[i - 1] >= |w| - 1
  {
    assert p[..|w| - 1] == w[..|w| - 1];
    if pos[i - 1] < |w| - 1 {
      VisitsBefore(p, st, pos, i, |w| - 1);
    }
  }

  /** A visit of all sets would have to visit the next set once more in the last part. */
  lemma AddedWalkVisitsLate(E: set<Edge>, st: Waypoints, i: nat, a: nat, c: nat, w: seq<nat>, q: seq<nat>, r: seq<nat>,
                            p: seq<nat>, pos: seq<nat>)
    requires 1 <= i && i + 1 < |st| && VisitsInOrder(p, st, pos)
    requires Arrival(E, st[..i], a, w) && DirectWalk(E, st[i], {c}, a, q) && |r| >= 1 && p == w + q[1..] + r[1..]
    ensures Admits(r[1..], [st[i + 1]] + st[i + 2..])
  {
    var before, last := |w| - 1, |w| + |q| - 2;
    ArrivesLast(p, st, pos, i, w);
    assert pos[i - 1] < pos[i] < pos[i + 1] && p[pos[i]] in st[i];
    forall m | before < m < last
      ensures p[m] !in st[i]
    {
      assert p[m] == q[m - before];
    }
    VisitsAfter(p, st, pos, i + 1, last + 1);
    assert p[last + 1..] == r[1..];
    assert st[i + 1..] == [st[i + 1]] + st[i + 2..];
  }

  /** The first node at which the walk has visited the sets `W`. */
  lemma FirstVisit(p: seq<nat>, W: Waypoints) returns (x: nat)
    requires Admits(p, W) && |W| >= 1
    ensures x < |p| && Admits(p[..x + 1], W) && !Admits(p[..x], W)
    decreases |p|
  {
    var pos :| VisitsInOrder(p, W, pos);
    assert p[pos[0]] in W[0];
    var n := |p| - 1;
    if Admits(p[..n], W) {
      x := FirstVisit(p[..n], W);
      assert p[..n][..x + 1] == p[..x + 1] && p[..n][..x] == p[..x];
    } else {
      x := n;
      assert p[..x + 1] == p;
    }
  }

  /** The first node of B after position x. */
  lemma FirstIn(p: seq<nat>, B: set<nat>, x: nat, y: nat) returns (b: nat)
    requires x < y < |p| && exists m :: x < m <= y && p[m] in B
    ensures x < b <= y && p[b] in B && forall m :: x < m < b ==> p[m] !in B
    decreases y
  {
    if exists m :: x < m < y && p[m] in B {
      b := FirstIn(p, B, x, y - 1);
    } else {
      b := y;
    }
  }

  /** Where a walk through the shorter list has first visited the sets before, and where it visits the next set. */
  lemma DropVisits(st: Waypoints, i: nat, p: seq<nat>) returns (x: nat, y: nat)
    requires 1 <= i && i + 1 < |st| && Admits(p, Drop(st, i))
    ensures x < y < |p| && Admits(p[..x + 1], st[..i]) && !Admits(p[..x], st[..i]) && p[x] in st[i - 1]
    ensures p[y] in st[i + 1] && Admits(p[y..], [st[i + 1]] + st[i + 2..]) && Admits(p[y + 1..], st[i + 2..])
  {
    var st' := Drop(st, i);
    assert st'[..i] == st[..i] && st'[i..] == [st[i + 1]] + st[i + 2..] && st'[i + 1..] == st[i + 2..];
    var pos :| VisitsInOrder(p, st', pos);
    assert p[pos[i]] in st'[i] && pos[i - 1] < pos[i];
    VisitsBefore(p, st', pos, i, |p|);
    assert p[..|p|] == p;
    x := FirstVisit(p, st[..i]);
    y := pos[i];
    assert p[..x + 1] <= p && p[..x + 1][..x] == p[..x];
    ArrivesLast(p, st', pos, i, p[..x + 1]);
    FirstVisitIn(p, st[..i], x);
    VisitsAfter(p, st', pos, i, y);
    assert i + 1 < |st'| ==> pos[i] < pos[i + 1];
    VisitsAfter(p, st', pos, i + 1, y + 1);
  }

  lemma FirstVisitIn(p: seq<nat>, W: Waypoints, x: nat)
    requires |W| >= 1 && x < |p| && Admits(p[..x + 1], W) && !Admits(p[..x], W)
    ensures p[x] in W[|W| - 1]
  {
    var w := p[..x + 1];
    var pos :| VisitsInOrder(w, W, pos);
    assert w[..x] == p[..x] && W[..|W|] == W;
    assert w[pos[|W| - 1]] in W[|W| - 1];
    ArrivesLast(w, W, pos, |W|, w);
  }

  /** Between the two, a walk that the drop adds is in set i at its visit of the next set and not before. */
  lemma EntersLate(E: set<Edge>, st: Waypoints, i: nat, p: seq<nat>, x: nat, y: nat)
    requires 1 <= i && i + 1 < |st| && !Bypassed(E, st[i - 1], st[i], st[i + 1]) && IsWalk(E, p) && !Admits(p, st)
    requires x < y < |p| && Admits(p[..x + 1], st[..i]) && p[x] in st[i - 1]
    requires p[y] in st[i + 1] && Admits(p[y..], [st[i + 1]] + st[i + 2..])
    ensures p[y] in st[i] && forall m :: x < m < y ==> p[m] !in st[i]
  {
    var b := VisitBetween(E, st[i - 1], st[i], st[i + 1], p, x, y);
    forall m | x < m < y
      ensures p[m] !in st[i]
    {
      if p[m] in st[i] {
        AdmittedInThree(p, x, m, y - 1, st, i);
      }
    }
  }

  /** A walk that the drop adds comes in three parts. */
  lemma PartsOfAdded(E: set<Edge>, st: Waypoints, i: nat, p: seq<nat>) returns (a: nat, c: nat)
    requires 1 <= i && i + 1 < |st| && !Bypassed(E, st[i - 1], st[i], st[i + 1])
    requires IsWalk(E, p) && Admits(p, Drop(st, i)) && !Admits(p, st)
    ensures Arrives(E, st[..i], a) && c in st[i] * st[i + 1] && DirectReach(E, st[i], {c}, a)
    ensures Leaves(E, st[i + 1], st[i + 2..], c)
  {
    var x, y := DropVisits(st, i, p);
    EntersLate(E, st, i, p, x, y);
    a, c := p[x], p[y];
    var w, q, r := p[..x + 1], p[x..y + 1], p[y..];
    SliceOfWalk(E, p, 0, x + 1);
    SliceOfWalk(E, p, x, y + 1);
    SliceOfWalk(E, p, y, |p|);
    assert p[0..x + 1] == w && w[..|w| - 1] == p[..x] && p[y..|p|] == r && r[1..] == p[y + 1..];
    assert Arrival(E, st[..i], a, w);
    assert DirectWalk(E, st[i], {c}, a, q);
    if Admits(p[y + 1..], [st[i + 1]] + st[i + 2..]) {
      AdmittedInThree(p, x, y, y, st, i);
    }
    assert Departure(E, st[i + 1], st[i + 2..], c, r);
  }

  /** Visits up to x, of set i at b, and of the sets after it beyond z make a visit of all. */
  lemma AdmittedInThree(p: seq<nat>, x: nat, b: nat, z: nat, st: Waypoints, i: nat)
    requires 1 <= i && i + 1 < |st| && x < b <= z < |p| && p[b] in st[i]
    requires Admits(p[..x + 1], st[..i]) && Admits(p[z + 1..], [st[i + 1]] + st[i + 2..])
    ensures Admits(p, st)
  {
    DropParts(st, i);
    var u, v := p[..x + 1], p[x + 1..z + 1];
    AdmitsOne(v, b - x - 1, st[i]);
    AdmitsInParts(u, v, st[..i], [st[i]]);
    AdmitsInParts(u + v, p[z + 1..], st[..i] + [st[i]], [st[i + 1]] + st[i + 2..]);
    assert u + v + p[z + 1..] == p;
  }

  /** In any list, dropping a set that cannot be bypassed is exact if and only if no walk goes that way. */
  lemma DropIsExactIff(E: set<Edge>, st: Waypoints, i: nat)
    requires 1 <= i && i + 1 < |st| && !Bypassed(E, st[i - 1], st[i], st[i + 1])
    ensures SameWalks(E, st, Drop(st, i)) <==> ExactDrop(E, st, i)
  {
    if ExactDrop(E, st, i) {
      forall p | IsWalk(E, p)
        ensures Admits(p, st) <==> Admits(p, Drop(st, i))
      {
        if Admits(p, st) {
          DropAdmits(st, i, p);
        } else if Admits(p, Drop(st, i)) {
          var a, c := PartsOfAdded(E, st, i, p);
        }
      }
    } else {
      var a, c :| Arrives(E, st[..i], a) && c in st[i] * st[i + 1] && DirectReach(E, st[i], {c}, a)
        && Leaves(E, st[i + 1], st[i + 2..], c);
      var w :| Arrival(E, st[..i], a, w);
      var q :| DirectWalk(E, st[i], {c}, a, q);
      var r :| Departure(E, st[i + 1], st[i + 2..], c, r);
      var p := AddedWalk(E, st, i, a, c, w, q, r);
    }
  }

  /** Three sets: no walk out of A may enter B for the first time in a node of C. */
  lemma DropOfThreeIsExactIff(E: set<Edge>, A: set<nat>, B: set<nat>, C: set<nat>)
    requires !Bypassed(E, A, B, C)
    ensures SameWalks(E, [A, B, C], [A, C]) <==> forall a, c :: a in A && c in B * C ==> !DirectReach(E, B, {c}, a)
  {
    var st := [A, B, C];
    assert st[..1] == [A] && st[3..] == [] && Drop(st, 1) == [A, C];
    DropIsExactIff(E, st, 1);
    forall a
      ensures Arrives(E, [A], a) <==> a in A
    {
      ArrivesInFirst(E, A, a);
    }
    forall c
      ensures Leaves(E, C, [], c)
    {
      LeavesAtOnce(E, C, c);
    }
    assert ExactDrop(E, st, 1) <==> forall a, c :: a in A && c in B * C ==> !DirectReach(E, B, {c}, a);
  }

  lemma ArrivesInFirst(E: set<Edge>, A: set<nat>, a: nat)
    ensures Arrives(E, [A], a) <==> a in A
  {
    if a in A {
      AdmitsOne([a], 0, A);
      if Admits([a][..0], [A]) {
        AdmittedIsWalk([a][..0], [A]);
      }
      assert Arrival(E, [A], a, [a]);
    }
    if w :| Arrival(E, [A], a, w) {
      assert w[..|w| - 1 + 1] == w;
      FirstVisitIn(w, [A], |w| - 1);
    }
  }

  lemma LeavesAtOnce(E: set<Edge>, C: set<nat>, c: nat)
    ensures Leaves(E, C, [], c)
  {
    var r := [c];
    assert VisitsInOrder(r[1..], [], []);
    if Admits(r[1..], [C] + []) {
      AdmittedIsWalk(r[1..], [C] + []);
    }
    assert Departure(E, C, [], c, r);
  }

  // ---------------------------------------------------------------------------------
  // The whole pass

  /** Every drop of the pass is exact. */
  ghost predicate DropsExactly(E: set<Edge>, st: Waypoints, i: nat)
    requires 1 <= i
    decreases |st| - i
  {
    if i + 1 >= |st| then true
    else if Bypassed(E, st[i - 1], st[i], st[i + 1]) then DropsExactly(E, st, i + 1)
    else ExactDrop(E, st, i) && DropsExactly(E, Drop(st, i), i)
  }

  /** No walk through the list is lost. */
  lemma {:induction false} DropRedundantKeepsWalks(E: set<Edge>, st: Waypoints, i: nat, p: seq<nat>)
    requires 1 <= i && Admits(p, st)
    ensures Admits(p, DropRedundant(E, st, i))
    decreases |st| - i
  {
    if i + 1 < |st| {
      if Bypassed(E, st[i - 1], st[i], st[i + 1]) {
        DropRedundantKeepsWalks(E, st, i + 1, p);
      } else {
        DropAdmits(st, i, p);
        DropRedundantKeepsWalks(E, Drop(st, i), i, p);
      }
    }
  }

  /** Of three lists that admit more and more, the first and the last are the same if and only if all three are. */
  lemma SameThroughout(E: set<Edge>, a: Waypoints, b: Waypoints, c: Waypoints)
    requires forall p :: (Admits(p, a) ==> Admits(p, b)) && (Admits(p, b) ==> Admits(p, c))
    ensures SameWalks(E, a, c) <==> SameWalks(E, a, b) && SameWalks(E, b, c)
  {
  }

  lemma DropsOnlyAdd(E: set<Edge>, st: Waypoints, i: nat)
    requires 1 <= i < |st|
    ensures forall p :: Admits(p, st) ==> Admits(p, Drop(st, i))
    ensures forall p :: Admits(p, Drop(st, i)) ==> Admits(p, DropRedundant(E, Drop(st, i), i))
  {
    forall p
      ensures Admits(p, st) ==> Admits(p, Drop(st, i))
      ensures Admits(p, Drop(st, i)) ==> Admits(p, DropRedundant(E, Drop(st, i), i))
    {
      if Admits(p, st) {
        DropAdmits(st, i, p);
      }
      if Admits(p, Drop(st, i)) {
        DropRedundantKeepsWalks(E, Drop(st, i), i, p);
      }
    }
  }

  /** The pass adds no walk if and only if none of its drops does. */
  lemma {:induction false} DropsAreExactIff(E: set<Edge>, st: Waypoints, i: nat)
    requires 1 <= i
    ensures SameWalks(E, st, DropRedundant(E, st, i)) <==> DropsExactly(E, st, i)
    decreases |st| - i
  {
    if i + 1 < |st| {
      if Bypassed(E, st[i - 1], st[i], st[i + 1]) {
        DropsAreExactIff(E, st, i + 1);
      } else {
        var mid := Drop(st, i);
        var out := DropRedundant(E, mid, i);
        assert DropRedundant(E, st, i) == out && (DropsExactly(E, st, i) <==> ExactDrop(E, st, i) && DropsExactly(E, mid, i));
        assert SameWalks(E, mid, out) <==> DropsExactly(E, mid, i) by {
          DropsAreExactIff(E, mid, i);
        }
        assert SameWalks(E, st, mid) <==> ExactDrop(E, st, i) by {
          DropIsExactIff(E, st, i);
        }
        DropsOnlyAdd(E, st, i);
        SameThroughout(E, st, mid, out);
      }
    }
  }

  /** From the second on, no two sets of the list share a node. Any list of two sets is so. */
  ghost predicate Apart(st: Waypoints) {
    forall i, j :: 1 <= i < j < |st| ==> st[i] !! st[j]
  }

  lemma ApartDrops(st: Waypoints, i: nat)
    requires Apart(st) && 1 <= i < |st|
    ensures Apart(Drop(st, i))
  {
    var r := Drop(st, i);
    forall a, b | 1 <= a < b < |r|
      ensures r[a] !! r[b]
    {
      var a', b' := if a < i then a else a + 1, if b < i then b else b + 1;
      assert r[a] == st[a'] && r[b] == st[b'];
    }
  }

  /** If no two sets from the second on share a node, the pass keeps the walks exactly. */
  lemma {:induction false} ApartIsExact(E: set<Edge>, st: Waypoints, i: nat)
    requires 1 <= i && Apart(st)
    ensures DropsExactly(E, st, i) && Apart(DropRedundant(E, st, i))
    decreases |st| - i
  {
    if i + 1 < |st| {
      if Bypassed(E, st[i - 1], st[i], st[i + 1]) {
        ApartIsExact(E, st, i + 1);
      } else {
        ApartDrops(st, i);
        ApartIsExact(E, Drop(st, i), i);
      }
    }
  }

  /** A visit of three sets has its middle one strictly inside the walk. */
  lemma InnerOfVisit(A: set<nat>, B: set<nat>, C: set<nat>, q: seq<nat>, pos: seq<nat>) returns (b: nat)
    requires VisitsInOrder(q, [A, B, C], pos)
    ensures 0 < b < |q| - 1 && q[b] in B
  {
    var st := [A, B, C];
    assert pos[0] < pos[1] < pos[2];
    assert q[pos[1]] in st[1] && q[pos[2]] in st[2];
    b := pos[1];
  }

  /** Dropping a set that overlaps the next one can forbid walks that were allowed: A = {0}, B = C = {1}. */
  lemma DropCanForbidMore()
    ensures var E, st := {Edge(0, 1)}, [{0}, {1}, {1}];
            Separated(E, st) && !Separated(E, DropRedundant(E, st, 1))
  {
    var E, A, B := {Edge(0, 1)}, {0}, {1};
    var st: Waypoints := [A, B, B];
    if c :| c in B && PosReach(Avoiding(E, B), A, c) {
      var p :| IsWalk(Avoiding(E, B), p) && |p| >= 2 && p[0] in A && p[|p| - 1] == c;
      AvoidsAfterStart(E, B, p, |p| - 1);
    }
    assert !Bypassed(E, A, B, B);
    assert Drop(st, 1) == [A, B];
    assert DropRedundant(E, st, 1) == [A, B];
    EdgeIsWalk(E, 0, 1);
    assert VisitsInOrder([0, 1], [A, B], [0, 1]);
    forall p | IsWalk(E, p)
      ensures !Admits(p, st)
    {
      OneEdgeWalk(0, 1, p);
      if pos :| VisitsInOrder(p, st, pos) {
        var b := InnerOfVisit(A, B, B, p, pos);
      }
    }
  }

  /** A walk over a single edge that is no loop has no inner node. */
  lemma OneEdgeWalk(u: nat, v: nat, p: seq<nat>)
    requires u != v && IsWalk({Edge(u, v)}, p)
    ensures |p| <= 2
  {
    assert |p| > 2 ==> Hop(p, 0) in {Edge(u, v)};
    assert |p| > 2 ==> Hop(p, 1) in {Edge(u, v)};
  }
}
