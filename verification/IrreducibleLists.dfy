/**
 * What the lists are like when no pass has anything left to do, in terms of walks: each node, each middle set and
 * each list is there for a reason.
 */
module IrreducibleLists {
  import opened Graphs
  import opened Waypoints
  import opened Simplify
  import opened Dropping
  import opened SimplifyLists
  import opened Joining

  /** Every node of S starts a walk into T that meets no node of S in between. */
  ghost predicate AllLead(E: set<Edge>, S: set<nat>, T: set<nat>) {
    forall s :: s in S ==>
      exists q :: IsWalk(E, q) && |q| >= 2 && q[0] == s && q[|q| - 1] in T && forall m :: 0 < m < |q| - 1 ==> q[m] !in S
  }

  /** Every node of T is at the end of a walk from S. */
  ghost predicate AllReached(E: set<Edge>, S: set<nat>, T: set<nat>) {
    forall t :: t in T ==> exists q :: IsWalk(E, q) && |q| >= 2 && q[0] in S && q[|q| - 1] == t
  }

  /** Every set leads to the next one, node by node, and is all that is reached of it. */
  ghost predicate SetsNeeded(E: set<Edge>, st: Waypoints) {
    forall j :: 0 <= j < |st| - 1 ==> AllLead(E, st[j], st[j + 1]) && AllReached(E, st[j], st[j + 1])
  }

  /** From before every middle set some walk leads behind it without entering it. */
  ghost predicate MiddlesNeeded(E: set<Edge>, st: Waypoints) {
    forall j :: 0 < j < |st| - 1 ==> Passable(E, st[j - 1], st[j], st[j + 1])
  }

  ghost predicate Passable(E: set<Edge>, A: set<nat>, B: set<nat>, C: set<nat>) {
    exists q :: IsWalk(E, q) && |q| >= 2 && q[0] in A && q[|q| - 1] in C && forall m :: 0 < m < |q| ==> q[m] !in B
  }

  ghost predicate ListIrreducible(E: set<Edge>, st: Waypoints) {
    && SetsNeeded(E, st) && MiddlesNeeded(E, st)
    && forall j :: 0 <= j < |st| ==> st[j] != {}
  }

  /** The lists differ in two columns or more. */
  ghost predicate FarApart(a: Waypoints, b: Waypoints)
    requires |a| == |b|
  {
    exists i, j :: 0 <= i < j < |a| && a[i] != b[i] && a[j] != b[j]
  }

  ghost predicate Irreducible(E: set<Edge>, sts: seq<Waypoints>) {
    && (forall st :: st in sts ==> ListIrreducible(E, st))
    && (forall i, j :: 0 <= i < j < |sts| ==> sts[i] != sts[j] && (|sts[i]| == |sts[j]| ==> FarApart(sts[i], sts[j])))
  }

  /** No pass over a single list changes it: none of its nodes or sets is to be removed. */
  ghost predicate Settled(E: set<Edge>, st: Waypoints) {
    && (forall j :: 0 <= j < |st| ==> st[j] <= Stage(E, st, j))
    && (forall j :: 0 <= j < |st| - 1 ==> st[j] <= DirectSources(E, st[j], st[j + 1]))
    && |DropRedundant(E, st, 1)| == |st|
  }

  lemma UnchangedIsSettled(E: set<Edge>, st: Waypoints, staged: Waypoints, culled: Waypoints)
    requires staged == Staged(E, st) && culled == CulledSources(E, staged) && |DropRedundant(E, st, 1)| == |st|
    requires forall j :: 0 <= j < |st| ==> st[j] <= staged[j] <= culled[j]
    ensures Settled(E, st)
  {
    forall j | 0 <= j < |st|
      ensures st[j] <= Stage(E, st, j) && staged[j] == st[j]
    {
      assert staged[j] == Stage(E, st, j);
    }
    forall j | 0 <= j < |st| - 1
      ensures st[j] <= DirectSources(E, st[j], st[j + 1])
    {
      assert culled[j] == DirectSources(E, staged[j], staged[j + 1]);
    }
  }

  /** Culling leaves nothing to cull only if every node is needed. */
  lemma StagedAreReached(E: set<Edge>, st: Waypoints, j: nat)
    requires j + 1 < |st| && st[j + 1] <= Stage(E, st, j + 1)
    ensures AllReached(E, st[j], st[j + 1])
  {
    var S, T := st[j], st[j + 1];
    forall t | t in T
      ensures exists q :: IsWalk(E, q) && |q| >= 2 && q[0] in S && q[|q| - 1] == t
    {
      var q :| IsWalk(E, q) && |q| >= 2 && q[0] in Stage(E, st, j) && q[|q| - 1] == t;
    }
  }

  lemma DirectLead(E: set<Edge>, S: set<nat>, T: set<nat>)
    requires S <= DirectSources(E, S, T)
    ensures AllLead(E, S, T)
  {
    forall s | s in S
      ensures exists q :: IsWalk(E, q) && |q| >= 2 && q[0] == s && q[|q| - 1] in T && forall m :: 0 < m < |q| - 1 ==> q[m] !in S
    {
      assert s in DirectSources(E, S, T);
      var q :| DirectWalk(E, S, T, s, q);
    }
  }

  lemma {:induction false} DroppedIsShorter(E: set<Edge>, st: Waypoints, i: nat)
    requires 1 <= i
    ensures |DropRedundant(E, st, i)| <= |st|
    decreases |st| - i
  {
    if i + 1 < |st| {
      if Bypassed(E, st[i - 1], st[i], st[i + 1]) {
        DroppedIsShorter(E, st, i + 1);
      } else {
        DroppedIsShorter(E, Drop(st, i), i);
      }
    }
  }

  /** Dropping leaves nothing to drop only if every middle set can be bypassed. */
  lemma {:induction false} DroppedIsNeeded(E: set<Edge>, st: Waypoints, i: nat, j: nat)
    requires 1 <= i <= j < |st| - 1 && |DropRedundant(E, st, i)| == |st|
    ensures Passable(E, st[j - 1], st[j], st[j + 1])
    decreases |st| - i
  {
    if Bypassed(E, st[i - 1], st[i], st[i + 1]) {
      if i < j {
        DroppedIsNeeded(E, st, i + 1, j);
      } else {
        BypassedIsPassable(E, st[i - 1], st[i], st[i + 1]);
      }
    } else {
      DroppedIsShorter(E, Drop(st, i), i);
    }
  }

  lemma BypassedIsPassable(E: set<Edge>, A: set<nat>, B: set<nat>, C: set<nat>)
    requires Bypassed(E, A, B, C)
    ensures Passable(E, A, B, C)
  {
    var c :| c in C && PosReach(Avoiding(E, B), A, c);
    var q :| IsWalk(Avoiding(E, B), q) && |q| >= 2 && q[0] in A && q[|q| - 1] == c;
    WalkWithMoreEdges(Avoiding(E, B), E, q);
    forall m | 0 < m < |q|
      ensures q[m] !in B
    {
      AvoidsAfterStart(E, B, q, m);
    }
  }

  lemma SettledIsIrreducible(E: set<Edge>, st: Waypoints)
    requires Settled(E, st) && !HasEmptySet(st)
    ensures ListIrreducible(E, st)
  {
    forall j | 0 <= j < |st| - 1
      ensures AllLead(E, st[j], st[j + 1]) && AllReached(E, st[j], st[j + 1])
    {
      StagedAreReached(E, st, j);
      DirectLead(E, st[j], st[j + 1]);
    }
    forall j | 0 < j < |st| - 1
      ensures Passable(E, st[j - 1], st[j], st[j + 1])
    {
      DroppedIsNeeded(E, st, 1, j);
    }
  }

  /** Lists that cannot be joined in any column differ in two. */
  lemma UnjoinableIsFarApart(sts: seq<Waypoints>, a: Waypoints, b: Waypoints)
    requires Unjoinable(sts) && a in sts && b in sts && a != b && |a| == |b|
    ensures FarApart(a, b)
  {
    var i :| 0 <= i < |a| && a[i] != b[i];
    if forall j :: 0 <= j < |a| && j != i ==> a[j] == b[j] {
      KeysAgree(a, b, i);
    }
    var j :| 0 <= j < |a| && j != i && a[j] != b[j];
    var x, y := if i < j then i else j, if i < j then j else i;
    assert a[x] != b[x] && a[y] != b[y];
  }

  lemma KeysAgree(a: Waypoints, b: Waypoints, i: nat)
    requires i < |a| == |b| && forall j :: 0 <= j < |a| && j != i ==> a[j] == b[j]
    ensures Key(a, i) == Key(b, i)
  {
  }

  // ---------------------------------------------------------------------------------
  // Lists that are separated already

  ghost predicate AllSeparated(E: set<Edge>, sts: seq<Waypoints>) {
    forall i :: 0 <= i < |sts| ==> Separated(E, sts[i])
  }

  lemma {:induction false} DropKeepsLast(E: set<Edge>, st: Waypoints, i: nat)
    requires 1 <= i && |st| >= 1
    ensures var r := DropRedundant(E, st, i);
            |r| >= 1 && r[|r| - 1] == st[|st| - 1]
    decreases |st| - i
  {
    if i + 1 < |st| {
      if Bypassed(E, st[i - 1], st[i], st[i + 1]) {
        DropKeepsLast(E, st, i + 1);
      } else {
        DropKeepsLast(E, Drop(st, i), i);
      }
    }
  }

  /** Nothing of the last set of a separated list is reached, so the list has an empty set after the passes over it. */
  lemma SeparatedIsEmptied(E: set<Edge>, st: Waypoints)
    requires |st| >= 1 && Separated(E, st)
    ensures HasEmptySet(DropRedundant(E, CulledSources(E, Staged(E, st)), 1))
  {
    var culled := CulledSources(E, Staged(E, st));
    StagesDecide(E, st);
    assert Staged(E, st)[|st| - 1] == {} && culled[|st| - 1] == {};
    DropKeepsLast(E, culled, 1);
    var r := DropRedundant(E, culled, 1);
    assert r[|r| - 1] == {};
  }

  lemma SeparatedStay(E: set<Edge>, sts: seq<Waypoints>, out: seq<Waypoints>)
    requires AllSeparated(E, sts) && forall p :: AdmitsAny(p, out) <==> AdmitsAny(p, sts)
    ensures AllSeparated(E, out)
  {
    forall i, p | 0 <= i < |out| && IsWalk(E, p)
      ensures !Admits(p, out[i])
    {
      assert !AdmitsAny(p, sts);
    }
  }
}
