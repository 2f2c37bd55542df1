/**
 * The check that a function does not recurse: a depth-first walk over the call graph that gives up at the
 * first function it meets twice.
 */
module Recursion {
  import opened Graphs

  datatype Callee = Known(fn: nat) | Unknown | Intrinsic

  /** A function: its attribute, whether only its declaration is known, and the targets of its calls. */
  datatype Function = Function(norecurse: bool, declaration: bool, calls: seq<Callee>)

  type Program = seq<Function>

  ghost predicate WellFormedProgram(p: Program) {
    forall f, i :: 0 <= f < |p| && 0 <= i < |p[f].calls| && p[f].calls[i].Known? ==> p[f].calls[i].fn < |p|
  }

  // ---------------------------------------------------------------------------------
  // Paths of calls

  /** The calls at positions path[0], path[1], ... lead from f to g, through functions without the attribute. */
  predicate Leads(p: Program, f: nat, path: seq<nat>, g: nat)
    decreases |path|
  {
    if path == [] then f == g
    else
      && f < |p| && !p[f].norecurse && path[0] < |p[f].calls| && p[f].calls[path[0]].Known?
      && Leads(p, p[f].calls[path[0]].fn, path[1..], g)
  }

  /** Nothing is known about what the function calls. */
  predicate Blocked(p: Program, f: nat)
    requires f < |p|
  {
    !p[f].norecurse && (p[f].declaration || Unknown in p[f].calls)
  }

  /** Each function is reached on one path of calls at most, and all calls are known. */
  ghost predicate Tree(p: Program, f: nat) {
    && (forall path, g: nat :: Leads(p, f, path, g) ==> g < |p| && !Blocked(p, g))
    && (forall path, path', g: nat :: Leads(p, f, path, g) && Leads(p, f, path', g) ==> path == path')
  }

  ghost predicate Reached(p: Program, f: nat, g: nat) {
    exists path :: Leads(p, f, path, g)
  }

  lemma {:induction false} LeadsOn(p: Program, f: nat, path: seq<nat>, g: nat, path': seq<nat>, h: nat)
    requires Leads(p, f, path, g) && Leads(p, g, path', h)
    ensures Leads(p, f, path + path', h)
    decreases |path|
  {
    if path == [] {
      assert path + path' == path';
    } else {
      LeadsOn(p, p[f].calls[path[0]].fn, path[1..], g, path', h);
      assert (path + path')[1..] == path[1..] + path';
    }
  }

  /** Why the check fails: a path to a function met before or not known, or two paths to the same function. */
  ghost predicate Reason(p: Program, f: nat, seen: set<nat>) {
    || (exists path, g: nat :: Leads(p, f, path, g) && (g in seen || (g < |p| && Blocked(p, g))))
    || (exists path, path', g: nat :: Leads(p, f, path, g) && Leads(p, f, path', g) && path != path')
  }

  /** The first m calls of f have been followed, to disjoint trees that make up `found`. */
  ghost predicate Followed(p: Program, f: nat, m: nat, seen: set<nat>, found: set<nat>)
    requires f < |p| && m <= |p[f].calls|
  {
    && found !! seen && f !in found
    && (forall i :: 0 <= i < m ==> !p[f].calls[i].Unknown?)
    && (forall i :: 0 <= i < m && p[f].calls[i].Known? ==> Tree(p, p[f].calls[i].fn))
    && (forall g :: g in found <==> exists i :: 0 <= i < m && CallReaches(p, f, i, g))
    && (forall i, j, g :: 0 <= i < j < m && CallReaches(p, f, i, g) ==> !CallReaches(p, f, j, g))
  }

  /** The i-th call of f leads to g. */
  ghost predicate CallReaches(p: Program, f: nat, i: nat, g: nat)
    requires f < |p|
  {
    i < |p[f].calls| && p[f].calls[i].Known? && Reached(p, p[f].calls[i].fn, g)
  }

  /** A path starts with a call or is empty. */
  lemma FirstCall(p: Program, f: nat, path: seq<nat>, g: nat)
    requires Leads(p, f, path, g)
    ensures path == [] ==> f == g
    ensures path != [] ==> f < |p| && !p[f].norecurse && CallReaches(p, f, path[0], g)
    ensures path != [] ==> Leads(p, p[f].calls[path[0]].fn, path[1..], g)
  {
  }

  lemma AllFollowedIsTree(p: Program, f: nat, seen: set<nat>, found: set<nat>)
    requires f < |p| && !p[f].norecurse && !p[f].declaration && Followed(p, f, |p[f].calls|, seen, found)
    ensures Tree(p, f)
    ensures forall g :: Reached(p, f, g) <==> g == f || g in found
  {
    assert Unknown !in p[f].calls;
    forall path, g: nat | Leads(p, f, path, g)
      ensures g < |p| && !Blocked(p, g) && (g == f || g in found)
    {
      FirstCall(p, f, path, g);
    }
    forall path, path', g: nat | Leads(p, f, path, g) && Leads(p, f, path', g)
      ensures path == path'
    {
      SamePath(p, f, seen, found, path, path', g);
    }
    forall g | g == f || g in found
      ensures Reached(p, f, g)
    {
      if g == f {
        assert Leads(p, f, [], f);
      } else {
        var i :| 0 <= i < |p[f].calls| && CallReaches(p, f, i, g);
        var path :| Leads(p, p[f].calls[i].fn, path, g);
        assert ([i] + path)[1..] == path;
        assert Leads(p, f, [i] + path, g);
      }
    }
  }

  lemma SamePath(p: Program, f: nat, seen: set<nat>, found: set<nat>, path: seq<nat>, path': seq<nat>, g: nat)
    requires f < |p| && !p[f].norecurse && Followed(p, f, |p[f].calls|, seen, found)
    requires Leads(p, f, path, g) && Leads(p, f, path', g)
    ensures path == path'
  {
    FirstCall(p, f, path, g);
    FirstCall(p, f, path', g);
    if path != [] && path' != [] {
      assert path[0] == path'[0];
      assert path[1..] == path'[1..];
      assert path == [path[0]] + path[1..] && path' == [path'[0]] + path'[1..];
    } else {
      assert path == path';
    }
  }

  lemma LeafIsTree(p: Program, f: nat)
    requires f < |p| && p[f].norecurse
    ensures Tree(p, f) && forall g :: Reached(p, f, g) <==> g == f
  {
    assert Leads(p, f, [], f);
  }

  /** One more call has been followed. */
  lemma FollowOne(p: Program, f: nat, m: nat, seen: set<nat>, found: set<nat>, more: set<nat>)
    requires f < |p| && m < |p[f].calls| && p[f].calls[m].Known? && Followed(p, f, m, seen, found)
    requires Tree(p, p[f].calls[m].fn) && more !! seen + {f} + found
    requires forall g :: g in more <==> Reached(p, p[f].calls[m].fn, g)
    ensures Followed(p, f, m + 1, seen, found + more)
  {
    forall g
      ensures g in more <==> CallReaches(p, f, m, g)
    {
    }
    forall i, j, g | 0 <= i < j < m + 1 && CallReaches(p, f, i, g)
      ensures !CallReaches(p, f, j, g)
    {
      assert g in found;
    }
  }

  lemma FollowNothing(p: Program, f: nat, m: nat, seen: set<nat>, found: set<nat>)
    requires f < |p| && m < |p[f].calls| && p[f].calls[m].Intrinsic? && Followed(p, f, m, seen, found)
    ensures Followed(p, f, m + 1, seen, found)
  {
    assert forall g :: !CallReaches(p, f, m, g);
  }

  /** The reason why a call fails is a reason for its caller. */
  lemma ReasonOfCall(p: Program, f: nat, m: nat, seen: set<nat>, found: set<nat>)
    requires f < |p| && !p[f].norecurse && m < |p[f].calls| && p[f].calls[m].Known? && Followed(p, f, m, seen, found)
    requires Reason(p, p[f].calls[m].fn, seen + {f} + found)
    ensures Reason(p, f, seen)
  {
    var h := p[f].calls[m].fn;
    if path, g: nat :| Leads(p, h, path, g) && (g in seen + {f} + found || (g < |p| && Blocked(p, g))) {
      CallThenLeads(p, f, m, path, g);
      if g == f {
        assert Leads(p, f, [], f) && [m] + path != [];
      } else if g in found {
        var i :| 0 <= i < m && CallReaches(p, f, i, g);
        var path' :| Leads(p, p[f].calls[i].fn, path', g);
        CallThenLeads(p, f, i, path', g);
        assert ([i] + path')[0] != ([m] + path)[0];
      }
    } else {
      var path, path', g: nat :| Leads(p, h, path, g) && Leads(p, h, path', g) && path != path';
      CallThenLeads(p, f, m, path, g);
      CallThenLeads(p, f, m, path', g);
      assert ([m] + path)[1..] == path && ([m] + path')[1..] == path';
      assert [m] + path != [m] + path';
    }
  }

  lemma CallThenLeads(p: Program, f: nat, i: nat, path: seq<nat>, g: nat)
    requires f < |p| && !p[f].norecurse && i < |p[f].calls| && p[f].calls[i].Known?
    requires Leads(p, p[f].calls[i].fn, path, g)
    ensures Leads(p, f, [i] + path, g)
  {
    assert ([i] + path)[1..] == path;
  }

  /** A tree gives no reason to fail. */
  lemma TreeHasNoReason(p: Program, f: nat)
    requires Tree(p, f)
    ensures !Reason(p, f, {})
  {
  }

  // ---------------------------------------------------------------------------------
  // The check

  class RecursionCheck {
    const p: Program
    var seen: set<nat>

    constructor (p: Program)
      ensures this.p == p && seen == {}
    {
      this.p := p;
      seen := {};
    }

    ghost predicate Valid()
      reads this
    {
      WellFormedProgram(p) && seen <= NodesBelow(|p|)
    }

    /** Fails if f was seen, or if one of the functions it calls, in turn, is unknown or fails. */
    method DoesNotRecurseRec(f: nat) returns (ok: bool)
      requires Valid() && f < |p|
      modifies this
      ensures Valid() && old(seen) <= seen
      ensures ok ==> f !in old(seen) && Tree(p, f) && forall g :: g in seen - old(seen) <==> Reached(p, f, g)
      ensures !ok ==> Reason(p, f, old(seen))
      decreases NodesBelow(|p|) - seen
    {
      assert Leads(p, f, [], f);
      if f in seen {
        return false;
      }
      ghost var before := seen;
      seen := seen + {f};
      if p[f].norecurse {
        LeafIsTree(p, f);
        return true;
      }
      if p[f].declaration {
        assert Blocked(p, f);
        return false;
      }
      ghost var found: set<nat> := {};
      for i := 0 to |p[f].calls|
        invariant Valid() && seen == before + {f} + found
        invariant Followed(p, f, i, before, found)
      {
        match p[f].calls[i]
        case Intrinsic =>
          FollowNothing(p, f, i, before, found);
        case Unknown =>
          assert p[f].calls[i] in p[f].calls && Blocked(p, f);
          return false;
        case Known(h) =>
          var fine := DoesNotRecurseRec(h);
          if !fine {
            ReasonOfCall(p, f, i, before, found);
            return false;
          }
          ghost var more := seen - (before + {f} + found);
          FollowOne(p, f, i, before, found, more);
          found := found + more;
      }
      AllFollowedIsTree(p, f, before, found);
      ok := true;
    }
  }

  /** Whether every function is reached on at most one path of calls from f, and every call is known. */
  method DoesNotRecurse(p: Program, f: nat) returns (ok: bool)
    requires WellFormedProgram(p) && f < |p|
    ensures ok <==> Tree(p, f)
  {
    var check := new RecursionCheck(p);
    ok := check.DoesNotRecurseRec(f);
    if Tree(p, f) {
      TreeHasNoReason(p, f);
    }
  }

  // ---------------------------------------------------------------------------------
  // What it means for the call stack

  /** What may call what at run time: a function whose calls are all known calls nothing else. */
  ghost predicate RunsOn(p: Program, calls: set<Edge>) {
    forall e :: e in calls ==>
                  && e.src < |p| && e.dst < |p|
                  && (p[e.src].declaration || Unknown in p[e.src].calls || Known(e.dst) in p[e.src].calls)
  }

  /** A function with the attribute is on no cycle of calls. */
  ghost predicate AttributeHolds(p: Program, calls: set<Edge>) {
    forall c :: IsWalk(calls, c) && |c| >= 2 && c[0] == c[|c| - 1] && c[0] < |p| ==> !p[c[0]].norecurse
  }

  /** A part of the stack that avoids functions with the attribute is a path of known calls. */
  lemma {:induction false} StackIsPath(p: Program, calls: set<Edge>, f: nat, s: seq<nat>) returns (path: seq<nat>)
    requires Tree(p, f) && RunsOn(p, calls) && IsWalk(calls, s) && s[0] == f
    requires forall i :: 0 <= i < |s| - 1 ==> s[i] < |p| && !p[s[i]].norecurse
    ensures Leads(p, f, path, s[|s| - 1]) && |path| == |s| - 1
  {
    if |s| == 1 {
      path := [];
    } else {
      var n := |s| - 1;
      SliceOfWalk(calls, s, 0, n);
      assert s[0..n] == s[..n];
      var before := StackIsPath(p, calls, f, s[..n]);
      var g, h := s[n - 1], s[n];
      assert Hop(s, n - 1) in calls;
      assert !Blocked(p, g);
      var i :| 0 <= i < |p[g].calls| && p[g].calls[i] == Known(h);
      assert Leads(p, h, [], h);
      CallThenLeads(p, g, i, [], h);
      assert [i] + [] == [i];
      LeadsOn(p, f, before, g, [i], h);
      path := before + [i];
    }
  }

  /** A cycle of calls through a node, read from another of its positions. */
  lemma RotateCycle(calls: set<Edge>, s: seq<nat>, i: nat) returns (c: seq<nat>)
    requires IsWalk(calls, s) && |s| >= 2 && s[0] == s[|s| - 1] && i < |s|
    ensures IsWalk(calls, c) && |c| >= 2 && c[0] == c[|c| - 1] == s[i]
  {
    SliceOfWalk(calls, s, i, |s|);
    SliceOfWalk(calls, s, 0, i + 1);
    JoinWalks(calls, s[i..|s|], s[0..i + 1]);
    c := s[i..|s|] + s[0..i + 1][1..];
  }

  /**
   * If the check succeeds on a function, and the attribute can be trusted, then the function is on the
   * call stack at most once.
   */
  lemma AtMostOnceOnStack(p: Program, calls: set<Edge>, f: nat, stack: seq<nat>, a: nat, b: nat)
    requires WellFormedProgram(p) && Tree(p, f) && RunsOn(p, calls) && AttributeHolds(p, calls)
    requires IsWalk(calls, stack) && a < |stack| && b < |stack| && stack[a] == f && stack[b] == f
    ensures a == b
  {
    if a != b {
      var lo, hi := if a < b then a else b, if a < b then b else a;
      var s := stack[lo..hi + 1];
      SliceOfWalk(calls, stack, lo, hi + 1);
      forall i | 0 <= i < |s| - 1
        ensures s[i] < |p| && !p[s[i]].norecurse
      {
        assert Hop(s, i) in calls;
        var c := RotateCycle(calls, s, i);
      }
      var path := StackIsPath(p, calls, f, s);
      TwoPaths(p, f, path);
    }
  }

  lemma TwoPaths(p: Program, f: nat, path: seq<nat>)
    requires Leads(p, f, path, f) && path != []
    ensures !Tree(p, f)
  {
    assert Leads(p, f, [], f);
  }
}
