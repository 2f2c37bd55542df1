/**
 * Fences on the edges of a cut. A fence is a fresh node: on one edge when its target has several
 * predecessors, else in front of the target. Without the fresh nodes the walks are what they were, and
 * every walk that takes an edge of the cut crosses a fence.
 */
module Fences {
  import opened Graphs
  import opened Waypoints
  import opened EdgeLists

  function Into(E: set<Edge>, d: nat): set<Edge> {
    set e | e in E && e.dst == d
  }

  /** The edges `k` into d now lead to the fresh node f, and f leads to d. */
  function Redirect(E: set<Edge>, k: set<Edge>, d: nat, f: nat): set<Edge> {
    (E - k) + (set e | e in k :: Edge(e.src, f)) + {Edge(f, d)}
  }

  /** `E` has only nodes below f, and `k` only edges of E into d. */
  ghost predicate CanRedirect(E: set<Edge>, k: set<Edge>, d: nat, f: nat) {
    && (forall e :: e in E ==> e.src < f && e.dst < f)
    && k <= Into(E, d) && d < f
  }

  // ---------------------------------------------------------------------------------
  // Walks between nodes of the original graph, over fresh nodes only

  /** u, then fresh nodes, then v. */
  ghost predicate Segment(E: set<Edge>, n: nat, u: nat, v: nat, inner: seq<nat>) {
    && IsWalk(E, [u] + inner + [v])
    && forall i :: 0 <= i < |inner| ==> inner[i] >= n
  }

  /** A walk without its occurrences of f. */
  function Without(q: seq<nat>, f: nat): (r: seq<nat>)
    ensures f !in r && |r| <= |q|
    ensures forall x :: x in r <==> x in q && x != f
  {
    if q == [] then []
    else if q[|q| - 1] == f then Without(q[..|q| - 1], f)
    else Without(q[..|q| - 1], f) + [q[|q| - 1]]
  }

  lemma {:induction false} WithoutJoin(a: seq<nat>, b: seq<nat>, f: nat)
    ensures Without(a + b, f) == Without(a, f) + Without(b, f)
  {
    if b == [] {
      assert a + b == a;
    } else {
      assert (a + b)[..|a + b| - 1] == a + b[..|b| - 1];
      WithoutJoin(a, b[..|b| - 1], f);
    }
  }

  lemma LastHop(E: set<Edge>, q: seq<nat>)
    requires IsWalk(E, q) && |q| >= 2
    ensures Edge(q[|q| - 2], q[|q| - 1]) in E && IsWalk(E, q[..|q| - 1])
  {
    assert Hop(q, |q| - 2) in E;
    SliceOfWalk(E, q, 0, |q| - 1);
    assert q[0..|q| - 1] == q[..|q| - 1];
  }

  lemma ExtendWalk(E: set<Edge>, q: seq<nat>, v: nat)
    requires IsWalk(E, q) && Edge(q[|q| - 1], v) in E
    ensures IsWalk(E, q + [v])
  {
    EdgeIsWalk(E, q[|q| - 1], v);
    JoinWalks(E, q, [q[|q| - 1], v]);
    assert q + [q[|q| - 1], v][1..] == q + [v];
  }

  /**
   * Taking the fresh node out of a walk of the new graph gives a walk of the old one; a walk that ends in
   * the fresh node came there along a redirected edge.
   */
  lemma {:induction false} EraseNode(E: set<Edge>, k: set<Edge>, d: nat, f: nat, q: seq<nat>)
    requires CanRedirect(E, k, d, f) && IsWalk(Redirect(E, k, d, f), q) && q[0] != f
    ensures IsWalk(E, Without(q, f)) && Without(q, f)[0] == q[0]
    ensures var r := Without(q, f);
            if q[|q| - 1] == f then Edge(r[|r| - 1], d) in k else r[|r| - 1] == q[|q| - 1]
  {
    if |q| == 1 {
      assert Without(q, f) == q;
    } else {
      var p, x := q[..|q| - 1], q[|q| - 1];
      LastHop(Redirect(E, k, d, f), q);
      EraseNode(E, k, d, f, p);
      if x != f {
        ExtendWalk(E, Without(p, f), x);
      }
    }
  }

  /** Every walk of the old graph is a walk of the new one with the fresh node put in where needed. */
  lemma {:induction false} InsertNode(E: set<Edge>, k: set<Edge>, d: nat, f: nat, q: seq<nat>) returns (r: seq<nat>)
    requires CanRedirect(E, k, d, f) && IsWalk(E, q) && f !in q
    ensures IsWalk(Redirect(E, k, d, f), r) && Without(r, f) == q
    ensures r[0] == q[0] && r[|r| - 1] == q[|q| - 1]
  {
    if |q| == 1 {
      assert q == [q[0]] && q[0] in q;
      r := q;
    } else {
      var p, u, v := q[..|q| - 1], q[|q| - 2], q[|q| - 1];
      assert q == p + [v] && v in q;
      LastHop(E, q);
      assert forall x :: x in p ==> x in q;
      var s := InsertNode(E, k, d, f, p);
      r := InsertStep(E, k, d, f, s, p, v);
    }
  }

  /** One more edge of the walk, over the fresh node if it is redirected. */
  lemma InsertStep(E: set<Edge>, k: set<Edge>, d: nat, f: nat, s: seq<nat>, p: seq<nat>, v: nat) returns (r: seq<nat>)
    requires CanRedirect(E, k, d, f) && p != [] && Edge(p[|p| - 1], v) in E && v != f
    requires IsWalk(Redirect(E, k, d, f), s) && Without(s, f) == p && s[0] == p[0] && s[|s| - 1] == p[|p| - 1]
    ensures IsWalk(Redirect(E, k, d, f), r) && Without(r, f) == p + [v]
    ensures r[0] == p[0] && r[|r| - 1] == v
  {
    var R, u := Redirect(E, k, d, f), p[|p| - 1];
    if Edge(u, v) in k {
      assert Edge(u, f) in R && Edge(f, v) in R;
      ExtendWalk(R, s, f);
      ExtendWalk(R, s + [f], v);
      r := s + [f] + [v];
      WithoutJoin(s + [f], [v], f);
      WithoutJoin(s, [f], f);
    } else {
      assert Edge(u, v) in R;
      ExtendWalk(R, s, v);
      r := s + [v];
      WithoutJoin(s, [v], f);
    }
  }

  lemma WithoutSegment(u: nat, inner: seq<nat>, v: nat, f: nat)
    requires u != f && v != f
    ensures Without([u] + inner + [v], f) == [u] + Without(inner, f) + [v]
  {
    WithoutJoin([u] + inner, [v], f);
    WithoutJoin([u], inner, f);
    assert Without([u], f) == [u] && Without([v], f) == [v];
  }

  lemma EraseSegment(E: set<Edge>, k: set<Edge>, d: nat, f: nat, n: nat, u: nat, v: nat, inner: seq<nat>)
    requires CanRedirect(E, k, d, f) && n <= f && u < n && v < n
    requires Segment(Redirect(E, k, d, f), n, u, v, inner)
    ensures Segment(E, n, u, v, Without(inner, f))
  {
    var q := [u] + inner + [v];
    EraseNode(E, k, d, f, q);
    WithoutSegment(u, inner, v, f);
    forall i | 0 <= i < |Without(inner, f)|
      ensures Without(inner, f)[i] >= n
    {
      assert Without(inner, f)[i] in inner;
    }
  }

  lemma InsertSegment(E: set<Edge>, k: set<Edge>, d: nat, f: nat, n: nat, u: nat, v: nat, inner: seq<nat>)
    returns (inner': seq<nat>)
    requires CanRedirect(E, k, d, f) && n <= f && u < n && v < n && f !in inner
    requires Segment(E, n, u, v, inner)
    ensures Segment(Redirect(E, k, d, f), n, u, v, inner')
  {
    var q := [u] + inner + [v];
    var r := InsertNode(E, k, d, f, q);
    assert |r| >= |q| >= 2;
    inner' := r[1..|r| - 1];
    assert r == [u] + inner' + [v];
    WithoutSegment(u, inner', v, f);
    assert Without(inner', f) == inner by {
      assert ([u] + Without(inner', f) + [v])[1..|q| - 1] == q[1..|q| - 1];
    }
    forall i | 0 <= i < |inner'|
      ensures inner'[i] >= n
    {
      if inner'[i] != f {
        assert inner'[i] in inner;
      }
    }
  }

  // ---------------------------------------------------------------------------------
  // What holds after some of the fences are in

  /** The fences are fresh, and between them the original edges are what they were. */
  ghost predicate Faithful(E0: set<Edge>, n: nat, E: set<Edge>, size: nat, fences: set<nat>) {
    && n <= size
    && (forall e :: e in E0 ==> e.src < n && e.dst < n)
    && (forall e :: e in E ==> e.src < size && e.dst < size)
    && (forall f :: f in fences ==> n <= f < size)
    && (forall u: nat, v: nat, inner :: u < n && v < n && Segment(E, n, u, v, inner) ==> Edge(u, v) in E0)
    && (forall e :: e in E0 ==> exists inner :: Segment(E, n, e.src, e.dst, inner))
  }

  /** Each way along an edge of `done` crosses a fence. */
  ghost predicate Fenced(E: set<Edge>, n: nat, fences: set<nat>, done: set<Edge>) {
    forall e, inner :: e in done && Segment(E, n, e.src, e.dst, inner) ==> exists f :: f in inner && f in fences
  }

  /** There is no way along an edge of `direct` but the edge itself. */
  ghost predicate Direct(E: set<Edge>, n: nat, direct: set<Edge>) {
    forall e, inner :: e in direct && Segment(E, n, e.src, e.dst, inner) ==> inner == []
  }

  lemma RedirectKeepsFaithful(E0: set<Edge>, n: nat, E: set<Edge>, size: nat, fences: set<nat>, k: set<Edge>, d: nat)
    requires Faithful(E0, n, E, size, fences) && k <= Into(E, d) && d < size
    ensures Faithful(E0, n, Redirect(E, k, d, size), size + 1, fences + {size})
  {
    var E', f := Redirect(E, k, d, size), size;
    forall u: nat, v: nat, inner | u < n && v < n && Segment(E', n, u, v, inner)
      ensures Edge(u, v) in E0
    {
      EraseSegment(E, k, d, f, n, u, v, inner);
    }
    forall e | e in E0
      ensures exists inner :: Segment(E', n, e.src, e.dst, inner)
    {
      var inner :| Segment(E, n, e.src, e.dst, inner);
      NodesOfSegment(E, n, e.src, e.dst, inner, size);
      var inner' := InsertSegment(E, k, d, f, n, e.src, e.dst, inner);
    }
  }

  lemma NodesOfSegment(E: set<Edge>, n: nat, u: nat, v: nat, inner: seq<nat>, size: nat)
    requires Segment(E, n, u, v, inner) && forall e :: e in E ==> e.src < size && e.dst < size
    ensures size !in inner
  {
    var q := [u] + inner + [v];
    forall i | 0 <= i < |inner|
      ensures inner[i] != size
    {
      assert q[i + 1] == inner[i] && Hop(q, i) in E;
    }
  }

  lemma RedirectKeepsFenced(E: set<Edge>, n: nat, fences: set<nat>, done: set<Edge>, k: set<Edge>, d: nat, f: nat)
    requires CanRedirect(E, k, d, f) && n <= f && Fenced(E, n, fences, done)
    requires forall e :: e in done ==> e.src < n && e.dst < n
    ensures Fenced(Redirect(E, k, d, f), n, fences + {f}, done)
  {
    forall e, inner | e in done && Segment(Redirect(E, k, d, f), n, e.src, e.dst, inner)
      ensures exists x :: x in inner && x in fences + {f}
    {
      EraseSegment(E, k, d, f, n, e.src, e.dst, inner);
      var x :| x in Without(inner, f) && x in fences;
      assert x in inner;
    }
  }

  /** A segment whose last step is the one over the fresh node. */
  lemma LastOfSegment(E: set<Edge>, n: nat, u: nat, v: nat, inner: seq<nat>)
    requires Segment(E, n, u, v, inner)
    ensures if inner == [] then Edge(u, v) in E else Edge(inner[|inner| - 1], v) in E
  {
    LastHop(E, [u] + inner + [v]);
  }

  /** With all edges into d redirected, every way to d crosses the fresh node. */
  lemma InsertedBeforeIsFenced(E: set<Edge>, n: nat, d: nat, f: nat, u: nat, inner: seq<nat>)
    requires CanRedirect(E, Into(E, d), d, f) && u < n <= f
    requires Segment(Redirect(E, Into(E, d), d, f), n, u, d, inner)
    ensures f in inner
  {
    LastOfSegment(Redirect(E, Into(E, d), d, f), n, u, d, inner);
  }

  /** A split edge that was the only way is fenced. */
  lemma SplitIsFenced(E: set<Edge>, n: nat, f: nat, e: Edge, inner: seq<nat>)
    requires CanRedirect(E, {e}, e.dst, f) && e.src < n <= f && e.dst < n && Direct(E, n, {e})
    requires Segment(Redirect(E, {e}, e.dst, f), n, e.src, e.dst, inner)
    ensures f in inner
  {
    var E' := Redirect(E, {e}, e.dst, f);
    LastOfSegment(E', n, e.src, e.dst, inner);
    EraseSegment(E, {e}, e.dst, f, n, e.src, e.dst, inner);
    assert inner != [];
    AllFresh(inner, f);
    assert inner[0] in inner;
  }

  lemma AllFresh(inner: seq<nat>, f: nat)
    requires Without(inner, f) == []
    ensures forall x :: x in inner ==> x == f
  {
    assert forall x :: x in inner && x != f ==> x in Without(inner, f);
  }

  /** Other edges keep their only way when no edge of theirs is redirected. */
  lemma RedirectKeepsDirect(E: set<Edge>, n: nat, direct: set<Edge>, k: set<Edge>, d: nat, f: nat)
    requires CanRedirect(E, k, d, f) && n <= f && Direct(E, n, direct) && direct !! k
    requires forall e :: e in direct ==> e.src < n && e.dst < n
    ensures Direct(Redirect(E, k, d, f), n, direct)
  {
    forall e, inner | e in direct && Segment(Redirect(E, k, d, f), n, e.src, e.dst, inner)
      ensures inner == []
    {
      EraseSegment(E, k, d, f, n, e.src, e.dst, inner);
      assert Without(inner, f) == [];
      OnlyFresh(E, k, d, f, n, e, inner);
    }
  }

  lemma OnlyFresh(E: set<Edge>, k: set<Edge>, d: nat, f: nat, n: nat, e: Edge, inner: seq<nat>)
    requires CanRedirect(E, k, d, f) && n <= f && e.src < n && e.dst < n && e !in k
    requires Segment(Redirect(E, k, d, f), n, e.src, e.dst, inner) && Without(inner, f) == []
    ensures inner == []
  {
    if inner != [] {
      ThroughFresh(E, k, d, f, n, e, inner);
    }
  }

  /** A way that has only the fresh node in between runs along a redirected edge. */
  lemma ThroughFresh(E: set<Edge>, k: set<Edge>, d: nat, f: nat, n: nat, e: Edge, inner: seq<nat>)
    requires CanRedirect(E, k, d, f) && n <= f && e.src < n && e.dst < n
    requires Segment(Redirect(E, k, d, f), n, e.src, e.dst, inner) && Without(inner, f) == [] && inner != []
    ensures e in k
  {
    var E', q := Redirect(E, k, d, f), [e.src] + inner + [e.dst];
    AllFresh(inner, f);
    assert inner[0] in inner && inner[|inner| - 1] in inner;
    assert Hop(q, 0) in E' && Hop(q, 0) == Edge(e.src, f);
    LastOfSegment(E', n, e.src, e.dst, inner);
  }

  // ---------------------------------------------------------------------------------
  // One fence after the other

  /** Several control-flow predecessors. */
  predicate Multi(cfg: set<Edge>, d: nat) {
    |Into(cfg, d)| > 1
  }

  /**
   * The fences so far: `cfg` and `back` are the control-flow edges and the back edges now. Both together and the
   * control flow alone are what they were but for fresh nodes, and the edges `done` are fenced.
   */
  ghost predicate Placed(E0: set<Edge>, cfg0: set<Edge>, n: nat, cfg: set<Edge>, back: set<Edge>, size: nat,
                         fences: set<nat>, done: set<Edge>)
  {
    && cfg0 <= E0 && done <= E0
    && Faithful(E0, n, cfg + back, size, fences) && Faithful(cfg0, n, cfg, size, fences)
    && Fenced(cfg + back, n, fences, done)
    && Untouched(E0, cfg0, cfg, back, done) && Shut(cfg0, n, cfg + back, done)
  }

  /** The edges `pending`, to be split later, are still as they were, and so is which targets are to be split. */
  ghost predicate ToPlace(E0: set<Edge>, cfg0: set<Edge>, n: nat, cfg: set<Edge>, back: set<Edge>, pending: set<Edge>) {
    && Direct(cfg + back, n, pending) && pending <= cfg && pending <= E0
    && (forall e :: e in pending ==> Multi(cfg0, e.dst))
    && (forall d: nat :: d < n ==> (Multi(cfg, d) <==> Multi(cfg0, d)))
    && (forall e :: e in back && e.dst < n ==> !Multi(cfg0, e.dst))
  }

  ghost predicate Placing(E0: set<Edge>, cfg0: set<Edge>, n: nat, cfg: set<Edge>, back: set<Edge>, size: nat,
                          fences: set<nat>, done: set<Edge>, pending: set<Edge>)
  {
    Placed(E0, cfg0, n, cfg, back, size, fences, done) && ToPlace(E0, cfg0, n, cfg, back, pending)
  }

  /**
   * Edges stay as they are unless they are fenced themselves, or their target has no other predecessor and a fenced
   * edge leads to it too.
   */
  ghost predicate Untouched(E0: set<Edge>, cfg0: set<Edge>, cfg: set<Edge>, back: set<Edge>, done: set<Edge>) {
    && (forall e :: e in cfg0 - done && (Multi(cfg0, e.dst) || !Targeted(done, e.dst)) ==> e in cfg)
    && (forall e :: e in E0 && !Targeted(done, e.dst) ==> e in cfg + back)
  }

  ghost predicate Targeted(done: set<Edge>, d: nat) {
    exists e :: e in done && e.dst == d
  }

  /** A fence in front of an instruction is on all its ways in. */
  ghost predicate Shut(cfg0: set<Edge>, n: nat, E: set<Edge>, done: set<Edge>) {
    forall e, u: nat :: e in done && !Multi(cfg0, e.dst) && u < n ==> Edge(u, e.dst) !in E
  }

  /** Back edges, like control flow, go through the fence in front of their target. */
  function RedirectBack(back: set<Edge>, d: nat, f: nat): set<Edge> {
    (back - Into(back, d)) + set e | e in Into(back, d) :: Edge(e.src, f)
  }

  lemma IntoOther(cfg: set<Edge>, k: set<Edge>, d: nat, f: nat, d': nat)
    requires k <= Into(cfg, d) && d' != d && d' != f && d != f
    ensures Into(Redirect(cfg, k, d, f), d') == Into(cfg, d')
  {
    assert forall e :: e in k ==> e.dst == d;
  }

  lemma IntoSplit(cfg: set<Edge>, e: Edge, f: nat)
    requires e in cfg && f != e.dst && forall x :: x in cfg ==> x.src != f
    ensures |Into(Redirect(cfg, {e}, e.dst, f), e.dst)| == |Into(cfg, e.dst)|
  {
    var before := Into(cfg, e.dst);
    assert Into(Redirect(cfg, {e}, e.dst, f), e.dst) == (before - {e}) + {Edge(f, e.dst)};
    assert Edge(f, e.dst) !in before - {e};
  }

  lemma IntoInserted(cfg: set<Edge>, d: nat, f: nat)
    requires f != d
    ensures Into(Redirect(cfg, Into(cfg, d), d, f), d) == {Edge(f, d)}
  {
    assert forall e :: e in cfg && e.dst == d ==> e in Into(cfg, d);
  }

  lemma SplitKeeps(E0: set<Edge>, cfg0: set<Edge>, n: nat, cfg: set<Edge>, back: set<Edge>, size: nat,
                   fences: set<nat>, done: set<Edge>, pending: set<Edge>, e: Edge)
    requires Placing(E0, cfg0, n, cfg, back, size, fences, done, pending) && e in pending
    ensures Placing(E0, cfg0, n, Redirect(cfg, {e}, e.dst, size), back, size + 1, fences + {size}, done + {e}, pending - {e})
  {
    SplitPlaces(E0, cfg0, n, cfg, back, size, fences, done, e);
    SplitLeavesToPlace(E0, cfg0, n, cfg, back, size, pending, e);
  }

  lemma SplitPlaces(E0: set<Edge>, cfg0: set<Edge>, n: nat, cfg: set<Edge>, back: set<Edge>, size: nat,
                    fences: set<nat>, done: set<Edge>, e: Edge)
    requires Placed(E0, cfg0, n, cfg, back, size, fences, done) && e in E0 && e in cfg && e !in back && Multi(cfg0, e.dst)
    requires Direct(cfg + back, n, {e})
    ensures Placed(E0, cfg0, n, Redirect(cfg, {e}, e.dst, size), back, size + 1, fences + {size}, done + {e})
  {
    var E, E', f := cfg + back, Redirect(cfg + back, {e}, e.dst, size), size;
    assert Redirect(cfg, {e}, e.dst, f) + back == E';
    assert e in Into(E, e.dst) && e in Into(cfg, e.dst);
    RedirectKeepsFaithful(E0, n, E, size, fences, {e}, e.dst);
    RedirectKeepsFaithful(cfg0, n, cfg, size, fences, {e}, e.dst);
    RedirectKeepsFenced(E, n, fences, done, {e}, e.dst, f);
    forall inner | Segment(E', n, e.src, e.dst, inner)
      ensures f in inner
    {
      SplitIsFenced(E, n, f, e, inner);
    }
    SplitLeavesAlone(E0, cfg0, n, cfg, back, done, e, f);
  }

  lemma SplitLeavesToPlace(E0: set<Edge>, cfg0: set<Edge>, n: nat, cfg: set<Edge>, back: set<Edge>, size: nat,
                           pending: set<Edge>, e: Edge)
    requires ToPlace(E0, cfg0, n, cfg, back, pending) && e in pending && n <= size
    requires (forall x :: x in E0 ==> x.src < n && x.dst < n) && forall x :: x in cfg + back ==> x.src < size && x.dst < size
    ensures ToPlace(E0, cfg0, n, Redirect(cfg, {e}, e.dst, size), back, pending - {e})
  {
    var E, f := cfg + back, size;
    var cfg' := Redirect(cfg, {e}, e.dst, f);
    assert e !in back;
    assert cfg' + back == Redirect(E, {e}, e.dst, f);
    RedirectKeepsDirect(E, n, pending - {e}, {e}, e.dst, f);
    forall d: nat | d < n
      ensures Multi(cfg', d) <==> Multi(cfg0, d)
    {
      if d == e.dst {
        IntoSplit(cfg, e, f);
      } else {
        IntoOther(cfg, {e}, e.dst, f, d);
      }
    }
  }

  /** Redirecting changes nothing between other nodes but for the edges redirected. */
  lemma RedirectElsewhere(cfg: set<Edge>, k: set<Edge>, d: nat, f: nat, e: Edge)
    requires e.src != f && e.dst != f
    ensures e in Redirect(cfg, k, d, f) <==> e in cfg - k
  {
  }

  lemma RedirectBackElsewhere(back: set<Edge>, d: nat, f: nat, e: Edge)
    requires e.dst != f
    ensures e in RedirectBack(back, d, f) <==> e in back && e.dst != d
  {
  }

  lemma SplitLeavesAlone(E0: set<Edge>, cfg0: set<Edge>, n: nat, cfg: set<Edge>, back: set<Edge>, done: set<Edge>, e: Edge, f: nat)
    requires Untouched(E0, cfg0, cfg, back, done) && Shut(cfg0, n, cfg + back, done)
    requires Multi(cfg0, e.dst) && e !in back && n <= f && forall x :: x in done ==> x.dst < n
    requires cfg0 <= E0 && forall x :: x in E0 ==> x.src < n && x.dst < n
    ensures Untouched(E0, cfg0, Redirect(cfg, {e}, e.dst, f), back, done + {e})
    ensures Shut(cfg0, n, Redirect(cfg, {e}, e.dst, f) + back, done + {e})
  {
    forall x | x in E0
      ensures !Targeted(done + {e}, x.dst) ==> x in Redirect(cfg, {e}, e.dst, f) + back
      ensures x in cfg0 - (done + {e}) && (Multi(cfg0, x.dst) || !Targeted(done + {e}, x.dst)) ==> x in Redirect(cfg, {e}, e.dst, f)
    {
      TargetedGrows(done, e, x.dst);
      RedirectElsewhere(cfg, {e}, e.dst, f, x);
    }
    forall x, u: nat | x in done + {e} && !Multi(cfg0, x.dst) && u < n
      ensures Edge(u, x.dst) !in Redirect(cfg, {e}, e.dst, f) + back
    {
      RedirectElsewhere(cfg, {e}, e.dst, f, Edge(u, x.dst));
    }
  }

  lemma TargetedGrows(done: set<Edge>, e: Edge, d: nat)
    ensures Targeted(done + {e}, d) <==> Targeted(done, d) || e.dst == d
  {
    assert e in done + {e};
    if x :| x in done && x.dst == d {
      assert x in done + {e};
    }
  }

  lemma InsertLeavesAlone(E0: set<Edge>, cfg0: set<Edge>, n: nat, cfg: set<Edge>, back: set<Edge>, done: set<Edge>, e: Edge, f: nat)
    requires Untouched(E0, cfg0, cfg, back, done) && Shut(cfg0, n, cfg + back, done)
    requires !Multi(cfg0, e.dst) && e.dst < n <= f && forall x :: x in done ==> x.dst < n
    requires cfg0 <= E0 && forall x :: x in E0 ==> x.src < n && x.dst < n
    ensures Untouched(E0, cfg0, Redirect(cfg, Into(cfg, e.dst), e.dst, f), RedirectBack(back, e.dst, f), done + {e})
    ensures Shut(cfg0, n, Redirect(cfg, Into(cfg, e.dst), e.dst, f) + RedirectBack(back, e.dst, f), done + {e})
  {
    var cfg', back' := Redirect(cfg, Into(cfg, e.dst), e.dst, f), RedirectBack(back, e.dst, f);
    forall x | x in E0
      ensures !Targeted(done + {e}, x.dst) ==> x in cfg' + back'
      ensures x in cfg0 - (done + {e}) && (Multi(cfg0, x.dst) || !Targeted(done + {e}, x.dst)) ==> x in cfg'
    {
      TargetedGrows(done, e, x.dst);
      RedirectElsewhere(cfg, Into(cfg, e.dst), e.dst, f, x);
      RedirectBackElsewhere(back, e.dst, f, x);
    }
    forall x, u: nat | x in done + {e} && !Multi(cfg0, x.dst) && u < n
      ensures Edge(u, x.dst) !in cfg' + back'
    {
      RedirectElsewhere(cfg, Into(cfg, e.dst), e.dst, f, Edge(u, x.dst));
      RedirectBackElsewhere(back, e.dst, f, Edge(u, x.dst));
    }
  }

  lemma RedirectUnion(cfg: set<Edge>, back: set<Edge>, d: nat, f: nat)
    ensures Redirect(cfg, Into(cfg, d), d, f) + RedirectBack(back, d, f) == Redirect(cfg + back, Into(cfg + back, d), d, f)
  {
    var k := Into(cfg + back, d);
    assert k == Into(cfg, d) + Into(back, d);
    assert (cfg - Into(cfg, d)) + (back - Into(back, d)) == cfg + back - k;
  }

  lemma InsertKeeps(E0: set<Edge>, cfg0: set<Edge>, n: nat, cfg: set<Edge>, back: set<Edge>, size: nat,
                    fences: set<nat>, done: set<Edge>, pending: set<Edge>, e: Edge)
    requires Placing(E0, cfg0, n, cfg, back, size, fences, done, pending) && e in E0 && !Multi(cfg0, e.dst)
    ensures Placing(E0, cfg0, n, Redirect(cfg, Into(cfg, e.dst), e.dst, size), RedirectBack(back, e.dst, size), size + 1,
                    fences + {size}, done + {e}, pending)
  {
    assert forall x :: x in pending ==> x.src < size;
    InsertPlaces(E0, cfg0, n, cfg, back, size, fences, done, e);
    InsertLeavesToPlace(E0, cfg0, n, cfg, back, size, pending, e.dst);
  }

  lemma InsertPlaces(E0: set<Edge>, cfg0: set<Edge>, n: nat, cfg: set<Edge>, back: set<Edge>, size: nat,
                     fences: set<nat>, done: set<Edge>, e: Edge)
    requires Placed(E0, cfg0, n, cfg, back, size, fences, done) && e in E0 && !Multi(cfg0, e.dst)
    ensures Placed(E0, cfg0, n, Redirect(cfg, Into(cfg, e.dst), e.dst, size), RedirectBack(back, e.dst, size), size + 1,
                   fences + {size}, done + {e})
  {
    var E, d, f := cfg + back, e.dst, size;
    var E' := Redirect(E, Into(E, d), d, f);
    RedirectUnion(cfg, back, d, f);
    RedirectKeepsFaithful(E0, n, E, size, fences, Into(E, d), d);
    RedirectKeepsFaithful(cfg0, n, cfg, size, fences, Into(cfg, d), d);
    RedirectKeepsFenced(E, n, fences, done, Into(E, d), d, f);
    forall inner | Segment(E', n, e.src, d, inner)
      ensures f in inner
    {
      InsertedBeforeIsFenced(E, n, d, f, e.src, inner);
    }
    InsertLeavesAlone(E0, cfg0, n, cfg, back, done, e, f);
  }

  lemma InsertLeavesToPlace(E0: set<Edge>, cfg0: set<Edge>, n: nat, cfg: set<Edge>, back: set<Edge>, size: nat,
                            pending: set<Edge>, d: nat)
    requires ToPlace(E0, cfg0, n, cfg, back, pending) && d < n <= size && !Multi(cfg0, d)
    requires (forall e :: e in E0 ==> e.src < n && e.dst < n) && forall e :: e in cfg + back ==> e.src < size && e.dst < size
    ensures ToPlace(E0, cfg0, n, Redirect(cfg, Into(cfg, d), d, size), RedirectBack(back, d, size), pending)
  {
    var E, f := cfg + back, size;
    var cfg' := Redirect(cfg, Into(cfg, d), d, f);
    RedirectUnion(cfg, back, d, f);
    assert pending !! Into(E, d);
    RedirectKeepsDirect(E, n, pending, Into(E, d), d, f);
    forall x: nat | x < n
      ensures Multi(cfg', x) <==> Multi(cfg0, x)
    {
      if x == d {
        IntoInserted(cfg, d, f);
      } else {
        IntoOther(cfg, Into(cfg, d), d, f, x);
      }
    }
  }

  lemma NothingPlaced(cfg: set<Edge>, back: set<Edge>, n: nat, pending: set<Edge>)
    requires forall e :: e in cfg + back ==> e.src < n && e.dst < n
    requires pending <= cfg && (forall e :: e in pending ==> Multi(cfg, e.dst)) && forall e :: e in back ==> !Multi(cfg, e.dst)
    ensures Placing(cfg + back, cfg, n, cfg, back, n, {}, {}, pending)
  {
    UntouchedIsFaithful(cfg + back, n);
    UntouchedIsFaithful(cfg, n);
  }

  lemma UntouchedIsFaithful(E: set<Edge>, n: nat)
    requires forall e :: e in E ==> e.src < n && e.dst < n
    ensures Faithful(E, n, E, n, {}) && Direct(E, n, E)
  {
    forall u: nat, v: nat, inner | Segment(E, n, u, v, inner)
      ensures inner == [] && Edge(u, v) in E
    {
      NodesOfWalk(E, n, u, v, inner);
      LastOfSegment(E, n, u, v, inner);
    }
    forall e | e in E
      ensures Segment(E, n, e.src, e.dst, [])
    {
      EdgeIsWalk(E, e.src, e.dst);
      assert [e.src] + [] + [e.dst] == [e.src, e.dst];
    }
  }

  lemma NodesOfWalk(E: set<Edge>, n: nat, u: nat, v: nat, inner: seq<nat>)
    requires Segment(E, n, u, v, inner) && forall e :: e in E ==> e.src < n && e.dst < n
    ensures inner == []
  {
    if inner != [] {
      FirstInner(E, n, u, v, inner);
    }
  }

  lemma FirstInner(E: set<Edge>, n: nat, u: nat, v: nat, inner: seq<nat>)
    requires Segment(E, n, u, v, inner) && (forall e :: e in E ==> e.src < n && e.dst < n) && inner != []
    ensures inner[0] < n
  {
    assert Hop([u] + inner + [v], 0) in E;
  }

  /** A function whose control flow gets fences. */
  class FencedFunction {
    var cfg: set<Edge>
    var back: set<Edge>
    var fences: set<nat>
    var size: nat
    var entry: nat

    constructor (cfg: set<Edge>, back: set<Edge>, size: nat, entry: nat)
      ensures this.cfg == cfg && this.back == back && this.size == size && this.entry == entry && fences == {}
    {
      this.cfg, this.back, this.size, this.entry, fences := cfg, back, size, entry, {};
    }

    /** A new block with a fence on one control-flow edge. */
    method SplitEdge(e: Edge)
      requires e in cfg
      modifies this
      ensures cfg == Redirect(old(cfg), {e}, e.dst, old(size)) && back == old(back)
      ensures size == old(size) + 1 && fences == old(fences) + {old(size)} && entry == old(entry)
    {
      cfg := cfg - {e} + {Edge(e.src, size)} + {Edge(size, e.dst)};
      fences := fences + {size};
      size := size + 1;
    }

    /** A fence in front of an instruction. In front of the entry it is what the function starts with. */
    method InsertBefore(d: nat)
      modifies this
      ensures cfg == Redirect(old(cfg), Into(old(cfg), d), d, old(size)) && back == RedirectBack(old(back), d, old(size))
      ensures size == old(size) + 1 && fences == old(fences) + {old(size)}
      ensures entry == if d == old(entry) then old(size) else old(entry)
    {
      if d == entry {
        entry := size;
      }
      cfg := Redirect(cfg, Into(cfg, d), d, size);
      back := RedirectBack(back, d, size);
      fences := fences + {size};
      size := size + 1;
    }

    /** Splits the edge if its target has several predecessors, else puts the fence in front of the target. */
    method PlaceFence(e: Edge, ghost E0: set<Edge>, ghost cfg0: set<Edge>, ghost n: nat, ghost done: set<Edge>, ghost pending: set<Edge>)
      requires Placing(E0, cfg0, n, cfg, back, size, fences, done, pending)
      requires e in E0 && (Multi(cfg0, e.dst) ==> e in pending)
      modifies this
      ensures Placing(E0, cfg0, n, cfg, back, size, fences, done + {e}, pending - {e})
      ensures size == old(size) + 1 && fences == old(fences) + {old(size)}
      ensures entry == if !Multi(cfg0, e.dst) && e.dst == old(entry) then old(size) else old(entry)
    {
      if Multi(cfg, e.dst) {
        SplitKeeps(E0, cfg0, n, cfg, back, size, fences, done, pending, e);
        SplitEdge(e);
      } else {
        InsertKeeps(E0, cfg0, n, cfg, back, size, fences, done, pending, e);
        assert e !in pending;
        assert pending - {e} == pending;
        InsertBefore(e.dst);
      }
    }

    /** A fence for every edge of the cut. */
    method Mitigate(cut: seq<Edge>)
      requires forall e :: e in cfg + back ==> e.src < size && e.dst < size
      requires forall e :: e in back ==> !Multi(cfg, e.dst)
      requires NoDuplicates(cut) && ToSet(cut) <= cfg + back && fences == {}
      requires entry < size && forall u :: Edge(u, entry) !in cfg
      modifies this
      ensures Faithful(old(cfg + back), old(size), cfg + back, size, fences)
      ensures Faithful(old(cfg), old(size), cfg, size, fences)
      ensures Fenced(cfg + back, old(size), fences, ToSet(cut))
      ensures size == old(size) + |cut| && forall f: nat :: f in fences <==> old(size) <= f < size
      ensures if exists c :: c in cut && c.dst == old(entry) then entry in fences else entry == old(entry)
      ensures forall e :: e in old(cfg) && Spared(old(cfg), ToSet(cut), e) ==> e in cfg
      ensures forall e :: e in old(cfg + back) && (forall c :: c in cut ==> c.dst != e.dst) ==> e in cfg + back
      ensures forall e, c :: e in cfg && e.src < old(size) && e.dst < old(size) && c in cut && c.dst == e.dst ==>
                exists w :: w != e.src && Edge(w, e.dst) in old(cfg)
    {
      ghost var E0, cfg0, n := cfg + back, cfg, size;
      assert Into(cfg, entry) == {};
      PlaceAll(cut);
      assert Targeted(ToSet(cut), old(entry)) <==> exists c :: c in cut && c.dst == old(entry);
      MitigatedApart(E0, cfg0, n, cfg, back, size, fences, ToSet(cut));
    }

    method PlaceNext(cut: seq<Edge>, i: nat, ghost E0: set<Edge>, ghost cfg0: set<Edge>, ghost n: nat, ghost entry0: nat,
                     ghost pending: set<Edge>)
      returns (ghost pending': set<Edge>)
      requires NoDuplicates(cut) && i < |cut| && cut[i] in E0 && entry0 < n && !Multi(cfg0, entry0)
      requires Placing(E0, cfg0, n, cfg, back, size, fences, ToSet(cut[..i]), pending) && PendingFrom(cfg0, cut, i, pending)
      requires FreshFences(n, size, fences) && EntryKept(ToSet(cut[..i]), entry0, entry, fences)
      modifies this
      ensures Placing(E0, cfg0, n, cfg, back, size, fences, ToSet(cut[..i + 1]), pending') && PendingFrom(cfg0, cut, i + 1, pending')
      ensures size == old(size) + 1 && FreshFences(n, size, fences)
      ensures EntryKept(ToSet(cut[..i + 1]), entry0, entry, fences)
    {
      ghost var done, e := ToSet(cut[..i]), cut[i];
      assert Multi(cfg0, e.dst) ==> e in pending;
      PlaceFence(cut[i], E0, cfg0, n, done, pending);
      PendingNext(cfg0, cut, i, pending);
      ToSetNext(cut, i);
      TargetedGrows(done, e, entry0);
      pending' := pending - {e};
    }

    method PlaceAll(cut: seq<Edge>)
      requires forall e :: e in cfg + back ==> e.src < size && e.dst < size
      requires forall e :: e in back ==> !Multi(cfg, e.dst)
      requires NoDuplicates(cut) && ToSet(cut) <= cfg + back && fences == {}
      requires entry < size && !Multi(cfg, entry)
      modifies this
      ensures Placed(old(cfg + back), old(cfg), old(size), cfg, back, size, fences, ToSet(cut))
      ensures size == old(size) + |cut| && FreshFences(old(size), size, fences)
      ensures EntryKept(ToSet(cut), old(entry), entry, fences)
    {
      ghost var E0, cfg0, n := cfg + back, cfg, size;
      ghost var pending := ToSplit(cfg, back, cut);
      NothingPlaced(cfg, back, size, pending);
      assert ToSet(cut[..0]) == {};
      assert PendingFrom(cfg0, cut, 0, pending) by {
        assert forall j :: 0 <= j < |cut| ==> cut[j] in ToSet(cut);
      }
      for i := 0 to |cut|
        invariant Placing(E0, cfg0, n, cfg, back, size, fences, ToSet(cut[..i]), pending) && PendingFrom(cfg0, cut, i, pending)
        invariant size == n + i && FreshFences(n, size, fences) && EntryKept(ToSet(cut[..i]), old(entry), entry, fences)
      {
        pending := PlaceNext(cut, i, E0, cfg0, n, old(entry), pending);
      }
      assert cut[..|cut|] == cut;
    }
  }

  /**
   * An edge to which nothing is to be done: it is not in the cut, and its target has a second predecessor or no edge
   * of the cut leads to it.
   */
  ghost predicate Spared(cfg: set<Edge>, cut: set<Edge>, e: Edge) {
    e !in cut && ((exists w :: w != e.src && Edge(w, e.dst) in cfg) || forall c :: c in cut ==> c.dst != e.dst)
  }

  /** Several predecessors, counted from one of them. */
  lemma MultiIsSecond(cfg: set<Edge>, e: Edge)
    requires e in cfg
    ensures Multi(cfg, e.dst) <==> exists w :: w != e.src && Edge(w, e.dst) in cfg
  {
    var into := Into(cfg, e.dst);
    assert e in into;
    if w :| w != e.src && Edge(w, e.dst) in cfg {
      assert {e, Edge(w, e.dst)} <= into;
      SubsetSize({e, Edge(w, e.dst)}, into);
    }
    if forall w :: w != e.src ==> Edge(w, e.dst) !in cfg {
      forall x
        ensures x in into <==> x == e
      {
        assert x in into ==> x == Edge(x.src, e.dst);
      }
      assert into == {e};
    }
  }

  lemma SubsetSize<T>(a: set<T>, b: set<T>)
    requires a <= b
    ensures |a| <= |b|
  {
    if a != {} {
      var x :| x in a;
      SubsetSize(a - {x}, b - {x});
    }
  }

  lemma MitigatedApart(E0: set<Edge>, cfg0: set<Edge>, n: nat, cfg: set<Edge>, back: set<Edge>, size: nat,
                       fences: set<nat>, cut: set<Edge>)
    requires Faithful(cfg0, n, cfg, size, fences) && Untouched(E0, cfg0, cfg, back, cut) && Shut(cfg0, n, cfg + back, cut)
    ensures forall e :: e in cfg0 && Spared(cfg0, cut, e) ==> e in cfg
    ensures forall e :: e in E0 && (forall c :: c in cut ==> c.dst != e.dst) ==> e in cfg + back
    ensures forall e, c :: e in cfg && e.src < n && e.dst < n && c in cut && c.dst == e.dst ==>
              exists w :: w != e.src && Edge(w, e.dst) in cfg0
  {
    forall e | e in cfg0 && Spared(cfg0, cut, e)
      ensures e in cfg
    {
      MultiIsSecond(cfg0, e);
    }
    forall e, c | e in cfg && e.src < n && e.dst < n && c in cut && c.dst == e.dst
      ensures exists w :: w != e.src && Edge(w, e.dst) in cfg0
    {
      EdgeIsOriginal(cfg0, n, cfg, size, fences, e);
      MultiIsSecond(cfg0, e);
      assert e == Edge(e.src, c.dst) && e in cfg + back;
    }
  }

  /** An edge between original nodes was there before. */
  lemma EdgeIsOriginal(E0: set<Edge>, n: nat, E: set<Edge>, size: nat, fences: set<nat>, e: Edge)
    requires Faithful(E0, n, E, size, fences) && e in E && e.src < n && e.dst < n
    ensures e in E0 && Segment(E, n, e.src, e.dst, [])
  {
    EdgeIsWalk(E, e.src, e.dst);
    assert [e.src] + [] + [e.dst] == [e.src, e.dst];
    assert Segment(E, n, e.src, e.dst, []);
  }

  /** All fresh nodes are fences. */
  ghost predicate FreshFences(n: nat, size: nat, fences: set<nat>) {
    forall f: nat :: f in fences <==> n <= f < size
  }

  /** The function starts where it did, or with a fence if an edge to its start is fenced. */
  ghost predicate EntryKept(done: set<Edge>, entry0: nat, entry: nat, fences: set<nat>) {
    if Targeted(done, entry0) then entry in fences else entry == entry0
  }

  /** The edges of the cut from the i-th on that are to be split are pending. */
  ghost predicate PendingFrom(cfg0: set<Edge>, cut: seq<Edge>, i: nat, pending: set<Edge>) {
    forall j :: i <= j < |cut| && Multi(cfg0, cut[j].dst) ==> cut[j] in pending
  }

  lemma PendingNext(cfg0: set<Edge>, cut: seq<Edge>, i: nat, pending: set<Edge>)
    requires i < |cut| && NoDuplicates(cut) && PendingFrom(cfg0, cut, i, pending)
    ensures PendingFrom(cfg0, cut, i + 1, pending - {cut[i]})
  {
  }

  /** A walk over edges to which nothing is to be done is still there as it is, without a fence. */
  lemma SparedWalk(cfg0: set<Edge>, n: nat, cfg: set<Edge>, fences: set<nat>, cut: set<Edge>, p: seq<nat>)
    requires IsWalk(cfg0, p) && (forall x :: x in p ==> x < n) && forall f :: f in fences ==> n <= f
    requires forall e :: e in cfg0 && Spared(cfg0, cut, e) ==> e in cfg
    requires forall i :: 0 <= i < |p| - 1 ==> Spared(cfg0, cut, Hop(p, i))
    ensures IsWalk(cfg, p) && !Crosses(p, fences)
  {
    forall i | 0 <= i < |p| - 1
      ensures Hop(p, i) in cfg
    {
      assert Hop(p, i) in cfg0;
    }
  }

  lemma ToSetNext(cut: seq<Edge>, i: nat)
    requires i < |cut|
    ensures ToSet(cut[..i + 1]) == ToSet(cut[..i]) + {cut[i]}
  {
    assert cut[..i + 1] == cut[..i] + [cut[i]];
  }

  /** The edges of the cut whose targets have several predecessors: no back edge is among them. */
  ghost function ToSplit(cfg: set<Edge>, back: set<Edge>, cut: seq<Edge>): (r: set<Edge>)
    requires ToSet(cut) <= cfg + back && forall e :: e in back ==> !Multi(cfg, e.dst)
    ensures r <= cfg
  {
    set e | e in ToSet(cut) && Multi(cfg, e.dst)
  }

  // ---------------------------------------------------------------------------------
  // Whole walks

  /** The nodes of a walk that were in the original graph. */
  function Originals(q: seq<nat>, n: nat): (p: seq<nat>)
    ensures forall x :: x in p <==> x in q && x < n
  {
    if q == [] then []
    else if q[|q| - 1] < n then Originals(q[..|q| - 1], n) + [q[|q| - 1]]
    else Originals(q[..|q| - 1], n)
  }

  ghost predicate Crosses(q: seq<nat>, fences: set<nat>) {
    exists f :: f in q && f in fences
  }

  /**
   * Without the fresh nodes, a walk of the fenced function is a walk of the original one, and it has
   * crossed a fence if it took an edge of the cut. `tail` is what follows the last original node.
   */
  lemma {:induction false} EraseWalk(E0: set<Edge>, n: nat, E: set<Edge>, size: nat, fences: set<nat>, cut: set<Edge>, q: seq<nat>)
    returns (tail: seq<nat>)
    requires Faithful(E0, n, E, size, fences) && Fenced(E, n, fences, cut) && IsWalk(E, q)
    ensures Originals(q, n) != [] ==> Erased(E0, n, E, fences, cut, q, Originals(q, n), tail)
  {
    tail := [];
    if |q| == 1 {
      assert q == [q[0]];
      assert Originals(q, n) == if q[0] < n then q else [];
    } else {
      var r, x := q[..|q| - 1], q[|q| - 1];
      assert q == r + [x];
      LastHop(E, q);
      var t := EraseWalk(E0, n, E, size, fences, cut, r);
      var p := Originals(r, n);
      assert Originals(q, n) == if x < n then p + [x] else p;
      if p != [] {
        tail := EraseStep(E0, n, E, size, fences, cut, r, x, p, t);
      }
    }
  }

  /** The walk q without its fresh nodes is p, and `tail` is what follows the last node of p in q. */
  ghost predicate Erased(E0: set<Edge>, n: nat, E: set<Edge>, fences: set<nat>, cut: set<Edge>, q: seq<nat>, p: seq<nat>, tail: seq<nat>) {
    && p != [] && q != [] && IsWalk(E0, p) && p[|p| - 1] < n
    && (forall x :: x in tail ==> x in q && x >= n) && IsWalk(E, [p[|p| - 1]] + tail)
    && (if tail == [] then q[|q| - 1] == p[|p| - 1] else q[|q| - 1] == tail[|tail| - 1])
    && (!Crosses(q, fences) ==> IsWalk(E0 - cut, p))
  }

  lemma EraseStep(E0: set<Edge>, n: nat, E: set<Edge>, size: nat, fences: set<nat>, cut: set<Edge>, r: seq<nat>, x: nat,
                  p: seq<nat>, t: seq<nat>)
    returns (tail: seq<nat>)
    requires Faithful(E0, n, E, size, fences) && Fenced(E, n, fences, cut)
    requires Erased(E0, n, E, fences, cut, r, p, t) && Edge(r[|r| - 1], x) in E
    ensures Erased(E0, n, E, fences, cut, r + [x], if x < n then p + [x] else p, tail)
  {
    var q, u := r + [x], p[|p| - 1];
    assert ([u] + t)[|t|] == r[|r| - 1];
    assert IsWalk(E, [u] + (t + [x])) && IsWalk(E, [u] + t + [x]) by {
      ExtendWalk(E, [u] + t, x);
      assert [u] + t + [x] == [u] + (t + [x]);
    }
    if !Crosses(q, fences) {
      NotCrossedBefore(r, q, t, fences);
    }
    if x < n {
      EraseOneMore(E0, n, E, size, fences, cut, p, t, x);
      tail := [];
    } else {
      tail := t + [x];
    }
  }

  /** After the fresh nodes `t` the walk comes to the original node x. */
  lemma EraseOneMore(E0: set<Edge>, n: nat, E: set<Edge>, size: nat, fences: set<nat>, cut: set<Edge>, p: seq<nat>, t: seq<nat>, x: nat)
    requires Faithful(E0, n, E, size, fences) && Fenced(E, n, fences, cut)
    requires p != [] && p[|p| - 1] < n && x < n && (forall y :: y in t ==> y >= n) && IsWalk(E, [p[|p| - 1]] + t + [x])
    ensures IsWalk(E0, p) ==> IsWalk(E0, p + [x])
    ensures IsWalk(E0 - cut, p) && !Crosses(t, fences) ==> IsWalk(E0 - cut, p + [x])
  {
    WayIsEdge(E0, n, E, size, fences, cut, p[|p| - 1], x, t);
    if IsWalk(E0, p) {
      ExtendWalk(E0, p, x);
    }
    if IsWalk(E0 - cut, p) && !Crosses(t, fences) {
      ExtendWalk(E0 - cut, p, x);
    }
  }

  lemma NotCrossedBefore(r: seq<nat>, q: seq<nat>, t: seq<nat>, fences: set<nat>)
    requires !Crosses(q, fences) && (forall y :: y in r ==> y in q) && forall y :: y in t ==> y in r
    ensures !Crosses(r, fences) && !Crosses(t, fences)
  {
  }

  lemma WayIsEdge(E0: set<Edge>, n: nat, E: set<Edge>, size: nat, fences: set<nat>, cut: set<Edge>, u: nat, v: nat, inner: seq<nat>)
    requires Faithful(E0, n, E, size, fences) && Fenced(E, n, fences, cut) && u < n && v < n
    requires IsWalk(E, [u] + inner + [v]) && forall x :: x in inner ==> x >= n
    ensures Edge(u, v) in E0 && (!Crosses(inner, fences) ==> Edge(u, v) !in cut)
  {
    forall i | 0 <= i < |inner|
      ensures inner[i] >= n
    {
      assert inner[i] in inner;
    }
    assert Segment(E, n, u, v, inner);
    if Edge(u, v) in cut {
      assert Segment(E, n, Edge(u, v).src, Edge(u, v).dst, inner);
    }
  }

  lemma {:induction false} OriginalsJoin(a: seq<nat>, b: seq<nat>, n: nat)
    ensures Originals(a + b, n) == Originals(a, n) + Originals(b, n)
  {
    if b == [] {
      assert a + b == a;
    } else {
      assert (a + b)[..|a + b| - 1] == a + b[..|b| - 1];
      OriginalsJoin(a, b[..|b| - 1], n);
    }
  }

  lemma {:induction false} NoOriginals(inner: seq<nat>, n: nat)
    requires forall i :: 0 <= i < |inner| ==> inner[i] >= n
    ensures Originals(inner, n) == []
  {
    if inner != [] {
      NoOriginals(inner[..|inner| - 1], n);
    }
  }

  /** Every walk of the original function is still there, with fresh nodes in between. */
  lemma {:induction false} RestoreWalk(E0: set<Edge>, n: nat, E: set<Edge>, size: nat, fences: set<nat>, p: seq<nat>)
    returns (q: seq<nat>)
    requires Faithful(E0, n, E, size, fences) && IsWalk(E0, p) && forall x :: x in p ==> x < n
    ensures IsWalk(E, q) && Originals(q, n) == p && q[|q| - 1] == p[|p| - 1]
  {
    assert p[|p| - 1] in p;
    if |p| == 1 {
      q := p;
      assert p == [p[0]];
    } else {
      var r, u, v := p[..|p| - 1], p[|p| - 2], p[|p| - 1];
      assert p == r + [v] && forall x :: x in r ==> x in p;
      LastHop(E0, p);
      var s := RestoreWalk(E0, n, E, size, fences, r);
      assert Edge(u, v) in E0;
      var inner :| Segment(E, n, u, v, inner);
      assert [u] + inner + [v] == [u] + (inner + [v]);
      JoinWalks(E, s, [u] + inner + [v]);
      assert ([u] + inner + [v])[1..] == inner + [v];
      q := s + (inner + [v]);
      OriginalsJoin(s, inner + [v], n);
      OriginalsJoin(inner, [v], n);
      NoOriginals(inner, n);
      assert Originals([v], n) == [v];
    }
  }

  /** The walks of E, without nodes that are not below n, are the walks of E0. */
  ghost predicate SameButFresh(E0: set<Edge>, n: nat, E: set<Edge>) {
    && (forall q :: IsWalk(E, q) && Originals(q, n) != [] ==> IsWalk(E0, Originals(q, n)))
    && (forall p :: IsWalk(E0, p) && (forall x :: x in p ==> x < n) ==> exists q :: IsWalk(E, q) && Originals(q, n) == p)
  }

  lemma FaithfulWalks(E0: set<Edge>, n: nat, E: set<Edge>, size: nat, fences: set<nat>)
    requires Faithful(E0, n, E, size, fences)
    ensures SameButFresh(E0, n, E)
  {
    forall q | IsWalk(E, q) && Originals(q, n) != []
      ensures IsWalk(E0, Originals(q, n))
    {
      var tail := EraseWalk(E0, n, E, size, fences, {}, q);
    }
    forall p | IsWalk(E0, p) && forall x :: x in p ==> x < n
      ensures exists q :: IsWalk(E, q) && Originals(q, n) == p
    {
      var q := RestoreWalk(E0, n, E, size, fences, p);
    }
  }

  /** If the cut separates the waypoints, a walk that has passed through them has crossed a fence. */
  lemma FencesStopWaypointWalks(E0: set<Edge>, n: nat, E: set<Edge>, size: nat, fences: set<nat>, cut: set<Edge>,
                                W: Waypoints, q: seq<nat>)
    requires Faithful(E0, n, E, size, fences) && Fenced(E, n, fences, cut)
    requires |W| >= 1 && Separated(E0 - cut, W) && IsWalk(E, q) && Admits(Originals(q, n), W)
    ensures Crosses(q, fences)
  {
    var tail := EraseWalk(E0, n, E, size, fences, cut, q);
    AdmittedIsWalk(Originals(q, n), W);
  }
}
