/**
 * The k-level copy of a graph. An edge into W[i] leaves level i-1 for level i; every other edge stays
 * in its level. A walk of the graph that visits W[0], ..., W[k-1] in order becomes a walk from W[0] in
 * level 0 to W[k-1] in level k-1.
 */
module LevelGraphs {
  import opened Graphs

  // ---------------------------------------------------------------------------------
  // Node numbers of the copies, counted off level by level

  function Lift(n: nat, v: nat, l: nat): nat {
    if l == 0 then v else n + Lift(n, v, l - 1)
  }

  function Level(n: nat, x: nat): nat
    requires n > 0
  {
    if x < n then 0 else 1 + Level(n, x - n)
  }

  function Base(n: nat, x: nat): (v: nat)
    requires n > 0
    ensures v < n
  {
    if x < n then x else Base(n, x - n)
  }

  lemma {:induction false} LiftDecodes(n: nat, v: nat, l: nat)
    requires v < n
    ensures Level(n, Lift(n, v, l)) == l && Base(n, Lift(n, v, l)) == v
  {
    if l > 0 {
      LiftDecodes(n, v, l - 1);
    }
  }

  lemma {:induction false} LiftEncodes(n: nat, x: nat)
    requires n > 0
    ensures Lift(n, Base(n, x), Level(n, x)) == x
  {
    if x >= n {
      LiftEncodes(n, x - n);
    }
  }

  lemma {:induction false} LevelBound(n: nat, x: nat, k: nat)
    requires n > 0
    ensures x < Lift(n, 0, k) <==> Level(n, x) < k
  {
    if k > 0 && x >= n {
      LevelBound(n, x - n, k - 1);
    }
  }

  /** The arithmetic the code uses for the same numbers. */
  lemma {:induction false} LiftIsArithmetic(n: nat, v: nat, l: nat)
    ensures Lift(n, v, l) == v + n * l
  {
    if l > 0 {
      LiftIsArithmetic(n, v, l - 1);
    }
  }

  lemma {:induction false} LevelIsArithmetic(n: nat, x: nat)
    requires n > 0
    ensures Level(n, x) == x / n && Base(n, x) == x % n
  {
    LiftEncodes(n, x);
    LiftIsArithmetic(n, Base(n, x), Level(n, x));
    DivModUnique(n, Level(n, x), Base(n, x));
  }

  lemma DivModUnique(n: nat, q: nat, r: nat)
    requires r < n
    ensures (r + n * q) / n == q && (r + n * q) % n == r
  {
    var x := r + n * q;
    var d := x / n - q;
    assert x == n * (x / n) + x % n;
    assert n * d == r - x % n by {
      assert n * d == n * (x / n) - n * q;
    }
    assert d >= 1 ==> n * d >= n;
    assert d <= -1 ==> n * d + n <= 0;
  }

  // ---------------------------------------------------------------------------------
  // The copy without any diversion

  /** `levels` copies of a graph; edges connect nodes of the same copy. */
  datatype DupGraph = DupGraph(g: IdxGraph, levels: nat) {

    function Nodes(): nat {
      |g| * levels
    }

    function GetLevel(v: nat): (l: nat)
      requires |g| > 0
      ensures l == Level(|g|, v)
    {
      LevelIsArithmetic(|g|, v);
      v / |g|
    }

    function GetFirstLevelNode(v: nat): (b: nat)
      requires |g| > 0
      ensures b == Base(|g|, v)
    {
      LevelIsArithmetic(|g|, v);
      v % |g|
    }

    function GetNodeForLevel(v: nat, l: nat): (x: nat)
      requires v < |g|
      ensures x == Lift(|g|, v, l)
    {
      LiftIsArithmetic(|g|, v, l);
      v + |g| * l
    }

    /** The edges out of `src`: those of its base node, moved to its level. */
    function Row(src: nat): (row: Dsts)
      requires |g| > 0 && WellFormed(g)
      ensures forall x :: x in row <==> Level(|g|, x) == Level(|g|, src) && Base(|g|, x) in g[Base(|g|, src)]
      ensures forall x :: x in row ==> row[x] == g[Base(|g|, src)][Base(|g|, x)]
    {
      var l, dsts := GetLevel(src), g[GetFirstLevelNode(src)];
      RowIsLifted(dsts, l);
      map v | v in dsts :: Lift(|g|, v, l) := dsts[v]
    }

    lemma RowIsLifted(dsts: Dsts, l: nat)
      requires |g| > 0 && forall v :: v in dsts ==> v < |g|
      ensures forall v :: v in dsts ==> Level(|g|, Lift(|g|, v, l)) == l && Base(|g|, Lift(|g|, v, l)) == v
      ensures forall x: nat :: Lift(|g|, Base(|g|, x), Level(|g|, x)) == x
    {
      forall v | v in dsts
        ensures Level(|g|, Lift(|g|, v, l)) == l && Base(|g|, Lift(|g|, v, l)) == v
      {
        LiftDecodes(|g|, v, l);
      }
      forall x: nat
        ensures Lift(|g|, Base(|g|, x), Level(|g|, x)) == x
      {
        LiftEncodes(|g|, x);
      }
    }

    function Rows(): (r: IdxGraph)
      requires |g| > 0 && WellFormed(g)
      ensures |r| == Lift(|g|, 0, levels)
    {
      LiftIsArithmetic(|g|, 0, levels);
      seq(Nodes(), src requires 0 <= src => Row(src))
    }
  }
}
