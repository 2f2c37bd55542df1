/** Lists of edges in lexicographic order, and the standard library's sort and unique on them. */
module EdgeLists {
  import opened Graphs

  predicate Less(a: Edge, b: Edge) {
    a.src < b.src || (a.src == b.src && a.dst < b.dst)
  }

  predicate Ascending(s: seq<Edge>) {
    forall i, j :: 0 <= i < j < |s| ==> !Less(s[j], s[i])
  }

  /** Sorted and free of duplicates. */
  predicate StrictlyAscending(s: seq<Edge>) {
    forall i, j :: 0 <= i < j < |s| ==> Less(s[i], s[j])
  }

  ghost predicate NoDuplicates(s: seq<Edge>) {
    forall i, j :: 0 <= i < j < |s| ==> s[i] != s[j]
  }

  function ToSet(s: seq<Edge>): set<Edge> {
    set e | e in s
  }

  function Insert(e: Edge, s: seq<Edge>): (r: seq<Edge>)
    ensures |r| == |s| + 1
    ensures forall x :: x in r <==> x == e || x in s
  {
    if s == [] then [e]
    else if Less(s[0], e) then [s[0]] + Insert(e, s[1..])
    else [e] + s
  }

  function Sort(s: seq<Edge>): (r: seq<Edge>)
    ensures |r| == |s|
    ensures forall x :: x in r <==> x in s
  {
    if s == [] then [] else Insert(s[0], Sort(s[1..]))
  }

  /** The first of each run of equal edges. */
  function Unique(s: seq<Edge>): (r: seq<Edge>)
    ensures |r| <= |s|
    ensures forall x :: x in r <==> x in s
  {
    if |s| <= 1 then s
    else if s[0] == s[1] then Unique(s[1..])
    else [s[0]] + Unique(s[1..])
  }

  /** What `std::unique` leaves in a vector that is not resized: the old elements stay behind the new end. */
  function UniqueInPlace(s: seq<Edge>): (r: seq<Edge>)
    ensures |r| == |s|
  {
    Unique(s) + s[|Unique(s)|..]
  }

  lemma {:induction false} InsertAscending(e: Edge, s: seq<Edge>)
    requires Ascending(s)
    ensures Ascending(Insert(e, s))
  {
    if s != [] && Less(s[0], e) {
      InsertAscending(e, s[1..]);
      var r := Insert(e, s[1..]);
      forall j | 0 <= j < |r|
        ensures !Less(r[j], s[0])
      {
        assert r[j] in r;
        if r[j] != e {
          var m :| 0 <= m < |s[1..]| && s[1..][m] == r[j];
          assert s[m + 1] == r[j];
        }
      }
    }
  }

  lemma {:induction false} SortAscending(s: seq<Edge>)
    ensures Ascending(Sort(s))
  {
    if s != [] {
      SortAscending(s[1..]);
      InsertAscending(s[0], Sort(s[1..]));
    }
  }

  lemma {:induction false} UniqueStrict(s: seq<Edge>)
    requires Ascending(s)
    ensures StrictlyAscending(Unique(s))
  {
    if |s| > 1 {
      UniqueStrict(s[1..]);
      var r := Unique(s[1..]);
      if s[0] != s[1] {
        forall j | 0 <= j < |r|
          ensures Less(s[0], r[j])
        {
          assert r[j] in s[1..];
          var m :| 0 <= m < |s[1..]| && s[1..][m] == r[j];
          assert !Less(s[m + 1], s[0]) && !Less(s[1], s[0]);
          assert m > 0 ==> !Less(s[m + 1], s[1]);
        }
      }
    }
  }

  lemma {:induction false} InsertNoDuplicates(e: Edge, s: seq<Edge>)
    requires NoDuplicates(s) && e !in s
    ensures NoDuplicates(Insert(e, s))
  {
    if s != [] && Less(s[0], e) {
      assert s[0] in s;
      assert forall i :: 0 <= i < |s[1..]| ==> s[1..][i] == s[i + 1] && s[1..][i] in s;
      InsertNoDuplicates(e, s[1..]);
      assert s[0] !in s[1..];
    }
  }

  lemma {:induction false} SortNoDuplicates(s: seq<Edge>)
    requires NoDuplicates(s)
    ensures NoDuplicates(Sort(s)) && StrictlyAscending(Sort(s))
  {
    if s != [] {
      assert s[0] !in s[1..];
      SortNoDuplicates(s[1..]);
      InsertNoDuplicates(s[0], Sort(s[1..]));
      SortAscending(s);
    }
  }

  /** A list without equal neighbours is left as it is. */
  lemma {:induction false} UniqueOfDistinct(s: seq<Edge>)
    requires NoDuplicates(s)
    ensures Unique(s) == s && UniqueInPlace(s) == s
  {
    if |s| > 1 {
      UniqueOfDistinct(s[1..]);
    }
  }

  lemma StrictIsDistinct(s: seq<Edge>)
    requires StrictlyAscending(s)
    ensures NoDuplicates(s)
  {
    forall i, j | 0 <= i < j < |s|
      ensures s[i] != s[j]
    {
      assert Less(s[i], s[j]);
    }
  }
}
