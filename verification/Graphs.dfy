/** Finite directed graphs as adjacency maps, paths in them, and what reachability obeys. */
module Graphs {

  type Name = string
  type Graph = map<Name, seq<Name>>

  predicate Edge(g: Graph, a: Name, b: Name) {
    a in g && b in g[a]
  }

  ghost predicate IsPath(g: Graph, p: seq<Name>) {
    |p| > 0 && forall i | 0 <= i < |p| - 1 :: Edge(g, p[i], p[i + 1])
  }

  ghost predicate PathFrom(g: Graph, a: Name, b: Name, p: seq<Name>) {
    IsPath(g, p) && p[0] == a && p[|p| - 1] == b
  }

  /** b can be reached from a by following zero or more edges. */
  ghost predicate Reaches(g: Graph, a: Name, b: Name) {
    exists p :: PathFrom(g, a, b, p)
  }

  /** a lies on a cycle. */
  ghost predicate OnCycle(g: Graph, a: Name) {
    exists p :: PathFrom(g, a, a, p) && |p| > 1
  }

  ghost predicate AcyclicFrom(g: Graph, a: Name) {
    forall b | Reaches(g, a, b) :: !OnCycle(g, b)
  }

  lemma ReachesSelf(g: Graph, a: Name)
    ensures Reaches(g, a, a)
  {
    assert PathFrom(g, a, a, [a]);
  }

  lemma JoinPaths(g: Graph, a: Name, b: Name, c: Name, p: seq<Name>, q: seq<Name>)
    requires PathFrom(g, a, b, p) && PathFrom(g, b, c, q)
    ensures PathFrom(g, a, c, p + q[1..])
  {
    var r := p + q[1..];
    forall i | 0 <= i < |r| - 1
      ensures Edge(g, r[i], r[i + 1])
    {
      if i >= |p| - 1 {
        var j := i - (|p| - 1);
        assert r[i] == q[j] && r[i + 1] == q[j + 1];
      } else {
        assert Edge(g, p[i], p[i + 1]);
      }
    }
  }

  lemma EdgePath(g: Graph, a: Name, b: Name)
    requires Edge(g, a, b)
    ensures PathFrom(g, a, b, [a, b]) && Reaches(g, a, b)
  {
    assert PathFrom(g, a, b, [a, b]);
  }

  lemma ReachesTransitive(g: Graph, a: Name, b: Name, c: Name)
    requires Reaches(g, a, b) && Reaches(g, b, c)
    ensures Reaches(g, a, c)
  {
    var p :| PathFrom(g, a, b, p);
    var q :| PathFrom(g, b, c, q);
    JoinPaths(g, a, b, c, p, q);
  }

  /** Everything but the start is reached through a first edge. */
  lemma FirstStep(g: Graph, a: Name, b: Name, p: seq<Name>)
    requires PathFrom(g, a, b, p) && |p| > 1
    ensures Edge(g, a, p[1]) && PathFrom(g, p[1], b, p[1..])
  {
    var q := p[1..];
    assert Edge(g, p[0], p[1]);
    forall i | 0 <= i < |q| - 1
      ensures Edge(g, q[i], q[i + 1])
    {
      assert Edge(g, p[i + 1], p[i + 2]);
    }
  }

  predicate Distinct(s: seq<Name>) {
    forall i, j | 0 <= i < j < |s| :: s[i] != s[j]
  }

  /** A sequence without repetitions is no longer than a set that holds its elements. */
  lemma {:induction false} DistinctBound(s: seq<Name>, S: set<Name>)
    requires Distinct(s) && forall n | n in s :: n in S
    ensures |s| <= |S|
  {
    if s != [] {
      var last := s[|s| - 1];
      assert last in s;
      DistinctBound(s[..|s| - 1], S - {last});
    }
  }

  /** A segment of a path is a path. */
  lemma Segment(g: Graph, p: seq<Name>, i: nat, j: nat)
    requires IsPath(g, p) && i <= j < |p|
    ensures PathFrom(g, p[i], p[j], p[i..j + 1])
  {
    var q := p[i..j + 1];
    forall k | 0 <= k < |q| - 1
      ensures Edge(g, q[k], q[k + 1])
    {
      assert Edge(g, p[i + k], p[i + k + 1]);
    }
  }

  /** Each element comes after everything it points to. */
  ghost predicate Ordered(g: Graph, s: seq<Name>) {
    Distinct(s) && forall i, b | 0 <= i < |s| && Edge(g, s[i], b) :: b in s[..i]
  }

  /** In an ordered list the edges go strictly backwards, so paths do too. */
  lemma {:induction false} PathsGoBack(g: Graph, s: seq<Name>, i: nat, p: seq<Name>)
    requires Ordered(g, s) && i < |s| && IsPath(g, p) && p[0] == s[i]
    ensures p[|p| - 1] in s[..i + 1]
    ensures |p| > 1 ==> p[|p| - 1] in s[..i]
  {
    if |p| > 1 {
      FirstStep(g, p[0], p[|p| - 1], p);
      assert p[1] in s[..i];
      var j :| 0 <= j < i && s[j] == p[1];
      PathsGoBack(g, s, j, p[1..]);
    }
  }

  /** What an ordered list contains is closed under reachability and free of cycles. */
  lemma OrderedClosed(g: Graph, s: seq<Name>, a: Name)
    requires Ordered(g, s) && a in s
    ensures forall b | Reaches(g, a, b) :: b in s && !OnCycle(g, b)
  {
    forall b | Reaches(g, a, b)
      ensures b in s && !OnCycle(g, b)
    {
      var p :| PathFrom(g, a, b, p);
      var i :| 0 <= i < |s| && s[i] == a;
      PathsGoBack(g, s, i, p);
      var j :| 0 <= j < |s| && s[j] == b;
      forall q | PathFrom(g, b, b, q) && |q| > 1
        ensures false
      {
        PathsGoBack(g, s, j, q);
      }
    }
  }
}
