/**
 Longest dependency distances between projects, and the dependencies of a project that are
 not implied by others.  The graph maps every project to its dependency names; names that are
 not projects have no dependencies.
 */
module MxDistances {
  import opened Graphs

  type Distances = map<Name, nat>

  /** n is the number of edges of the longest path from a to b. */
  ghost predicate Longest(g: Graph, a: Name, b: Name, n: nat) {
    (exists p :: PathFrom(g, a, b, p) && |p| == n + 1) && forall p | PathFrom(g, a, b, p) :: |p| <= n + 1
  }

  /** Every recorded distance is the length of some path from root. */
  ghost predicate Witnessed(g: Graph, root: Name, dist: Distances) {
    forall m | m in dist :: exists p :: PathFrom(g, root, m, p) && |p| == dist[m] + 1
  }

  /** Outside the names being worked on, every edge has been relaxed. */
  ghost predicate Relaxed(g: Graph, dist: Distances, open: seq<Name>) {
    forall m, c | m in dist && m !in open && Edge(g, m, c) :: c in dist && dist[c] > dist[m]
  }

  ghost predicate Grows(old_: Distances, new_: Distances, fixed: seq<Name>) {
    && (forall m | m in old_ :: m in new_ && new_[m] >= old_[m])
    && forall m | m in fixed :: (m in new_ <==> m in old_) && (m in old_ ==> new_[m] == old_[m])
  }

  /** Paths in an acyclic region do not repeat a name. */
  lemma PathDistinct(g: Graph, root: Name, p: seq<Name>)
    requires AcyclicFrom(g, root) && IsPath(g, p) && p[0] == root
    ensures Distinct(p)
  {
    forall i, j | 0 <= i < j < |p|
      ensures p[i] != p[j]
    {
      Segment(g, p, 0, i);
      Segment(g, p, i, j);
      assert Reaches(g, root, p[i]);
    }
  }

  /** A recorded distance bounds every path, once all edges are relaxed. */
  lemma {:induction false} PathBound(g: Graph, dist: Distances, a: Name, p: seq<Name>)
    requires Relaxed(g, dist, []) && a in dist && IsPath(g, p) && p[0] == a
    ensures p[|p| - 1] in dist && dist[p[|p| - 1]] >= dist[a] + |p| - 1
    decreases |p|
  {
    if |p| > 1 {
      FirstStep(g, a, p[|p| - 1], p);
      PathBound(g, dist, p[1], p[1..]);
    }
  }

  /** A table with every edge relaxed exists only where there is no cycle. */
  lemma RelaxedMeansAcyclic(g: Graph, root: Name, dist: Distances)
    requires Relaxed(g, dist, []) && root in dist
    ensures AcyclicFrom(g, root)
  {
    forall b | Reaches(g, root, b)
      ensures !OnCycle(g, b)
    {
      var p :| PathFrom(g, root, b, p);
      PathBound(g, dist, root, p);
      forall q | PathFrom(g, b, b, q)
        ensures |q| <= 1
      {
        PathBound(g, dist, b, q);
      }
    }
  }

  // ----- the recursion on every graph, cyclic or not -----

  /** How the recursion stands: still running when the given depth is used up, or ended. */
  datatype Progress = Running | Ended(dist: Distances)

  /** The calls of _compute_max_dep_distances, followed down to the given depth. */
  function Descend(g: Graph, name: Name, dist: Distances, d: nat, depth: nat): Progress
    decreases depth, 0
  {
    if depth == 0 then Running
    else if name in dist && dist[name] >= d then Ended(dist)
    else if name !in g then Ended(dist[name := d])
    else DescendAll(g, g[name], dist[name := d], d + 1, depth - 1)
  }

  function DescendAll(g: Graph, names: seq<Name>, dist: Distances, d: nat, depth: nat): Progress
    decreases depth, 1 + |names|
  {
    if names == [] then Ended(dist)
    else
      var p := Descend(g, names[0], dist, d, depth);
      if p.Running? then Running else DescendAll(g, names[1..], p.dist, d, depth)
  }

  ghost predicate RelaxedAt(g: Graph, dist: Distances, m: Name) {
    m in dist ==> forall c | Edge(g, m, c) :: c in dist && dist[c] > dist[m]
  }

  /** Every name is relaxed but the open ones that kept their distance. */
  ghost predicate Settles(g: Graph, a: Distances, b: Distances, open: set<Name>) {
    && (forall m | m in a :: m in b && b[m] >= a[m])
    && forall m | !(m in open && m in a && m in b && b[m] == a[m]) :: RelaxedAt(g, b, m)
  }

  lemma SettlesThen(g: Graph, a: Distances, b: Distances, c: Distances, open: set<Name>)
    requires Settles(g, a, b, open) && Settles(g, b, c, open)
    ensures Settles(g, a, c, open)
  {
    forall m | !(m in open && m in a && m in c && c[m] == a[m])
      ensures RelaxedAt(g, c, m)
    {
      if m in open && m in b && c[m] == b[m] {
        assert RelaxedAt(g, b, m);
      }
    }
  }

  lemma SettlesOpened(g: Graph, a: Distances, b: Distances, open: set<Name>, name: Name, d: nat)
    requires (forall m | m !in open :: RelaxedAt(g, a, m)) && (name in a ==> a[name] < d)
    requires Settles(g, a[name := d], b, open + {name})
    requires forall c | Edge(g, name, c) :: c in b && b[c] >= d + 1
    ensures Settles(g, a, b, open)
  {
    var a' := a[name := d];
    forall m | !(m in open && m in a && m in b && b[m] == a[m])
      ensures RelaxedAt(g, b, m)
    {
      if m == name && b[m] == d {
      } else if m != name {
        assert m in a' <==> m in a;
      }
    }
  }

  /** When the recursion ends, on whatever graph, it has relaxed all it touched. */
  lemma {:induction false} EndedSettles(g: Graph, name: Name, dist: Distances, d: nat, depth: nat, open: set<Name>)
    requires forall m | m !in open :: RelaxedAt(g, dist, m)
    requires Descend(g, name, dist, d, depth).Ended?
    ensures var b := Descend(g, name, dist, d, depth).dist;
            Settles(g, dist, b, open) && name in b && b[name] >= d
    decreases depth, 0
  {
    if (name !in dist || dist[name] < d) {
      var dist' := dist[name := d];
      forall m | m !in open + {name}
        ensures RelaxedAt(g, dist', m)
      {
        assert RelaxedAt(g, dist, m);
      }
      if name in g {
        EndedAllSettles(g, g[name], dist', d + 1, depth - 1, open + {name});
      }
      SettlesOpened(g, dist, Descend(g, name, dist, d, depth).dist, open, name, d);
    }
  }

  lemma {:induction false} EndedAllSettles(g: Graph, names: seq<Name>, dist: Distances, d: nat, depth: nat,
                                           open: set<Name>)
    requires forall m | m !in open :: RelaxedAt(g, dist, m)
    requires DescendAll(g, names, dist, d, depth).Ended?
    ensures var b := DescendAll(g, names, dist, d, depth).dist;
            Settles(g, dist, b, open) && forall c | c in names :: c in b && b[c] >= d
    decreases depth, 1 + |names|
  {
    if names != [] {
      var p := Descend(g, names[0], dist, d, depth);
      EndedSettles(g, names[0], dist, d, depth, open);
      EndedAllSettles(g, names[1..], p.dist, d, depth, open);
      SettlesThen(g, dist, p.dist, DescendAll(g, names, dist, d, depth).dist, open);
    }
  }

  /** Without cycles the chain of calls never repeats a name, so the graph bounds its depth. */
  lemma {:induction false} DepthSuffices(g: Graph, root: Name, stack: seq<Name>, name: Name, dist: Distances,
                                         d: nat, depth: nat)
    requires AcyclicFrom(g, root) && PathFrom(g, root, name, stack + [name])
    requires depth + |stack| >= |g| + 2
    ensures Descend(g, name, dist, d, depth).Ended?
    decreases depth, 0
  {
    ShortPath(g, root, name, stack + [name]);
    if (name !in dist || dist[name] < d) && name in g {
      DepthSufficesAll(g, root, stack + [name], name, g[name], dist[name := d], d + 1, depth - 1);
    }
  }

  lemma {:induction false} DepthSufficesAll(g: Graph, root: Name, path: seq<Name>, last: Name, names: seq<Name>,
                                            dist: Distances, d: nat, depth: nat)
    requires AcyclicFrom(g, root) && PathFrom(g, root, last, path) && forall c | c in names :: Edge(g, last, c)
    requires depth + |path| >= |g| + 2
    ensures DescendAll(g, names, dist, d, depth).Ended?
    decreases depth, 1 + |names|
  {
    if names != [] {
      EdgePath(g, last, names[0]);
      JoinPaths(g, root, last, names[0], path, [last, names[0]]);
      assert path + [last, names[0]][1..] == path + [names[0]];
      DepthSuffices(g, root, path, names[0], dist, d, depth);
      DepthSufficesAll(g, root, path, last, names[1..], Descend(g, names[0], dist, d, depth).dist, d, depth);
    }
  }

  /** The recursion ends if and only if no cycle can be reached. */
  lemma EndsIffAcyclic(g: Graph, root: Name)
    ensures (exists depth: nat :: Descend(g, root, map[], 0, depth).Ended?) <==> AcyclicFrom(g, root)
  {
    if depth: nat :| Descend(g, root, map[], 0, depth).Ended? {
      EndedSettles(g, root, map[], 0, depth, {});
      var b := Descend(g, root, map[], 0, depth).dist;
      assert Relaxed(g, b, []) by {
        forall m, c | m in b && Edge(g, m, c)
          ensures c in b && b[c] > b[m]
        {
          assert RelaxedAt(g, b, m);
        }
      }
      RelaxedMeansAcyclic(g, root, b);
    }
    if AcyclicFrom(g, root) {
      assert [] + [root] == [root] && PathFrom(g, root, root, [root]);
      DepthSuffices(g, root, [], root, map[], 0, |g| + 2);
    }
  }

  // ----- the recursion on acyclic graphs -----

  lemma Record(g: Graph, root: Name, dist: Distances, name: Name, stack: seq<Name>)
    requires PathFrom(g, root, name, stack + [name]) && name !in stack
    requires Witnessed(g, root, dist) && Relaxed(g, dist, stack) && (name !in dist || dist[name] < |stack|)
    ensures var dist' := dist[name := |stack|];
            Witnessed(g, root, dist') && Relaxed(g, dist', stack + [name]) && Grows(dist, dist', stack)
  {
  }

  lemma CloseName(g: Graph, dist: Distances, name: Name, stack: seq<Name>)
    requires Relaxed(g, dist, stack + [name]) && name in dist
    requires forall c | Edge(g, name, c) :: c in dist && dist[c] > dist[name]
    ensures Relaxed(g, dist, stack)
  {
  }

  lemma GrowsOn(a: Distances, b: Distances, c: Distances, name: Name, stack: seq<Name>)
    requires Grows(a, b, stack) && Grows(b, c, stack + [name]) && name in b
    ensures Grows(a, c, stack) && name in c && c[name] == b[name]
    ensures forall m | m in b :: m in c && c[m] >= b[m]
  {
    assert forall m | m in stack :: m in stack + [name];
    assert name in stack + [name];
  }

  class DistanceTable {
    const g: Graph
    var dist: Distances

    constructor (g: Graph)
      ensures this.g == g && dist == map[]
    {
      this.g, dist := g, map[];
    }

    /** _compute_max_dep_distances; stack is the chain of names from root to the current one. */
    method Relax(name: Name, d: nat, ghost root: Name, ghost stack: seq<Name>)
      requires AcyclicFrom(g, root) && PathFrom(g, root, name, stack + [name]) && d == |stack|
      requires Witnessed(g, root, dist) && Relaxed(g, dist, stack)
      modifies this`dist
      ensures Witnessed(g, root, dist) && Relaxed(g, dist, stack)
      ensures name in dist && dist[name] >= d && Grows(old(dist), dist, stack)
      ensures |stack| <= |g| && Descend(g, name, old(dist), d, |g| + 2 - |stack|) == Ended(dist)
      decreases |g| - |stack|
    {
      hide AcyclicFrom;
      hide IsPath;
      hide Witnessed;
      hide Relaxed;
      hide Grows;
      ghost var path := stack + [name];
      PathDistinct(g, root, path);
      ShortPath(g, root, name, path);
      assert name !in stack by {
        forall i | 0 <= i < |stack|
          ensures stack[i] != name
        {
          assert path[i] == stack[i] && path[|stack|] == name;
        }
      }
      if name !in dist || dist[name] < d {
        Record(g, root, dist, name, stack);
        dist := dist[name := d];
        if name in g {
          assert |stack| < |g| by { StackBound(g, path); }
          var deps := g[name];
          ghost var dist', depth := dist, |g| + 1 - |stack|;
          assert deps[0..] == deps;
          for i := 0 to |deps|
            invariant Witnessed(g, root, dist) && Relaxed(g, dist, path)
            invariant name in dist && dist[name] == d && Grows(old(dist), dist, stack)
            invariant forall k | 0 <= k < i :: deps[k] in dist && dist[deps[k]] > d
            invariant DescendAll(g, deps, dist', d + 1, depth) == DescendAll(g, deps[i..], dist, d + 1, depth)
          {
            assert Edge(g, name, deps[i]);
            ghost var before := dist;
            EdgePath(g, name, deps[i]);
            JoinPaths(g, root, name, deps[i], path, [name, deps[i]]);
            assert path + [name, deps[i]][1..] == path + [deps[i]];
            assert deps[i..][1..] == deps[i + 1..];
            Relax(deps[i], d + 1, root, path);
            GrowsOn(old(dist), before, dist, name, stack);
          }
        }
        CloseName(g, dist, name, stack);
      } else {
        assert Grows(dist, dist, stack) by { GrowsRefl(dist, stack); }
      }
    }

    /** The exact longest distance to every name reachable from root, and to no other. */
    method FromRoot(root: Name)
      requires dist == map[] && AcyclicFrom(g, root)
      modifies this`dist
      ensures forall m :: m in dist <==> Reaches(g, root, m)
      ensures forall m | m in dist :: Longest(g, root, m, dist[m])
      ensures Descend(g, root, map[], 0, |g| + 2) == Ended(dist)
    {
      hide Descend;
      hide Longest;
      hide Reaches;
      hide AcyclicFrom;
      assert [] + [root] == [root];
      Relax(root, 0, root, []);
      Exact(g, root, dist);
    }
  }

  lemma Exact(g: Graph, root: Name, dist: Distances)
    requires Witnessed(g, root, dist) && Relaxed(g, dist, []) && root in dist
    ensures forall m :: m in dist <==> Reaches(g, root, m)
    ensures forall m | m in dist :: Longest(g, root, m, dist[m])
  {
    forall m, p | PathFrom(g, root, m, p)
      ensures m in dist && |p| <= dist[m] + 1
    {
      PathBound(g, dist, root, p);
    }
  }

  /** A direct dependency that no longer path leads to as well. */
  ghost predicate Canonical(g: Graph, root: Name, n: Name) {
    Edge(g, root, n) && forall p | PathFrom(g, root, n, p) :: |p| <= 2
  }

  lemma LongestOne(g: Graph, root: Name, n: Name)
    ensures Longest(g, root, n, 1) <==> Canonical(g, root, n)
  {
    if Longest(g, root, n, 1) {
      var p :| PathFrom(g, root, n, p) && |p| == 2;
      FirstStep(g, root, n, p);
    }
    if Canonical(g, root, n) { EdgePath(g, root, n); }
  }

  /** The first step of a longest path is a canonical dependency. */
  lemma LongestStartsCanonical(g: Graph, root: Name, m: Name, p: seq<Name>)
    requires PathFrom(g, root, m, p) && |p| > 1 && forall q | PathFrom(g, root, m, q) :: |q| <= |p|
    ensures Canonical(g, root, p[1]) && Reaches(g, p[1], m)
  {
    FirstStep(g, root, m, p);
    forall q | PathFrom(g, root, p[1], q)
      ensures |q| <= 2
    {
      JoinPaths(g, root, p[1], m, q, p[1..]);
      assert |q + p[1..][1..]| == |q| + |p| - 2;
    }
  }

  /** Transitive reduction: the canonical dependencies still reach everything the direct ones
      reach, and none of them is reachable from another. */
  lemma CanonicalReduces(g: Graph, root: Name)
    requires AcyclicFrom(g, root)
    ensures forall m | m != root && Reaches(g, root, m) ::
              exists c | Canonical(g, root, c) :: Reaches(g, c, m)
    ensures forall c, c' | Canonical(g, root, c) && Canonical(g, root, c') && Reaches(g, c, c') :: c == c'
  {
    forall m | m != root && Reaches(g, root, m)
      ensures exists c | Canonical(g, root, c) :: Reaches(g, c, m)
    {
      var p := LongestPath(g, root, m);
      LongestStartsCanonical(g, root, m, p);
    }
    forall c, c' | Canonical(g, root, c) && Canonical(g, root, c') && Reaches(g, c, c')
      ensures c == c'
    {
      var q :| PathFrom(g, c, c', q);
      EdgePath(g, root, c);
      JoinPaths(g, root, c, c', [root, c], q);
    }
  }

  /** Without cycles there is a longest path to every reachable name. */
  lemma LongestPath(g: Graph, root: Name, m: Name) returns (p: seq<Name>)
    requires AcyclicFrom(g, root) && Reaches(g, root, m)
    ensures PathFrom(g, root, m, p) && forall q | PathFrom(g, root, m, q) :: |q| <= |p|
  {
    p :| PathFrom(g, root, m, p);
    while exists q :: PathFrom(g, root, m, q) && |q| > |p|
      invariant PathFrom(g, root, m, p)
      decreases |g| + 1 - |p|
    {
      var q :| PathFrom(g, root, m, q) && |q| > |p|;
      ShortPath(g, root, m, q);
      p := q;
    }
  }

  lemma ShortPath(g: Graph, root: Name, m: Name, p: seq<Name>)
    requires AcyclicFrom(g, root) && PathFrom(g, root, m, p)
    ensures |p| <= |g| + 1
  {
    PathDistinct(g, root, p);
    var q := p[..|p| - 1];
    forall n | n in q
      ensures n in g.Keys
    {
      var i :| 0 <= i < |q| && q[i] == n;
      assert Edge(g, p[i], p[i + 1]);
    }
    DistinctBound(q, g.Keys);
  }

  /** canonical_deps */
  method CanonicalDeps(g: Graph, root: Name) returns (result: set<Name>)
    requires root in g && AcyclicFrom(g, root)
    ensures forall n :: n in result <==> Canonical(g, root, n)
    ensures result <= set n | n in g[root]
    ensures forall m | m != root && Reaches(g, root, m) :: exists c | c in result :: Reaches(g, c, m)
    ensures forall c, c' | c in result && c' in result && Reaches(g, c, c') :: c == c'
  {
    var t := new DistanceTable(g);
    t.FromRoot(root);
    result := set n | n in t.dist && t.dist[n] == 1;
    forall n
      ensures n in result <==> Canonical(g, root, n)
    {
      LongestOne(g, root, n);
      if Canonical(g, root, n) { EdgePath(g, root, n); }
    }
    CanonicalReduces(g, root);
  }

  /** max_depth */
  method MaxDepth(g: Graph, root: Name) returns (depth: nat)
    requires root in g && AcyclicFrom(g, root)
    ensures exists p :: IsPath(g, p) && p[0] == root && |p| == depth + 1
    ensures forall p | IsPath(g, p) && p[0] == root :: |p| <= depth + 1
  {
    var t := new DistanceTable(g);
    t.FromRoot(root);
    ReachesSelf(g, root);
    var todo := t.dist.Keys - {root};
    depth := t.dist[root];
    ghost var at := root;
    while todo != {}
      invariant todo <= t.dist.Keys && at in t.dist && depth == t.dist[at]
      invariant forall m | m in t.dist && m !in todo :: t.dist[m] <= depth
    {
      var m :| m in todo;
      todo := todo - {m};
      if t.dist[m] > depth { depth, at := t.dist[m], m; }
    }
    assert Longest(g, root, at, depth);
    forall p | IsPath(g, p) && p[0] == root
      ensures |p| <= depth + 1
    {
      var m := p[|p| - 1];
      assert PathFrom(g, root, m, p) && Reaches(g, root, m);
      assert Longest(g, root, m, t.dist[m]);
    }
  }

  lemma GrowsRefl(dist: Distances, stack: seq<Name>)
    ensures Grows(dist, dist, stack)
  {
  }

  lemma StackBound(g: Graph, path: seq<Name>)
    requires IsPath(g, path) && Distinct(path) && path[|path| - 1] in g
    ensures |path| <= |g|
  {
    forall n | n in path
      ensures n in g.Keys
    {
      var i :| 0 <= i < |path| && path[i] == n;
      if i < |path| - 1 { assert Edge(g, path[i], path[i + 1]); }
    }
    DistinctBound(path, g.Keys);
  }
}
