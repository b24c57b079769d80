/**
 The transitive dependency lists of mx: Project.all_deps, Library.all_deps and
 JreLibrary.all_deps append to a shared list, dependencies first.
 */
module MxDeps {
  import opened Graphs

  datatype Entry =
    | Project(deps: seq<Name>, processors: seq<Name>)
    | Library(deps: seq<Name>)
    | JreLibrary

  /** All named projects and libraries. */
  type Suite = map<Name, Entry>

  datatype Flags = Flags(libs: bool, jreLibs: bool, processors: bool)

  /** The child names in the order they are looked at. */
  function Children(s: Suite, f: Flags, n: Name): seq<Name>
    requires n in s
  {
    match s[n]
    case Project(deps, processors) => if f.processors then processors + deps else deps
    case Library(deps) => deps
    case JreLibrary => []
  }

  /** The entries that are listed, and looked into, under the flags. */
  predicate Included(s: Suite, f: Flags, n: Name) {
    n in s && match s[n] case Project(_, _) => true case Library(_) => f.libs case JreLibrary => f.jreLibs
  }

  /** A child that ends the walk: the entry itself, an unknown name, or a library's non-library. */
  predicate FaultyChild(s: Suite, n: Name, c: Name)
    requires n in s
  {
    c == n || c !in s || (s[n].Library? && !s[c].Library?)
  }

  predicate Faulty(s: Suite, f: Flags, n: Name)
    requires n in s
  {
    exists c | c in Children(s, f, n) :: FaultyChild(s, n, c)
  }

  function Listed(s: Suite, f: Flags, names: seq<Name>): (r: seq<Name>)
    ensures forall c :: c in r <==> c in names && Included(s, f, c)
  {
    if names == [] then []
    else (if Included(s, f, names[0]) then [names[0]] else []) + Listed(s, f, names[1..])
  }

  /** The dependency graph the walk follows. */
  function Edges(s: Suite, f: Flags): Graph {
    map n | n in s && Included(s, f, n) :: Listed(s, f, Children(s, f, n))
  }

  /** Nothing reachable from n has a faulty child or lies on a cycle. */
  ghost predicate Sound(s: Suite, f: Flags, n: Name) {
    forall b | Reaches(Edges(s, f), n, b) :: b in s && !Faulty(s, f, b) && !OnCycle(Edges(s, f), b)
  }

  /** An ordered list of sound entries, closed under dependency. */
  ghost predicate Closed(s: Suite, f: Flags, d: seq<Name>) {
    Ordered(Edges(s, f), d) && forall n | n in d :: Included(s, f, n) && !Faulty(s, f, n)
  }

  /** How the walk ends: normally, with the abort on a project cycle, with endless recursion
      through a library cycle, or at a faulty child. */
  datatype Outcome = Done | ProjectCycle | LibraryCycle | BadChild

  /** A project, or a library, that lies on a cycle can be reached. */
  ghost predicate ReachesCycle(s: Suite, f: Flags, n: Name, projects: bool) {
    exists b :: Reaches(Edges(s, f), n, b) && OnCycle(Edges(s, f), b) && b in s && s[b].Project? == projects
  }

  ghost predicate ReachesFault(s: Suite, f: Flags, n: Name) {
    exists b :: Reaches(Edges(s, f), n, b) && b in s && Faulty(s, f, b)
  }

  ghost predicate Explains(s: Suite, f: Flags, n: Name, r: Outcome) {
    match r
    case Done => true
    case ProjectCycle => ReachesCycle(s, f, n, true)
    case LibraryCycle => ReachesCycle(s, f, n, false)
    case BadChild => ReachesFault(s, f, n)
  }

  lemma ExplainsParent(s: Suite, f: Flags, n: Name, c: Name, r: Outcome)
    requires Edge(Edges(s, f), n, c) && Explains(s, f, c, r)
    ensures Explains(s, f, n, r)
  {
    hide Reaches;
    hide OnCycle;
    hide Edges;
    var g := Edges(s, f);
    EdgePath(g, n, c);
    forall b | Reaches(g, c, b)
      ensures Reaches(g, n, b)
    {
      ReachesTransitive(g, n, c, b);
    }
  }

  /** Only what is included can be reached. */
  lemma ReachesIncluded(s: Suite, f: Flags, n: Name, b: Name)
    requires Included(s, f, n) && Reaches(Edges(s, f), n, b)
    ensures Included(s, f, b)
  {
    var p :| PathFrom(Edges(s, f), n, b, p);
    if |p| > 1 { assert Edge(Edges(s, f), p[|p| - 2], p[|p| - 2 + 1]); }
  }

  /** Where only one thing can be wrong, the outcome says exactly whether it is. */
  lemma OutcomeExact(s: Suite, f: Flags, n: Name, r: Outcome)
    requires Included(s, f, n) && Explains(s, f, n, r) && (r.Done? <==> Sound(s, f, n))
    ensures !ReachesFault(s, f, n) && !ReachesCycle(s, f, n, false) ==>
              (r.ProjectCycle? <==> ReachesCycle(s, f, n, true))
    ensures !ReachesFault(s, f, n) && !ReachesCycle(s, f, n, true) ==>
              (r.LibraryCycle? <==> ReachesCycle(s, f, n, false))
    ensures !ReachesCycle(s, f, n, true) && !ReachesCycle(s, f, n, false) ==>
              (r.BadChild? <==> ReachesFault(s, f, n))
  {
    hide Reaches;
    hide OnCycle;
    hide Edges;
    forall b | Reaches(Edges(s, f), n, b)
      ensures b in s
    {
      ReachesIncluded(s, f, n, b);
    }
  }

  /** A name met again on the way down closes a cycle. */
  lemma StackCycle(g: Graph, stack: seq<Name>, n: Name)
    requires IsPath(g, stack + [n]) && n in stack
    ensures OnCycle(g, n) && exists c :: Edge(g, n, c)
  {
    var p := stack + [n];
    var i :| 0 <= i < |stack| && stack[i] == n;
    assert Edge(g, p[i], p[i + 1]);
    Segment(g, p, i, |stack|);
  }

  lemma ChildEdges(s: Suite, f: Flags, n: Name)
    requires Included(s, f, n)
    ensures forall c :: Edge(Edges(s, f), n, c) <==> c in Children(s, f, n) && Included(s, f, c)
  {
  }

  lemma AppendOrdered(s: Suite, f: Flags, d: seq<Name>, n: Name)
    requires Closed(s, f, d) && n !in d && Included(s, f, n) && !Faulty(s, f, n)
    requires forall c | Edge(Edges(s, f), n, c) :: c in d
    ensures Closed(s, f, d + [n])
  {
    var g := Edges(s, f);
    forall i, b | 0 <= i < |d + [n]| && Edge(g, (d + [n])[i], b)
      ensures b in (d + [n])[..i]
    {
      if i < |d| { assert (d + [n])[..i] == d[..i]; } else { assert (d + [n])[..i] == d; }
    }
  }

  // ----- what the suite file says, without the graph -----

  /** c stands in the entry of m, as a dependency or as an annotation processor that is followed. */
  predicate Named(s: Suite, f: Flags, m: Name, c: Name)
    requires m in s
  {
    (!s[m].JreLibrary? && c in s[m].deps) || (s[m].Project? && f.processors && c in s[m].processors)
  }

  /** Libraries and JRE libraries are listed only on request. */
  predicate Wanted(s: Suite, f: Flags, c: Name) {
    c in s && (s[c].Library? ==> f.libs) && (s[c].JreLibrary? ==> f.jreLibs)
  }

  /** Every entry comes after all wanted entries it names, and names only other entries that exist;
      a library names only libraries. */
  ghost predicate NamedFirst(s: Suite, f: Flags, d: seq<Name>) {
    forall i, c | 0 <= i < |d| && d[i] in s && Named(s, f, d[i], c) ::
      && c in s && c != d[i] && (s[d[i]].Library? ==> s[c].Library?)
      && (Wanted(s, f, c) ==> c in d[..i])
  }

  /** m stands in the entry of n or of one of the listed entries. */
  ghost predicate NamedBy(s: Suite, f: Flags, n: Name, d: seq<Name>, m: Name) {
    exists p | p in s && (p == n || p in d) :: p != m && Named(s, f, p, m)
  }

  lemma ChildrenAreNamed(s: Suite, f: Flags, m: Name)
    requires m in s
    ensures forall c :: c in Children(s, f, m) <==> Named(s, f, m, c)
    ensures forall c :: Included(s, f, c) <==> Wanted(s, f, c)
  {
  }

  /** An entry ends the walk exactly when it names itself, an unknown entry or, being a library,
      something that is not one. */
  lemma FaultyNamed(s: Suite, f: Flags, m: Name)
    requires m in s
    ensures Faulty(s, f, m) <==>
            exists c | Named(s, f, m, c) :: c == m || c !in s || (s[m].Library? && !s[c].Library?)
  {
    hide Children;
    hide Named;
    ChildrenAreNamed(s, f, m);
    if c :| Named(s, f, m, c) && (c == m || c !in s || (s[m].Library? && !s[c].Library?)) {
      assert c in Children(s, f, m) && FaultyChild(s, m, c);
    }
  }

  lemma ClosedNamed(s: Suite, f: Flags, d: seq<Name>)
    requires Closed(s, f, d)
    ensures NamedFirst(s, f, d) && forall m | m in d :: Wanted(s, f, m)
  {
    hide Edges;
    hide Included;
    hide Wanted;
    hide Children;
    hide Named;
    forall m | m in d
      ensures m in s && Wanted(s, f, m)
    {
      IncludedKnown(s, f, m);
      ChildrenAreNamed(s, f, m);
    }
    forall i, c | 0 <= i < |d| && d[i] in s && Named(s, f, d[i], c)
      ensures c in s && c != d[i] && (s[d[i]].Library? ==> s[c].Library?) && (Wanted(s, f, c) ==> c in d[..i])
    {
      assert d[i] in d;
      ChildrenAreNamed(s, f, d[i]);
      ChildEdges(s, f, d[i]);
      assert c in Children(s, f, d[i]) && !FaultyChild(s, d[i], c);
      if Wanted(s, f, c) { assert Edge(Edges(s, f), d[i], c); }
    }
  }

  lemma IncludedKnown(s: Suite, f: Flags, m: Name)
    requires Included(s, f, m)
    ensures m in s
  {
  }

  /** What is reached is named on the way. */
  lemma ReachedNamed(s: Suite, f: Flags, n: Name, d: seq<Name>, m: Name)
    requires Included(s, f, n) && Sound(s, f, n) && Reaches(Edges(s, f), n, m) && m != n
    requires forall b | Reaches(Edges(s, f), n, b) :: b == n || b in d
    ensures NamedBy(s, f, n, d, m)
  {
    hide Edges;
    hide Children;
    var g := Edges(s, f);
    var path :| PathFrom(g, n, m, path);
    var k := |path| - 2;
    var p := path[k];
    assert Edge(g, path[k], path[k + 1]);
    Segment(g, path, 0, k);
    assert Reaches(g, n, p);
    ReachesIncluded(s, f, n, p);
    ChildEdges(s, f, p);
    ChildrenAreNamed(s, f, p);
    assert !FaultyChild(s, p, m);
  }

  // ----- the recursion itself -----

  /** How the recursion stands: still running when the given depth is used up, or ended. */
  datatype Walk = Running | Ended(r: Outcome, deps: seq<Name>)

  /** The calls of _all_deps_helper and all_deps, followed down to the given depth.  Only projects
      look for themselves among the dependants. */
  function Follow(s: Suite, f: Flags, n: Name, dependants: seq<Name>, deps: seq<Name>, includeSelf: bool,
                  depth: nat): Walk
    requires n in s
    decreases depth, 0
  {
    if depth == 0 then Running
    else if s[n].Project? && n in dependants then Ended(ProjectCycle, deps)
    else if n in deps then Ended(Done, deps)
    else
      var w := FollowAll(s, f, n, Children(s, f, n), dependants + [n], deps, depth - 1);
      if w.Ended? && w.r.Done? && includeSelf && n !in w.deps then Ended(Done, w.deps + [n]) else w
  }

  function FollowAll(s: Suite, f: Flags, n: Name, children: seq<Name>, dependants: seq<Name>, deps: seq<Name>,
                     depth: nat): Walk
    requires n in s
    decreases depth, 1 + |children|
  {
    if children == [] then Ended(Done, deps)
    else
      var c := children[0];
      if FaultyChild(s, n, c) then Ended(BadChild, deps)
      else if c in deps || !Included(s, f, c) then FollowAll(s, f, n, children[1..], dependants, deps, depth)
      else
        var w := Follow(s, f, c, dependants, deps, true, depth);
        if w.Ended? && w.r.Done? then FollowAll(s, f, n, children[1..], dependants, w.deps, depth) else w
  }

  /** A walk that has ended does not change when it may go deeper. */
  lemma {:induction false} EndedStays(s: Suite, f: Flags, n: Name, dependants: seq<Name>, deps: seq<Name>,
                                      includeSelf: bool, depth: nat, more: nat)
    requires n in s && depth <= more && Follow(s, f, n, dependants, deps, includeSelf, depth).Ended?
    ensures Follow(s, f, n, dependants, deps, includeSelf, more)
         == Follow(s, f, n, dependants, deps, includeSelf, depth)
    decreases depth, 0
  {
    if !(s[n].Project? && n in dependants) && n !in deps {
      EndedStaysAll(s, f, n, Children(s, f, n), dependants + [n], deps, depth - 1, more - 1);
    }
  }

  lemma {:induction false} EndedStaysAll(s: Suite, f: Flags, n: Name, children: seq<Name>, dependants: seq<Name>,
                                         deps: seq<Name>, depth: nat, more: nat)
    requires n in s && depth <= more && FollowAll(s, f, n, children, dependants, deps, depth).Ended?
    ensures FollowAll(s, f, n, children, dependants, deps, more)
         == FollowAll(s, f, n, children, dependants, deps, depth)
    decreases depth, 1 + |children|
  {
    if children != [] && !FaultyChild(s, n, children[0]) {
      var c := children[0];
      if c in deps || !Included(s, f, c) {
        EndedStaysAll(s, f, n, children[1..], dependants, deps, depth, more);
      } else {
        EndedStays(s, f, c, dependants, deps, true, depth, more);
        var w := Follow(s, f, c, dependants, deps, true, depth);
        if w.r.Done? { EndedStaysAll(s, f, n, children[1..], dependants, w.deps, depth, more); }
      }
    }
  }

  lemma {:induction false} FollowAllAppend(s: Suite, f: Flags, n: Name, a: seq<Name>, b: seq<Name>,
                                           dependants: seq<Name>, deps: seq<Name>, depth: nat)
    requires n in s
    ensures FollowAll(s, f, n, a + b, dependants, deps, depth)
         == var w := FollowAll(s, f, n, a, dependants, deps, depth);
            if w.Ended? && w.r.Done? then FollowAll(s, f, n, b, dependants, w.deps, depth) else w
    decreases |a|
  {
    if a == [] {
      assert a + b == b;
    } else {
      assert (a + b)[0] == a[0] && (a + b)[1..] == a[1..] + b;
      hide Follow;
      hide FaultyChild;
      hide Included;
      if !FaultyChild(s, n, a[0]) {
        if a[0] in deps || !Included(s, f, a[0]) {
          FollowAllAppend(s, f, n, a[1..], b, dependants, deps, depth);
        } else {
          var w := Follow(s, f, a[0], dependants, deps, true, depth);
          if w.Ended? { FollowAllAppend(s, f, n, a[1..], b, dependants, w.deps, depth); }
        }
      }
    }
  }

  /** A project's annotation processors, with all they need, are listed before its dependencies. */
  lemma ProcessorsFirst(s: Suite, f: Flags, n: Name, dependants: seq<Name>, deps: seq<Name>, depth: nat)
    requires n in s && s[n].Project? && n !in dependants && n !in deps
    ensures Follow(s, f, n, dependants, deps, false, depth + 1)
         == var path := dependants + [n];
            var w := FollowAll(s, f, n, if f.processors then s[n].processors else [], path, deps, depth);
            if w.Ended? && w.r.Done? then FollowAll(s, f, n, s[n].deps, path, w.deps, depth) else w
  {
    var ps := if f.processors then s[n].processors else [];
    assert Children(s, f, n) == ps + s[n].deps;
    FollowAllAppend(s, f, n, ps, s[n].deps, dependants + [n], deps, depth);
  }

  /** The recursion never ends. */
  ghost predicate Endless(s: Suite, f: Flags, n: Name, dependants: seq<Name>, deps: seq<Name>, includeSelf: bool)
    requires n in s
  {
    forall depth: nat :: Follow(s, f, n, dependants, deps, includeSelf, depth).Running?
  }

  /** The recursion ends, with this outcome and list. */
  ghost predicate Ends(s: Suite, f: Flags, n: Name, dependants: seq<Name>, deps: seq<Name>, includeSelf: bool,
                       r: Outcome, deps': seq<Name>)
    requires n in s
  {
    exists depth: nat :: Follow(s, f, n, dependants, deps, includeSelf, depth) == Ended(r, deps')
  }

  /** What the recursion on n does: it never ends exactly for the outcome LibraryCycle. */
  ghost predicate Behaves(s: Suite, f: Flags, n: Name, dependants: seq<Name>, deps: seq<Name>, includeSelf: bool,
                          r: Outcome, deps': seq<Name>)
    requires n in s
  {
    if r.LibraryCycle? then Endless(s, f, n, dependants, deps, includeSelf)
    else Ends(s, f, n, dependants, deps, includeSelf, r, deps')
  }

  lemma EndsOrEndless(s: Suite, f: Flags, n: Name, dependants: seq<Name>, deps: seq<Name>, includeSelf: bool,
                      r: Outcome, deps': seq<Name>)
    requires n in s && Behaves(s, f, n, dependants, deps, includeSelf, r, deps')
    ensures r.LibraryCycle? <==> Endless(s, f, n, dependants, deps, includeSelf)
  {
    hide Follow;
  }

  lemma BehavesEnded(s: Suite, f: Flags, n: Name, dependants: seq<Name>, deps: seq<Name>, includeSelf: bool,
                     r: Outcome, deps': seq<Name>)
    requires n in s && !r.LibraryCycle? && Ends(s, f, n, dependants, deps, includeSelf, r, deps')
    ensures Behaves(s, f, n, dependants, deps, includeSelf, r, deps')
  {
  }

  lemma DoneEnds(s: Suite, f: Flags, n: Name, dependants: seq<Name>, deps: seq<Name>, includeSelf: bool,
                 deps': seq<Name>)
    requires n in s && Behaves(s, f, n, dependants, deps, includeSelf, Done, deps')
    ensures Ends(s, f, n, dependants, deps, includeSelf, Done, deps')
  {
  }

  // ----- a loop over children is a walk over the rest of them -----

  /** From depth k on, looking at the children as with list a is looking at rest as with list b. */
  ghost predicate ComesTo(s: Suite, f: Flags, n: Name, children: seq<Name>, dependants: seq<Name>, a: seq<Name>,
                          rest: seq<Name>, b: seq<Name>, k: nat)
    requires n in s
  {
    forall depth: nat | depth >= k ::
      FollowAll(s, f, n, children, dependants, a, depth) == FollowAll(s, f, n, rest, dependants, b, depth)
  }

  lemma SkipChild(s: Suite, f: Flags, n: Name, children: seq<Name>, dependants: seq<Name>, a: seq<Name>,
                  rest: seq<Name>, b: seq<Name>, k: nat)
    requires n in s && ComesTo(s, f, n, children, dependants, a, rest, b, k)
    requires rest != [] && !FaultyChild(s, n, rest[0]) && (rest[0] in b || !Included(s, f, rest[0]))
    ensures ComesTo(s, f, n, children, dependants, a, rest[1..], b, k)
  {
  }

  lemma TakeChild(s: Suite, f: Flags, n: Name, children: seq<Name>, dependants: seq<Name>, a: seq<Name>,
                  rest: seq<Name>, b: seq<Name>, k: nat, b': seq<Name>) returns (k': nat)
    requires n in s && ComesTo(s, f, n, children, dependants, a, rest, b, k)
    requires rest != [] && !FaultyChild(s, n, rest[0]) && rest[0] !in b && Included(s, f, rest[0])
    requires Ends(s, f, rest[0], dependants, b, true, Done, b')
    ensures ComesTo(s, f, n, children, dependants, a, rest[1..], b', k')
  {
    var depth: nat :| Follow(s, f, rest[0], dependants, b, true, depth) == Ended(Done, b');
    k' := if depth < k then k else depth;
    forall more: nat | more >= k'
      ensures FollowAll(s, f, n, children, dependants, a, more) == FollowAll(s, f, n, rest[1..], dependants, b', more)
    {
      EndedStays(s, f, rest[0], dependants, b, true, depth, more);
    }
  }

  lemma NoChildLeft(s: Suite, f: Flags, n: Name, dependants: seq<Name>, a: seq<Name>, includeSelf: bool,
                    b: seq<Name>, k: nat)
    requires n in s && n !in dependants && n !in a && n !in b
    requires ComesTo(s, f, n, Children(s, f, n), dependants + [n], a, [], b, k)
    ensures Ends(s, f, n, dependants, a, includeSelf, Done, if includeSelf then b + [n] else b)
  {
    assert FollowAll(s, f, n, Children(s, f, n), dependants + [n], a, k) == Ended(Done, b);
    assert Follow(s, f, n, dependants, a, includeSelf, k + 1).Ended?;
  }

  lemma ChildFaulty(s: Suite, f: Flags, n: Name, dependants: seq<Name>, a: seq<Name>, includeSelf: bool,
                    rest: seq<Name>, b: seq<Name>, k: nat)
    requires n in s && n !in dependants && n !in a && rest != [] && FaultyChild(s, n, rest[0])
    requires ComesTo(s, f, n, Children(s, f, n), dependants + [n], a, rest, b, k)
    ensures Ends(s, f, n, dependants, a, includeSelf, BadChild, b)
  {
    assert FollowAll(s, f, n, Children(s, f, n), dependants + [n], a, k) == Ended(BadChild, b);
    assert Follow(s, f, n, dependants, a, includeSelf, k + 1).Ended?;
  }

  lemma ChildStops(s: Suite, f: Flags, n: Name, dependants: seq<Name>, a: seq<Name>, includeSelf: bool,
                   rest: seq<Name>, b: seq<Name>, k: nat, r: Outcome, b': seq<Name>)
    requires n in s && n !in dependants && n !in a && !r.Done?
    requires rest != [] && !FaultyChild(s, n, rest[0]) && rest[0] !in b && Included(s, f, rest[0])
    requires ComesTo(s, f, n, Children(s, f, n), dependants + [n], a, rest, b, k)
    requires Behaves(s, f, rest[0], dependants + [n], b, true, r, b')
    ensures Behaves(s, f, n, dependants, a, includeSelf, r, b')
  {
    var children, path := Children(s, f, n), dependants + [n];
    if r.LibraryCycle? {
      forall depth: nat
        ensures Follow(s, f, n, dependants, a, includeSelf, depth).Running?
      {
        var more := depth + k;
        assert Follow(s, f, rest[0], path, b, true, more).Running?;
        assert FollowAll(s, f, n, children, path, a, more).Running?;
        if depth > 0 && FollowAll(s, f, n, children, path, a, depth - 1).Ended? {
          EndedStaysAll(s, f, n, children, path, a, depth - 1, more);
        }
      }
    } else {
      var depth: nat :| Follow(s, f, rest[0], path, b, true, depth) == Ended(r, b');
      var more := depth + k;
      EndedStays(s, f, rest[0], path, b, true, depth, more);
      assert FollowAll(s, f, n, children, path, a, more) == Ended(r, b');
      assert Follow(s, f, n, dependants, a, includeSelf, more + 1) == Ended(r, b');
    }
  }

  // ----- a cycle of libraries -----

  /** b is the first child of a that is not settled by the list. */
  ghost predicate Opens(s: Suite, f: Flags, deps: seq<Name>, a: Name, b: Name)
    requires a in s
  {
    exists i | 0 <= i < |Children(s, f, a)| :: OpensAt(s, f, deps, a, b, i)
  }

  ghost predicate OpensAt(s: Suite, f: Flags, deps: seq<Name>, a: Name, b: Name, i: nat)
    requires a in s && i < |Children(s, f, a)|
  {
    var cs := Children(s, f, a);
    && cs[i] == b && !FaultyChild(s, a, b) && Included(s, f, b)
    && forall j | 0 <= j < i :: !FaultyChild(s, a, cs[j]) && (cs[j] in deps || !Included(s, f, cs[j]))
  }

  /** Every entry being worked on waits for the next one. */
  ghost predicate Chain(s: Suite, f: Flags, deps: seq<Name>, p: seq<Name>) {
    forall i | 0 <= i < |p| - 1 :: p[i] in s && Opens(s, f, deps, p[i], p[i + 1])
  }

  lemma ChainGrows(s: Suite, f: Flags, deps: seq<Name>, more: seq<Name>, p: seq<Name>)
    requires Chain(s, f, deps, p) && deps <= more
    ensures Chain(s, f, more, p)
  {
    forall i | 0 <= i < |p| - 1
      ensures p[i] in s && Opens(s, f, more, p[i], p[i + 1])
    {
      assert Opens(s, f, deps, p[i], p[i + 1]);
      var k :| 0 <= k < |Children(s, f, p[i])| && OpensAt(s, f, deps, p[i], p[i + 1], k);
      assert OpensAt(s, f, more, p[i], p[i + 1], k);
    }
  }

  lemma ChainExtends(s: Suite, f: Flags, deps: seq<Name>, p: seq<Name>, c: Name)
    requires Chain(s, f, deps, p) && (p != [] ==> p[|p| - 1] in s && Opens(s, f, deps, p[|p| - 1], c))
    ensures Chain(s, f, deps, p + [c])
  {
    var q := p + [c];
    forall i | 0 <= i < |q| - 1
      ensures q[i] in s && Opens(s, f, deps, q[i], q[i + 1])
    {
      assert q[i] == p[i] && q[i + 1] == if i + 1 < |p| then p[i + 1] else c;
    }
  }

  /** The loop over the children of a does not get past the first open one. */
  lemma {:induction false} StuckAtOpen(s: Suite, f: Flags, deps: seq<Name>, a: Name, i: nat, m: nat,
                                       dependants: seq<Name>, depth: nat)
    requires a in s && m <= i < |Children(s, f, a)|
    requires var b := Children(s, f, a)[i];
             OpensAt(s, f, deps, a, b, i) && b !in deps && Follow(s, f, b, dependants, deps, true, depth).Running?
    ensures FollowAll(s, f, a, Children(s, f, a)[m..], dependants, deps, depth).Running?
    decreases i - m
  {
    var rest := Children(s, f, a)[m..];
    assert rest[0] == Children(s, f, a)[m] && rest[1..] == Children(s, f, a)[m + 1..];
    if m < i { StuckAtOpen(s, f, deps, a, i, m + 1, dependants, depth); }
  }

  /** Libraries do not look among the dependants, so a cycle of them is followed for ever. */
  lemma {:induction false} LibraryRuns(s: Suite, f: Flags, deps: seq<Name>, p: seq<Name>, j: nat, i: nat,
                                       dependants: seq<Name>, includeSelf: bool, depth: nat)
    requires Chain(s, f, deps, p) && j <= i < |p| - 1 && p[j] == p[|p| - 1]
    requires (forall k | 0 <= k < |p| - 1 :: p[k] !in deps) && p[i] in s && s[p[i]].Library?
    requires p[j] in s && s[p[j]].Library?
    ensures Follow(s, f, p[i], dependants, deps, includeSelf, depth).Running?
    decreases depth
  {
    if depth > 0 {
      var a, b := p[i], p[i + 1];
      assert Opens(s, f, deps, a, b);
      var k :| 0 <= k < |Children(s, f, a)| && OpensAt(s, f, deps, a, b, k);
      if i + 1 == |p| - 1 {
        LibraryRuns(s, f, deps, p, j, j, dependants + [a], true, depth - 1);
      } else {
        LibraryRuns(s, f, deps, p, j, i + 1, dependants + [a], true, depth - 1);
      }
      StuckAtOpen(s, f, deps, a, k, 0, dependants + [a], depth - 1);
      assert Children(s, f, a)[0..] == Children(s, f, a);
    }
  }

  lemma LibraryCycleEndless(s: Suite, f: Flags, deps: seq<Name>, stack: seq<Name>, n: Name, includeSelf: bool)
    requires Chain(s, f, deps, stack + [n]) && n in stack && n in s && s[n].Library?
    requires forall x | x in stack :: x !in deps
    ensures Endless(s, f, n, stack, deps, includeSelf)
  {
    var p := stack + [n];
    var j :| 0 <= j < |stack| && stack[j] == n;
    forall depth: nat
      ensures Follow(s, f, n, stack, deps, includeSelf, depth).Running?
    {
      LibraryRuns(s, f, deps, p, j, j, stack, includeSelf, depth);
    }
  }

  /** Two libraries that name each other: Library.all_deps does not come back. */
  lemma TwoLibraries(f: Flags)
    requires f.libs
    ensures Endless(map["A" := Library(["B"]), "B" := Library(["A"])], f, "A", [], [], true)
  {
    var s: Suite := map["A" := Library(["B"]), "B" := Library(["A"])];
    var p := ["A", "B", "A"];
    assert OpensAt(s, f, [], "A", "B", 0) && OpensAt(s, f, [], "B", "A", 0);
    forall depth: nat
      ensures Follow(s, f, "A", [], [], true, depth).Running?
    {
      LibraryRuns(s, f, [], p, 0, 0, [], true, depth);
    }
  }

  // ----- the list -----

  class DepList {
    const s: Suite
    const f: Flags
    var deps: seq<Name>

    constructor (s: Suite, f: Flags)
      ensures this.s == s && this.f == f && deps == [] && Closed(s, f, deps)
    {
      this.s, this.f, this.deps := s, f, [];
    }

    /** _all_deps_helper for projects and all_deps for libraries; stack is the chain of entries
        being worked on, which for projects is the `dependants` argument. */
    method Visit(n: Name, stack: seq<Name>, includeSelf: bool) returns (r: Outcome)
      requires Included(s, f, n) && Closed(s, f, deps)
      requires Distinct(stack) && IsPath(Edges(s, f), stack + [n]) && Chain(s, f, deps, stack + [n])
      requires forall x | x in stack :: x in s && x !in deps
      modifies this`deps
      ensures Explains(s, f, n, r) && Behaves(s, f, n, stack, old(deps), includeSelf, r, deps)
      ensures r.Done? ==> Closed(s, f, deps) && old(deps) <= deps
      ensures r.Done? ==> forall m | m in deps && m !in old(deps) :: Reaches(Edges(s, f), n, m)
      ensures r.Done? ==> forall x | x in stack :: x !in deps
      ensures r.Done? && n !in old(deps) ==>
                !Faulty(s, f, n) && (n in deps <==> includeSelf) && forall c | Edge(Edges(s, f), n, c) :: c in deps
      decreases |s| - |stack|
    {
      hide Edges;
      hide Reaches;
      hide OnCycle;
      hide Ordered;
      hide FaultyChild;
      ghost var g := Edges(s, f);
      ReachesSelf(g, n);
      ChildEdges(s, f, n);
      if n in stack {
        StackCycle(g, stack, n);
        if s[n].Library? { LibraryCycleEndless(s, f, deps, stack, n, includeSelf); }
        assert Follow(s, f, n, stack, deps, includeSelf, 1).Ended? || s[n].Library?;
        return if s[n].Project? then ProjectCycle else LibraryCycle;
      }
      assert n in deps ==> Follow(s, f, n, stack, deps, includeSelf, 1) == Ended(Done, deps);
      if n in deps { return Done; }
      hide Follow;
      hide FollowAll;
      hide Behaves;
      var path := stack + [n];
      assert |stack| < |s| by { DistinctBound(path, s.Keys); }
      var children := Children(s, f, n);
      ghost var k := 0;
      assert children[0..] == children;
      for i := 0 to |children|
        invariant Closed(s, f, deps) && old(deps) <= deps
        invariant forall k | 0 <= k < i :: !FaultyChild(s, n, children[k])
        invariant forall k | 0 <= k < i && Included(s, f, children[k]) :: children[k] in deps
        invariant forall m | m in deps && m !in old(deps) :: Reaches(g, n, m)
        invariant forall x | x in path :: x !in deps
        invariant Chain(s, f, deps, path)
        invariant ComesTo(s, f, n, children, path, old(deps), children[i..], deps, k)
      {
        var c := children[i];
        assert children[i..][0] == c && children[i..][1..] == children[i + 1..];
        if FaultyChild(s, n, c) {
          ChildFaulty(s, f, n, stack, old(deps), includeSelf, children[i..], deps, k);
          BehavesEnded(s, f, n, stack, old(deps), includeSelf, BadChild, deps);
          return BadChild;
        }
        if c !in deps && Included(s, f, c) {
          ghost var before := deps;
          assert Edge(g, n, c);
          EdgePath(g, n, c);
          assert OpensAt(s, f, deps, n, c, i);
          ChainExtends(s, f, deps, path, c);
          r := Visit(c, path, true);
          if !r.Done? {
            ExplainsParent(s, f, n, c, r);
            ChildStops(s, f, n, stack, old(deps), includeSelf, children[i..], before, k, r, deps);
            return;
          }
          ChainGrows(s, f, before, deps, path);
          DoneEnds(s, f, c, path, before, true, deps);
          k := TakeChild(s, f, n, children, path, old(deps), children[i..], before, k, deps);
          forall m | m in deps && m !in before
            ensures Reaches(g, n, m)
          {
            ReachesTransitive(g, n, c, m);
          }
        } else {
          SkipChild(s, f, n, children, path, old(deps), children[i..], deps, k);
        }
      }
      assert children[|children|..] == [];
      NoChildLeft(s, f, n, stack, old(deps), includeSelf, deps, k);
      if includeSelf {
        AppendOrdered(s, f, deps, n);
        deps := deps + [n];
      }
      BehavesEnded(s, f, n, stack, old(deps), includeSelf, Done, deps);
      return Done;
    }

    /** all_deps: succeeds exactly when nothing reachable is faulty or on a cycle, and then extends
        the list to a duplicate-free one, dependencies first, by exactly what is reachable. */
    method AllDeps(n: Name, includeSelf: bool) returns (r: Outcome)
      requires n in s && Closed(s, f, deps)
      modifies this`deps
      ensures !Included(s, f, n) ==> r.Done? && deps == old(deps)
      ensures Included(s, f, n) ==> (r.Done? <==> Sound(s, f, n))
      ensures Included(s, f, n) ==> (r.LibraryCycle? <==> Endless(s, f, n, [], old(deps), includeSelf))
      ensures Included(s, f, n) && !r.LibraryCycle? ==> Ends(s, f, n, [], old(deps), includeSelf, r, deps)
      ensures Included(s, f, n) && !ReachesFault(s, f, n) && !ReachesCycle(s, f, n, false) ==>
                (r.ProjectCycle? <==> ReachesCycle(s, f, n, true))
      ensures Included(s, f, n) && !ReachesFault(s, f, n) && !ReachesCycle(s, f, n, true) ==>
                (r.LibraryCycle? <==> ReachesCycle(s, f, n, false))
      ensures Included(s, f, n) && !ReachesCycle(s, f, n, true) && !ReachesCycle(s, f, n, false) ==>
                (r.BadChild? <==> ReachesFault(s, f, n))
      ensures Explains(s, f, n, r)
      ensures r.Done? ==> Closed(s, f, deps) && old(deps) <= deps
      ensures r.Done? && Included(s, f, n) ==> forall m :: m in deps <==>
                m in old(deps) || (Reaches(Edges(s, f), n, m) && (m != n || includeSelf))
      ensures r.Done? ==> NamedFirst(s, f, deps) && forall m | m in deps :: Wanted(s, f, m)
      ensures r.Done? ==> forall m | m in deps && m !in old(deps) && m != n :: NamedBy(s, f, n, deps, m)
    {
      hide Edges;
      hide Reaches;
      hide OnCycle;
      hide Ordered;
      if !Included(s, f, n) {
        ClosedNamed(s, f, deps);
        return Done;
      }
      assert [] + [n] == [n];
      r := Visit(n, [], includeSelf);
      EndsOrEndless(s, f, n, [], old(deps), includeSelf, r, deps);
      hide Follow;
      if r.Done? {
        ListedAreSound(s, f, n, old(deps), deps);
        AddedNamed(s, f, n, old(deps), deps);
      } else {
        ExplainedUnsound(s, f, n, r);
      }
      OutcomeExact(s, f, n, r);
    }

    /** sorted_project_deps: one list for several projects. */
    method SortedProjectDeps(projects: seq<Name>) returns (r: Outcome)
      requires deps == [] && forall p | p in projects :: p in s && s[p].Project?
      modifies this`deps
      ensures r.Done? <==> forall p | p in projects :: Sound(s, f, p)
      ensures r.Done? ==> Closed(s, f, deps)
      ensures r.Done? ==> forall m :: m in deps <==> exists p | p in projects :: Reaches(Edges(s, f), p, m)
      ensures r.Done? ==> NamedFirst(s, f, deps) && forall m | m in deps :: Wanted(s, f, m)
    {
      hide Edges;
      hide Reaches;
      hide Sound;
      hide NamedFirst;
      hide NamedBy;
      hide Wanted;
      hide Endless;
      hide Ends;
      hide ReachesCycle;
      hide ReachesFault;
      hide Explains;
      ClosedNamed(s, f, []);
      r := Done;
      for i := 0 to |projects|
        invariant r.Done? && Closed(s, f, deps)
        invariant NamedFirst(s, f, deps) && forall m | m in deps :: Wanted(s, f, m)
        invariant forall p | p in projects[..i] :: Sound(s, f, p)
        invariant forall m :: m in deps <==> exists p | p in projects[..i] :: Reaches(Edges(s, f), p, m)
      {
        r := AllDeps(projects[i], true);
        if !r.Done? { return; }
        assert projects[..i + 1] == projects[..i] + [projects[i]];
      }
      assert projects[..|projects|] == projects;
    }
  }

  lemma AddedNamed(s: Suite, f: Flags, n: Name, before: seq<Name>, d: seq<Name>)
    requires Included(s, f, n) && Sound(s, f, n) && Closed(s, f, d)
    requires forall m | Reaches(Edges(s, f), n, m) :: m == n || m in d
    requires forall m | m in d && m !in before :: Reaches(Edges(s, f), n, m)
    ensures NamedFirst(s, f, d) && forall m | m in d :: Wanted(s, f, m)
    ensures forall m | m in d && m !in before && m != n :: NamedBy(s, f, n, d, m)
  {
    hide Reaches;
    hide Edges;
    hide Sound;
    hide NamedBy;
    ClosedNamed(s, f, d);
    forall m | m in d && m !in before && m != n
      ensures NamedBy(s, f, n, d, m)
    {
      ReachedNamed(s, f, n, d, m);
    }
  }

  lemma ExplainedUnsound(s: Suite, f: Flags, n: Name, r: Outcome)
    requires Explains(s, f, n, r) && !r.Done?
    ensures !Sound(s, f, n)
  {
  }

  /** With all children of n in a closed list, everything reachable from n is sound, and only n
      itself can be missing from the list. */
  lemma ListedAreSound(s: Suite, f: Flags, n: Name, before: seq<Name>, d: seq<Name>)
    requires Included(s, f, n) && Closed(s, f, before) && Closed(s, f, d) && before <= d
    requires n !in before ==> !Faulty(s, f, n) && forall c | Edge(Edges(s, f), n, c) :: c in d
    ensures Sound(s, f, n)
    ensures forall m | Reaches(Edges(s, f), n, m) :: m == n || m in d
  {
    var g := Edges(s, f);
    if n in d {
      OrderedClosed(g, d, n);
    } else {
      forall b, p | PathFrom(g, n, b, p)
        ensures (|p| == 1 && b == n) || (b in d && !OnCycle(g, b))
      {
        if |p| > 1 {
          FirstStep(g, n, b, p);
          OrderedClosed(g, d, p[1]);
          assert Reaches(g, p[1], b);
        }
      }
      forall p | PathFrom(g, n, n, p) && |p| > 1
        ensures false
      {
      }
    }
  }
}
