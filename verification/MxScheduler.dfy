/**
 The parallel compile scheduler of `mx build` as a state machine.  The main thread runs the
 scheduling loop in steps that look at no more than one process each; between any two of them
 a running process may exit.
 */
module MxScheduler {
  import opened Graphs

  datatype Proc = NotStarted | Running | Exited(code: int)

  /** Where the main thread is.  OuterTest, Decide, Pass and Resort are points of the scheduling
      loop; Check and CheckDead are inside checkTasks, JoinFailed and FinalJoin inside joinTasks,
      Deps inside depsDone. */
  datatype Pc =
    | OuterTest
    | Check(i: nat, alive: seq<Name>)
    | CheckDead(i: nat, alive: seq<Name>)
    | JoinFailed(i: nat, bad: seq<Name>)
    | Decide
    | Pass(i: nat)
    | Deps(i: nat, j: nat)
    | Resort
    | FinalJoin(i: nat, bad: seq<Name>)
    | Finished

  /** The tasks with the tasks each waits for, an order that shows there is no cycle, and the
      number of processors. */
  datatype Config = Config(deps: Graph, order: seq<Name>, cpus: nat)

  type Procs = map<Name, Proc>

  datatype State = State(procs: Procs, worklist: seq<Name>, active: seq<Name>, failed: seq<Name>, pc: Pc)

  ghost predicate ValidConfig(c: Config) {
    && c.cpus > 0
    && Ordered(c.deps, c.order)
    && c.deps.Keys == set t | t in c.order
  }

  ghost predicate Permutes(a: seq<Name>, b: seq<Name>) {
    multiset(a) == multiset(b)
  }

  ghost predicate Init(c: Config, s: State) {
    && s.procs == (map t | t in c.deps :: NotStarted)
    && Permutes(s.worklist, c.order)
    && s.active == [] && s.failed == [] && s.pc == OuterTest
  }

  predicate HasExited(p: Procs, t: Name) { t in p && p[t].Exited? }
  predicate HasFailed(p: Procs, t: Name) { HasExited(p, t) && p[t].code != 0 }
  predicate Succeeded(p: Procs, t: Name) { HasExited(p, t) && p[t].code == 0 }
  predicate IsRunning(p: Procs, t: Name) { t in p && p[t].Running? }
  predicate HasStarted(p: Procs, t: Name) { t in p && !p[t].NotStarted? }

  /** join() blocks while the process runs. */
  predicate MainBlocked(s: State) {
    match s.pc
    case JoinFailed(i, _) => i < |s.active| && !HasExited(s.procs, s.active[i])
    case FinalJoin(i, _) => i < |s.active| && !HasExited(s.procs, s.active[i])
    case Finished => true
    case _ => false
  }

  function Collect(p: Procs, t: Name, bad: seq<Name>): seq<Name> {
    if HasFailed(p, t) then bad + [t] else bad
  }

  /** After looking at worklist[i]: leave the pass when all processors are busy. */
  function AfterTask(c: Config, s: State, i: nat): State {
    s.(pc := if |s.active| == c.cpus then Resort else Pass(i + 1))
  }

  function Start(s: State, i: nat): State
    requires i < |s.worklist|
  {
    var t := s.worklist[i];
    s.(worklist := s.worklist[..i] + s.worklist[i + 1..], procs := s.procs[t := Running], active := s.active + [t])
  }

  /** One step of the main thread; resorted is the order sortWorklist comes up with. */
  function Main(c: Config, s: State, resorted: seq<Name>): State
    requires !MainBlocked(s)
  {
    match s.pc
    case OuterTest => s.(pc := if s.worklist == [] then FinalJoin(0, []) else Check(0, []))
    case Check(i, alive) =>
      if i >= |s.active| then s.(active := alive, failed := [], pc := Decide)
      else if IsRunning(s.procs, s.active[i]) then s.(pc := Check(i + 1, alive + [s.active[i]]))
      else s.(pc := CheckDead(i, alive))
    case CheckDead(i, alive) =>
      if i < |s.active| && HasFailed(s.procs, s.active[i]) then s.(pc := JoinFailed(0, []))
      else s.(pc := Check(i + 1, alive))
    case JoinFailed(i, bad) =>
      if i >= |s.active| then s.(active := [], failed := bad, pc := Decide)
      else s.(pc := JoinFailed(i + 1, Collect(s.procs, s.active[i], bad)))
    case Decide =>
      if s.failed != [] then s.(pc := FinalJoin(0, []))
      else if |s.active| == c.cpus then s.(pc := Check(0, []))
      else s.(pc := Pass(0))
    case Pass(i) => s.(pc := if i >= |s.worklist| then Resort else Deps(i, 0))
    case Deps(i, j) =>
      if i >= |s.worklist| || s.worklist[i] !in c.deps then s.(pc := Resort)
      else if j >= |c.deps[s.worklist[i]]| then AfterTask(c, Start(s, i), i)
      else if HasExited(s.procs, c.deps[s.worklist[i]][j]) then s.(pc := Deps(i, j + 1))
      else AfterTask(c, s, i)
    case Resort => s.(worklist := resorted, pc := OuterTest)
    case FinalJoin(i, bad) =>
      if i >= |s.active| then s.(failed := s.failed + bad, pc := Finished)
      else s.(pc := FinalJoin(i + 1, Collect(s.procs, s.active[i], bad)))
  }

  ghost predicate MainStep(c: Config, s: State, s': State) {
    !MainBlocked(s) && exists resorted :: Permutes(resorted, s.worklist) && s' == Main(c, s, resorted)
  }

  /** A running process exits, at any time and with any code. */
  ghost predicate ExitStep(s: State, s': State) {
    exists t, code :: IsRunning(s.procs, t) && s' == s.(procs := s.procs[t := Exited(code)])
  }

  ghost predicate Next(c: Config, s: State, s': State) {
    MainStep(c, s, s') || ExitStep(s, s')
  }

  ghost predicate IsRun(c: Config, run: seq<State>) {
    |run| > 0 && Init(c, run[0]) && forall k | 0 <= k < |run| - 1 :: Next(c, run[k], run[k + 1])
  }

  // ----- the invariant -----

  predicate Ready(c: Config, p: Procs, t: Name) {
    t in c.deps && forall d | d in c.deps[t] :: HasExited(p, d)
  }

  ghost predicate Base(c: Config, s: State) {
    && s.procs.Keys == c.deps.Keys
    && Distinct(s.worklist)
    && (forall t :: t in s.worklist <==> t in s.procs && s.procs[t].NotStarted?)
    && Distinct(s.active)
    && (forall t | t in s.active :: HasStarted(s.procs, t))
    && |s.active| <= c.cpus
    && (forall t | IsRunning(s.procs, t) :: t in s.active)
    && (forall t | HasStarted(s.procs, t) :: Ready(c, s.procs, t))
  }

  /** Whatever was started and is no longer tracked exited with code 0. */
  ghost predicate Swept(s: State) {
    s.failed == [] && forall t | HasStarted(s.procs, t) && t !in s.active :: Succeeded(s.procs, t)
  }

  /** The failures are exactly the listed tasks and nothing runs any more. */
  ghost predicate Settled(s: State) {
    (forall t :: t in s.failed <==> HasFailed(s.procs, t)) && forall t | HasStarted(s.procs, t) :: HasExited(s.procs, t)
  }

  /** Nothing startable was passed over as long as nothing is tracked. */
  ghost predicate Passing(c: Config, s: State, i: nat) {
    && Swept(s)
    && |s.active| < c.cpus
    && (s.active == [] ==>
          s.worklist != [] && forall k | 0 <= k < i && k < |s.worklist| :: !Ready(c, s.procs, s.worklist[k]))
  }

  /** The first i tracked tasks: either collected as alive or exited with code 0. */
  ghost predicate Checked(s: State, i: nat, alive: seq<Name>) {
    && Swept(s)
    && i <= |s.active|
    && Distinct(alive)
    && |alive| <= i
    && (forall t | t in alive :: t in s.active[..i])
    && forall t | t in s.active[..i] && t !in alive :: Succeeded(s.procs, t)
  }

  /** The first i tracked tasks have been joined and those that failed collected. */
  ghost predicate Joined(s: State, i: nat, bad: seq<Name>) {
    && i <= |s.active|
    && (forall t | t in s.active[..i] :: HasExited(s.procs, t))
    && forall t :: t in bad <==> t in s.active[..i] && HasFailed(s.procs, t)
  }

  ghost predicate AtPc(c: Config, s: State) {
    match s.pc
    case OuterTest => Swept(s)
    case Check(i, alive) => Checked(s, i, alive) && s.worklist != []
    case CheckDead(i, alive) =>
      Checked(s, i, alive) && s.worklist != [] && i < |s.active| && HasExited(s.procs, s.active[i])
    case JoinFailed(i, bad) => Swept(s) && Joined(s, i, bad) && exists t :: t in s.active && HasFailed(s.procs, t)
    case Decide => (Swept(s) && s.worklist != []) || (s.failed != [] && s.active == [] && Settled(s))
    case Pass(i) => Passing(c, s, i)
    case Deps(i, j) =>
      && Passing(c, s, i) && i < |s.worklist| && s.worklist[i] in c.deps && j <= |c.deps[s.worklist[i]]|
      && forall k | 0 <= k < j :: HasExited(s.procs, c.deps[s.worklist[i]][k])
    case Resort => Swept(s) && s.active != []
    case FinalJoin(i, bad) =>
      if s.failed != [] then s.active == [] && bad == [] && Settled(s)
      else Swept(s) && s.worklist == [] && Joined(s, i, bad)
    case Finished => Settled(s) && (s.failed == [] ==> s.worklist == [])
  }

  ghost predicate Inv(c: Config, s: State) {
    Base(c, s) && AtPc(c, s)
  }

  lemma InitInv(c: Config, s: State)
    requires ValidConfig(c) && Init(c, s)
    ensures Inv(c, s)
  {
    PermutationDistinct(s.worklist, c.order);
    hide Permutes;
    hide Ordered;
  }

  lemma PermutationDistinct(a: seq<Name>, b: seq<Name>)
    requires Permutes(a, b) && Distinct(b)
    ensures Distinct(a) && |a| == |b| && forall t :: t in a <==> t in b
  {
    assert |multiset(a)| == |multiset(b)|;
    assert forall t :: t in a <==> t in multiset(a);
    assert forall t :: t in b <==> t in multiset(b);
    forall t
      ensures multiset(b)[t] <= 1
    {
      DistinctCounts(b, t);
    }
    CountsDistinct(a);
  }

  lemma {:induction false} DistinctCounts(a: seq<Name>, t: Name)
    requires Distinct(a)
    ensures multiset(a)[t] <= 1
  {
    if a != [] {
      var b := a[..|a| - 1];
      assert a == b + [a[|a| - 1]];
      DistinctCounts(b, t);
      if t == a[|a| - 1] { assert t !in b && t !in multiset(b); }
    }
  }

  lemma {:induction false} CountsDistinct(a: seq<Name>)
    requires forall t :: multiset(a)[t] <= 1
    ensures Distinct(a)
  {
    if a != [] {
      var b := a[..|a| - 1];
      assert a == b + [a[|a| - 1]];
      assert multiset(a) == multiset(b) + multiset{a[|a| - 1]};
      assert forall t :: multiset(b)[t] <= multiset(a)[t];
      CountsDistinct(b);
      assert a[|a| - 1] !in multiset(b);
    }
  }

  /** Exits only turn running tracked tasks into exited ones. */
  lemma ExitKeepsInv(c: Config, s: State, t: Name, code: int)
    requires Inv(c, s) && IsRunning(s.procs, t)
    ensures Inv(c, s.(procs := s.procs[t := Exited(code)]))
  {
    var s' := s.(procs := s.procs[t := Exited(code)]);
    assert t in s.active;
    ExitKeepsBase(c, s, t, code);
    ExitKeepsPc(c, s, t, code);
  }

  lemma ExitKeepsBase(c: Config, s: State, t: Name, code: int)
    requires Base(c, s) && IsRunning(s.procs, t)
    ensures Base(c, s.(procs := s.procs[t := Exited(code)]))
  {
    var s' := s.(procs := s.procs[t := Exited(code)]);
    forall u | HasStarted(s'.procs, u)
      ensures Ready(c, s'.procs, u)
    {
      assert Ready(c, s.procs, u);
    }
  }

  lemma ExitKeepsPc(c: Config, s: State, t: Name, code: int)
    requires AtPc(c, s) && IsRunning(s.procs, t) && t in s.active
    ensures AtPc(c, s.(procs := s.procs[t := Exited(code)]))
  {
    hide Ready;
    var s' := s.(procs := s.procs[t := Exited(code)]);
    assert forall u :: HasExited(s.procs, u) ==> s'.procs[u] == s.procs[u];
    assert forall u :: HasFailed(s.procs, u) ==> HasFailed(s'.procs, u);
    assert forall u | u != t :: HasFailed(s'.procs, u) ==> HasFailed(s.procs, u);
  }

  /** Without running processes some waiting task can start, since waiting is acyclic. */
  lemma SomeReady(c: Config, s: State) returns (t: Name)
    requires ValidConfig(c) && Base(c, s) && s.worklist != [] && forall u :: !IsRunning(s.procs, u)
    ensures t in s.worklist && Ready(c, s.procs, t)
  {
    t := s.worklist[0];
    assert t in s.worklist;
    var i :| 0 <= i < |c.order| && c.order[i] == t;
    while !Ready(c, s.procs, t)
      invariant 0 <= i < |c.order| && c.order[i] == t && t in s.worklist
      decreases i
    {
      var d :| d in c.deps[t] && !HasExited(s.procs, d);
      assert Edge(c.deps, t, d);
      assert d in c.order[..i] && d in c.order;
      assert d in s.procs && !IsRunning(s.procs, d);
      var k :| 0 <= k < i && c.order[k] == d;
      i, t := k, d;
    }
  }

  lemma CheckKeeps(c: Config, s: State)
    requires Inv(c, s) && s.pc.Check?
    ensures Inv(c, Main(c, s, []))
  {
    hide Ready;
    var i, alive := s.pc.i, s.pc.alive;
    if i >= |s.active| {
      assert s.active[..i] == s.active;
    } else {
      assert s.active[..i + 1] == s.active[..i] + [s.active[i]];
      assert s.active[i] in s.active && s.active[i] !in s.active[..i];
    }
  }

  lemma CheckDeadKeeps(c: Config, s: State)
    requires Inv(c, s) && s.pc.CheckDead?
    ensures Inv(c, Main(c, s, []))
  {
    hide Ready;
    var i := s.pc.i;
    assert s.active[..i + 1] == s.active[..i] + [s.active[i]];
    assert s.active[i] in s.active;
  }

  lemma CollectKeeps(s: State, i: nat, bad: seq<Name>)
    requires Distinct(s.active) && i < |s.active| && Joined(s, i, bad) && HasExited(s.procs, s.active[i])
    ensures Joined(s, i + 1, Collect(s.procs, s.active[i], bad))
  {
    assert s.active[..i + 1] == s.active[..i] + [s.active[i]];
  }

  lemma JoinKeeps(c: Config, s: State)
    requires Inv(c, s) && (s.pc.JoinFailed? || s.pc.FinalJoin?) && !MainBlocked(s)
    ensures Inv(c, Main(c, s, []))
  {
    hide Ready;
    var i, bad := s.pc.i, s.pc.bad;
    if i < |s.active| {
      CollectKeeps(s, i, bad);
    } else {
      assert s.pc.JoinFailed? ==> s.active[..i] == s.active;
      assert s.pc.FinalJoin? && s.failed == [] ==> s.active[..i] == s.active;
    }
  }

  lemma PassKeeps(c: Config, s: State)
    requires ValidConfig(c) && Inv(c, s) && s.pc.Pass?
    ensures Inv(c, Main(c, s, []))
  {
    if s.pc.i >= |s.worklist| {
      if s.active == [] {
        var t := SomeReady(c, s);
      }
    } else {
      assert s.worklist[s.pc.i] in s.worklist;
    }
  }

  lemma RemoveDistinct(a: seq<Name>, i: nat)
    requires Distinct(a) && i < |a|
    ensures var b := a[..i] + a[i + 1..];
            Distinct(b) && forall t :: t in b <==> t in a && t != a[i]
  {
    var b := a[..i] + a[i + 1..];
    assert a == a[..i] + [a[i]] + a[i + 1..];
    forall j | 0 <= j < |b|
      ensures b[j] == if j < i then a[j] else a[j + 1]
    {
    }
  }

  lemma StartKeeps(c: Config, s: State, i: nat)
    requires Base(c, s) && i < |s.worklist| && Ready(c, s.procs, s.worklist[i]) && |s.active| < c.cpus
    ensures Base(c, Start(s, i)) && (Swept(s) ==> Swept(Start(s, i)))
  {
    var t := s.worklist[i];
    var s' := Start(s, i);
    assert t in s.worklist;
    RemoveDistinct(s.worklist, i);
    assert t !in s.active;
    assert forall j | 0 <= j < |s.active| :: s.active[j] in s.active;
    forall u | HasStarted(s'.procs, u)
      ensures Ready(c, s'.procs, u)
    {
      assert Ready(c, s.procs, u);
    }
  }

  lemma DepsKeeps(c: Config, s: State)
    requires ValidConfig(c) && Inv(c, s) && s.pc.Deps?
    ensures Inv(c, Main(c, s, []))
  {
    var i, j := s.pc.i, s.pc.j;
    var t := s.worklist[i];
    if j >= |c.deps[t]| {
      StartKeeps(c, s, i);
    } else if !HasExited(s.procs, c.deps[t][j]) {
      assert !Ready(c, s.procs, t);
    }
  }

  lemma MainKeepsInv(c: Config, s: State, resorted: seq<Name>)
    requires ValidConfig(c) && Inv(c, s) && !MainBlocked(s) && Permutes(resorted, s.worklist)
    ensures Inv(c, Main(c, s, resorted))
  {
    match s.pc
    case Check(_, _) => CheckKeeps(c, s);
    case CheckDead(_, _) => CheckDeadKeeps(c, s);
    case JoinFailed(_, _) => JoinKeeps(c, s);
    case FinalJoin(_, _) => JoinKeeps(c, s);
    case Pass(_) => PassKeeps(c, s);
    case Deps(_, _) => DepsKeeps(c, s);
    case Resort => PermutationDistinct(resorted, s.worklist);
    case OuterTest =>
    case Decide =>
  }

  // ----- what holds over whole runs -----

  lemma NextKeepsInv(c: Config, s: State, s': State)
    requires ValidConfig(c) && Inv(c, s) && Next(c, s, s')
    ensures Inv(c, s')
  {
    hide Inv;
    if MainStep(c, s, s') {
      var resorted :| Permutes(resorted, s.worklist) && s' == Main(c, s, resorted);
      MainKeepsInv(c, s, resorted);
    } else {
      var t, code :| IsRunning(s.procs, t) && s' == s.(procs := s.procs[t := Exited(code)]);
      ExitKeepsInv(c, s, t, code);
    }
  }

  lemma {:induction false} RunInv(c: Config, run: seq<State>, k: nat)
    requires ValidConfig(c) && IsRun(c, run) && k < |run|
    ensures Inv(c, run[k])
  {
    hide Inv;
    hide Init;
    hide Next;
    if k == 0 {
      InitInv(c, run[0]);
    } else {
      RunInv(c, run, k - 1);
      assert Next(c, run[k - 1], run[k - 1 + 1]);
      NextKeepsInv(c, run[k - 1], run[k]);
    }
  }

  function RunningSet(p: Procs): set<Name> {
    set t | t in p && p[t].Running?
  }

  lemma {:induction false} SubsetOfSeq(S: set<Name>, a: seq<Name>)
    requires forall t | t in S :: t in a
    ensures |S| <= |a|
  {
    if a == [] {
      assert S == {};
    } else {
      SubsetOfSeq(S - {a[0]}, a[1..]);
    }
  }

  /** At every moment of every run: no more live processes than processors, each task is either
      waiting or started and never both, and a started task has all its dependencies behind it. */
  lemma RunSafety(c: Config, run: seq<State>, k: nat)
    requires ValidConfig(c) && IsRun(c, run) && k < |run|
    ensures |RunningSet(run[k].procs)| <= c.cpus
    ensures Distinct(run[k].worklist)
    ensures forall t | t in c.deps :: t in run[k].worklist <==> !HasStarted(run[k].procs, t)
    ensures forall t, d | HasStarted(run[k].procs, t) && Edge(c.deps, t, d) :: HasExited(run[k].procs, d)
  {
    RunInv(c, run, k);
    SubsetOfSeq(RunningSet(run[k].procs), run[k].active);
    forall t, d | HasStarted(run[k].procs, t) && Edge(c.deps, t, d)
      ensures HasExited(run[k].procs, d)
    {
      assert Ready(c, run[k].procs, t);
    }
  }

  /** A step starts at most waiting tasks and ends at most running ones. */
  ghost predicate Advances(p: Procs, p': Procs) {
    && p.Keys == p'.Keys
    && forall t | t in p :: p'[t] == p[t] || (p[t].NotStarted? && p'[t].Running?) || (p[t].Running? && p'[t].Exited?)
  }

  lemma StepAdvances(c: Config, s: State, s': State)
    requires ValidConfig(c) && Inv(c, s) && Next(c, s, s')
    ensures Advances(s.procs, s'.procs)
  {
    if s.pc.Deps? && s.pc.i < |s.worklist| { assert s.worklist[s.pc.i] in s.worklist; }
  }

  /** Each task starts at most once and keeps its exit code. */
  lemma {:induction false} StartsOnce(c: Config, run: seq<State>, i: nat, j: nat, t: Name)
    requires ValidConfig(c) && IsRun(c, run) && i <= j < |run| && t in c.deps
    ensures HasStarted(run[i].procs, t) ==> HasStarted(run[j].procs, t)
    ensures HasExited(run[i].procs, t) ==> run[j].procs[t] == run[i].procs[t]
  {
    hide Next;
    hide Init;
    RunInv(c, run, i);
    if i < j {
      StartsOnce(c, run, i, j - 1, t);
      RunInv(c, run, j - 1);
      assert Next(c, run[j - 1], run[j - 1 + 1]);
      StepAdvances(c, run[j - 1], run[j]);
    }
  }

  /** When a task starts, all its dependencies have exited; they have all succeeded exactly when
      none of those still tracked has failed since it was last looked at. */
  lemma StartCondition(c: Config, s: State, s': State, t: Name)
    requires ValidConfig(c) && Inv(c, s) && Next(c, s, s')
    requires !HasStarted(s.procs, t) && HasStarted(s'.procs, t)
    ensures Ready(c, s.procs, t)
    ensures (forall d | d in c.deps[t] :: Succeeded(s.procs, d))
       <==> (forall d | d in c.deps[t] && d in s.active :: !HasFailed(s.procs, d))
  {
    assert s.pc.Deps? && t == s.worklist[s.pc.i];
  }

  /** The end of a build: the failures reported are exactly the tasks that exited with another
      code than 0, and a build that does not abort has run every task successfully. */
  lemma BuildOutcome(c: Config, run: seq<State>)
    requires ValidConfig(c) && IsRun(c, run) && run[|run| - 1].pc.Finished?
    ensures var s := run[|run| - 1];
            && (forall t :: t in s.failed <==> HasFailed(s.procs, t))
            && (forall t :: !IsRunning(s.procs, t))
            && (s.failed == [] <==> forall t | t in c.deps :: Succeeded(s.procs, t))
  {
    var s := run[|run| - 1];
    RunInv(c, run, |run| - 1);
    if s.failed == [] {
      forall t | t in c.deps
        ensures Succeeded(s.procs, t)
      {
        assert HasStarted(s.procs, t);
      }
    }
    if s.failed != [] { assert s.failed[0] in s.failed; }
  }

  // ----- progress -----

  predicate InPass(s: State) { s.pc.Pass? || s.pc.Deps? }

  lemma PassStep(c: Config, s: State, s': State)
    requires ValidConfig(c) && Inv(c, s) && Next(c, s, s') && InPass(s)
    ensures |s'.worklist| + |s'.active| == |s.worklist| + |s.active|
  {
  }

  /** A pass only moves tasks from the worklist to the tracked ones. */
  lemma {:induction false} PassConserves(c: Config, run: seq<State>, i: nat, j: nat)
    requires ValidConfig(c) && IsRun(c, run) && i <= j < |run| && forall m | i <= m < j :: InPass(run[m])
    ensures |run[j].worklist| + |run[j].active| == |run[i].worklist| + |run[i].active|
  {
    hide Next;
    hide Init;
    hide Inv;
    if i < j {
      PassConserves(c, run, i, j - 1);
      RunInv(c, run, j - 1);
      assert Next(c, run[j - 1], run[j - 1 + 1]);
      PassStep(c, run[j - 1], run[j]);
    }
  }

  /** A pass that begins with work to do and no tracked process starts at least one task, even
      though removing a started task makes the loop skip the one after it. */
  lemma PassStartsSomething(c: Config, run: seq<State>, i: nat, j: nat)
    requires ValidConfig(c) && IsRun(c, run) && i < j < |run|
    requires run[i].pc == Pass(0) && run[i].active == [] && run[j].pc.Resort?
    requires forall m | i <= m < j :: InPass(run[m])
    ensures |run[j].worklist| < |run[i].worklist|
  {
    PassConserves(c, run, i, j);
    RunInv(c, run, j);
  }

  /** The build never gets stuck before it is finished. */
  lemma NeverStuck(c: Config, s: State)
    requires Inv(c, s) && !s.pc.Finished?
    ensures exists s' :: Next(c, s, s')
  {
    if MainBlocked(s) {
      var t := s.active[s.pc.i];
      assert t in s.active && IsRunning(s.procs, t);
      assert ExitStep(s, s.(procs := s.procs[t := Exited(0)]));
      assert Next(c, s, s.(procs := s.procs[t := Exited(0)]));
    } else {
      assert Permutes(s.worklist, s.worklist);
      assert MainStep(c, s, Main(c, s, s.worklist));
      assert Next(c, s, Main(c, s, s.worklist));
    }
  }

  // ----- termination -----

  /** Starts and exits still to come. */
  function Work(s: State): nat { 2 * |s.worklist| + |RunningSet(s.procs)| }

  function Left(n: nat, i: nat): nat { if i < n then n - i else 0 }

  function DepCount(c: Config, s: State, i: nat): nat {
    if i < |s.worklist| && s.worklist[i] in c.deps then |c.deps[s.worklist[i]]| else 0
  }

  /** How far the main thread is, on its own, from the next start or the end. */
  function Stage(s: State): nat {
    match s.pc
    case Finished => 0
    case FinalJoin(_, _) => 1
    case Decide => if s.failed != [] then 2 else if s.active == [] then 5 else 10
    case JoinFailed(_, _) => 3
    case Pass(_) => if s.active == [] then 4 else 9
    case Deps(_, _) => if s.active == [] then 4 else 9
    case Check(_, alive) => if alive == [] then 6 else 11
    case CheckDead(_, alive) => if alive == [] then 6 else 11
    case OuterTest => 7
    case Resort => 8
  }

  function Major(s: State): nat {
    match s.pc
    case FinalJoin(i, _) => Left(|s.active|, i)
    case JoinFailed(i, _) => Left(|s.active|, i)
    case Pass(i) => Left(|s.worklist|, i)
    case Deps(i, _) => Left(|s.worklist|, i)
    case Check(i, _) => Left(|s.active|, i)
    case CheckDead(i, _) => Left(|s.active|, i)
    case _ => 0
  }

  function Minor(c: Config, s: State): nat {
    match s.pc
    case Pass(i) => 1 + DepCount(c, s, i)
    case Deps(i, j) => Left(DepCount(c, s, i), j)
    case Check(_, _) => 1
    case _ => 0
  }

  ghost predicate Closer(c: Config, s': State, s: State) {
    || Work(s') < Work(s)
    || (Work(s') == Work(s) && Stage(s') < Stage(s))
    || (Work(s') == Work(s) && Stage(s') == Stage(s) && Major(s') < Major(s))
    || (Work(s') == Work(s) && Stage(s') == Stage(s) && Major(s') == Major(s) && Minor(c, s') < Minor(c, s))
  }

  lemma StartWork(s: State, i: nat)
    requires i < |s.worklist| && s.worklist[i] in s.procs && s.procs[s.worklist[i]].NotStarted?
    ensures Work(Start(s, i)) < Work(s)
  {
    var t := s.worklist[i];
    assert RunningSet(Start(s, i).procs) == RunningSet(s.procs) + {t};
  }

  /** Every exit leaves less work. */
  lemma ExitShrinks(s: State, t: Name, code: int)
    requires IsRunning(s.procs, t)
    ensures Work(s.(procs := s.procs[t := Exited(code)])) < Work(s)
  {
    assert RunningSet(s.procs[t := Exited(code)]) == RunningSet(s.procs) - {t};
  }

  /** No step adds work, and starting a task or exiting takes some away. */
  lemma StepWork(c: Config, s: State, s': State)
    requires Inv(c, s) && Next(c, s, s')
    ensures Work(s') <= Work(s) && (s'.procs != s.procs ==> Work(s') < Work(s))
  {
    hide AtPc;
    hide Ready;
    if ExitStep(s, s') {
      var t, code :| IsRunning(s.procs, t) && s' == s.(procs := s.procs[t := Exited(code)]);
      ExitShrinks(s, t, code);
    } else {
      var resorted :| Permutes(resorted, s.worklist) && s' == Main(c, s, resorted);
      assert |multiset(resorted)| == |multiset(s.worklist)|;
      if s.pc.Deps? && s.pc.i < |s.worklist| {
        assert s.worklist[s.pc.i] in s.worklist;
        StartWork(s, s.pc.i);
      }
    }
  }

  /** How many of the first k steps of a run start a task or are an exit. */
  ghost function Events(run: seq<State>, k: nat): nat
    requires k < |run|
  {
    if k == 0 then 0 else Events(run, k - 1) + if run[k].procs != run[k - 1].procs then 1 else 0
  }

  /** In every run there are no more starts and exits than two for each task. */
  lemma {:induction false} EventsBounded(c: Config, run: seq<State>, k: nat)
    requires ValidConfig(c) && IsRun(c, run) && k < |run|
    ensures Events(run, k) + Work(run[k]) <= 2 * |c.deps|
  {
    hide Work;
    hide Inv;
    hide Next;
    if k == 0 {
      InitWork(c, run[0]);
    } else {
      EventsBounded(c, run, k - 1);
      RunInv(c, run, k - 1);
      assert Next(c, run[k - 1], run[k - 1 + 1]);
      StepWork(c, run[k - 1], run[k]);
    }
  }

  lemma InitWork(c: Config, s: State)
    requires ValidConfig(c) && Init(c, s)
    ensures Work(s) == 2 * |c.deps|
  {
    PermutationDistinct(s.worklist, c.order);
    DistinctSize(c.order, c.deps.Keys);
    assert RunningSet(s.procs) == {};
  }

  lemma {:induction false} DistinctSize(a: seq<Name>, S: set<Name>)
    requires Distinct(a) && S == set t | t in a
    ensures |a| == |S|
  {
    if a != [] {
      var b, t := a[..|a| - 1], a[|a| - 1];
      assert a == b + [t];
      assert S - {t} == set u | u in b;
      DistinctSize(b, S - {t});
    }
  }

  lemma QuietUnblocked(c: Config, s: State)
    requires Base(c, s) && !s.pc.Finished? && forall t :: !IsRunning(s.procs, t)
    ensures !MainBlocked(s) && forall t | t in s.active :: HasExited(s.procs, t)
  {
    forall t | t in s.active
      ensures HasExited(s.procs, t)
    {
      assert HasStarted(s.procs, t) && !IsRunning(s.procs, t);
    }
    if (s.pc.JoinFailed? || s.pc.FinalJoin?) && s.pc.i < |s.active| {
      assert s.active[s.pc.i] in s.active;
    }
  }

  lemma QuietPass(c: Config, s: State)
    requires ValidConfig(c) && Inv(c, s) && InPass(s)
    ensures Closer(c, Main(c, s, []), s)
  {
    hide Ready;
    match s.pc
    case Pass(i) =>
      if i >= |s.worklist| { PassKeeps(c, s); }
    case Deps(i, j) =>
      if j >= |c.deps[s.worklist[i]]| {
        assert s.worklist[i] in s.worklist;
        StartWork(s, i);
      }
  }

  lemma QuietCheck(c: Config, s: State)
    requires Inv(c, s) && (s.pc.Check? || s.pc.CheckDead?)
    requires forall t | t in s.active :: HasExited(s.procs, t)
    ensures Closer(c, Main(c, s, []), s)
  {
    hide Ready;
    if s.pc.i < |s.active| { assert s.active[s.pc.i] in s.active; }
  }

  /** While no process runs, every step of the main thread brings the end of the build closer in
      a well-founded order: only waiting for a live process can go on for ever. */
  lemma QuietStepsTerminate(c: Config, s: State, resorted: seq<Name>)
    requires ValidConfig(c) && Inv(c, s) && !s.pc.Finished? && Permutes(resorted, s.worklist)
    requires forall t :: !IsRunning(s.procs, t)
    ensures !MainBlocked(s) && Closer(c, Main(c, s, resorted), s)
  {
    QuietUnblocked(c, s);
    hide Base;
    match s.pc
    case Pass(_) => QuietPass(c, s);
    case Deps(_, _) => QuietPass(c, s);
    case Check(_, _) => QuietCheck(c, s);
    case CheckDead(_, _) => QuietCheck(c, s);
    case Resort => assert |multiset(resorted)| == |multiset(s.worklist)|;
    case OuterTest =>
    case Decide =>
    case JoinFailed(_, _) =>
    case FinalJoin(_, _) =>
  }

  // ----- a task can start over a failed dependency -----

  const ONE: Name := "a"
  const TWO: Name := "b"

  /** Two tasks, the second waiting for the first, on two processors. */
  function Pair(): Config { Config(map[ONE := [], TWO := [ONE]], [ONE, TWO], 2) }

  function Snapshot(p: Proc, q: Proc, worklist: seq<Name>, active: seq<Name>, pc: Pc): State {
    State(map[ONE := p, TWO := q], worklist, active, [], pc)
  }

  /** The first task is found alive, fails before the pass looks at it, and the second starts. */
  function FailureRun(): seq<State> {
    [ Snapshot(NotStarted, NotStarted, [ONE, TWO], [], OuterTest),
      Snapshot(NotStarted, NotStarted, [ONE, TWO], [], Check(0, [])),
      Snapshot(NotStarted, NotStarted, [ONE, TWO], [], Decide),
      Snapshot(NotStarted, NotStarted, [ONE, TWO], [], Pass(0)),
      Snapshot(NotStarted, NotStarted, [ONE, TWO], [], Deps(0, 0)),
      Snapshot(Running, NotStarted, [TWO], [ONE], Pass(1)),
      Snapshot(Running, NotStarted, [TWO], [ONE], Resort),
      Snapshot(Running, NotStarted, [TWO], [ONE], OuterTest),
      Snapshot(Running, NotStarted, [TWO], [ONE], Check(0, [])),
      Snapshot(Running, NotStarted, [TWO], [ONE], Check(1, [ONE])),
      Snapshot(Running, NotStarted, [TWO], [ONE], Decide),
      Snapshot(Running, NotStarted, [TWO], [ONE], Pass(0)),
      Snapshot(Exited(1), NotStarted, [TWO], [ONE], Pass(0)),
      Snapshot(Exited(1), NotStarted, [TWO], [ONE], Deps(0, 0)),
      Snapshot(Exited(1), NotStarted, [TWO], [ONE], Deps(0, 1)),
      Snapshot(Exited(1), Running, [], [ONE, TWO], Resort) ]
  }

  lemma StartsOverFailure()
    ensures ValidConfig(Pair()) && IsRun(Pair(), FailureRun())
    ensures var s := FailureRun()[|FailureRun()| - 1];
            HasFailed(s.procs, ONE) && IsRunning(s.procs, TWO) && Edge(Pair().deps, TWO, ONE)
  {
    var c, run := Pair(), FailureRun();
    PairValid();
    forall k | 0 <= k < |run| - 1
      ensures Next(c, run[k], run[k + 1])
    {
      FailureStep(k);
    }
  }

  lemma PairValid()
    ensures ValidConfig(Pair())
  {
    var c := Pair();
    assert c.order[..1] == [ONE];
  }

  /** A step of the main thread, given by the state it leads to. */
  lemma Steps(s: State, s': State)
    requires !MainBlocked(s) && s' == Main(Pair(), s, s.worklist)
    ensures Next(Pair(), s, s')
  {
    assert Permutes(s.worklist, s.worklist);
    assert MainStep(Pair(), s, s');
  }

  lemma FailureStep(k: nat)
    requires k < |FailureRun()| - 1
    ensures Next(Pair(), FailureRun()[k], FailureRun()[k + 1])
  {
    hide Next;
    var run := FailureRun();
    if k < 5 { FirstSteps(k); }
    else if k < 11 { MiddleSteps(k); }
    else { LastSteps(k); }
  }

  lemma FirstSteps(k: nat)
    requires k < 5
    ensures Next(Pair(), FailureRun()[k], FailureRun()[k + 1])
  {
    hide Next;
    assert [ONE, TWO][..0] + [ONE, TWO][1..] == [TWO];
    Steps(FailureRun()[k], FailureRun()[k + 1]);
  }

  lemma MiddleSteps(k: nat)
    requires 5 <= k < 11
    ensures Next(Pair(), FailureRun()[k], FailureRun()[k + 1])
  {
    hide Next;
    assert [] + [ONE] == [ONE];
    Steps(FailureRun()[k], FailureRun()[k + 1]);
  }

  lemma LastSteps(k: nat)
    requires 11 <= k < 15
    ensures Next(Pair(), FailureRun()[k], FailureRun()[k + 1])
  {
    var s, s' := FailureRun()[k], FailureRun()[k + 1];
    if k == 11 {
      assert IsRunning(s.procs, ONE) && s' == s.(procs := s.procs[ONE := Exited(1)]);
      assert ExitStep(s, s');
    } else {
      hide Next;
      assert [TWO][..0] + [TWO][1..] == [];
      Steps(s, s');
    }
  }
}
