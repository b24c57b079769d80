/**
 What one pass over the worklist achieves: it does not leave a processor idle while a task could
 run, and how much removing a started task from the list being walked costs.
 */
module MxPasses {
  import opened Graphs
  import opened MxScheduler
  import opened MxRuns

  // ----- the first task that can start does start -----

  ghost predicate SomeExit(s: State, s': State) {
    exists t :: IsRunning(s.procs, t) && HasExited(s'.procs, t)
  }

  /** Some process exits after b(k) and no later than b(m). */
  ghost predicate ExitBetween(b: nat -> State, k: nat, m: nat) {
    exists j: nat :: k <= j < m && SomeExit(b(j), b(j + 1))
  }

  predicate InSweep(s: State) { s.pc.Decide? || InPass(s) }

  /** The scheduling loop does not go back to waiting between b(k) and b(m). */
  ghost predicate SweepsUntil(b: nat -> State, k: nat, m: nat) {
    k < m && forall j: nat | k <= j < m :: InSweep(b(j))
  }

  /** Of the tasks still waiting, number i is the first that can start. */
  ghost predicate FirstReady(c: Config, s: State, i: nat) {
    && i < |s.worklist| && Ready(c, s.procs, s.worklist[i])
    && forall k | 0 <= k < i :: !Ready(c, s.procs, s.worklist[k])
  }

  /** The first change after b(k) is a step of the main thread or an exit. */
  lemma {:induction false} NextChange(c: Config, b: nat -> State, k: nat, m: nat) returns (j: nat)
    requires IsBehaviour(c, b) && k <= m && MainActs(c, b, m) && !MainBlocked(b(k))
    ensures k <= j && (forall i: nat | k <= i <= j :: b(i) == b(k))
    ensures MainStep(c, b(k), b(j + 1)) || ExitStep(b(k), b(j + 1))
    decreases m - k
  {
    hide Init;
    hide MainStep;
    hide ExitStep;
    assert Moves(c, b, k);
    if Next(c, b(k), b(k + 1)) || k == m {
      j := k;
    } else {
      j := NextChange(c, b, k + 1, m);
    }
  }

  lemma ExitSeen(s: State, s': State)
    requires ExitStep(s, s')
    ensures SomeExit(s, s')
  {
  }

  /** One step of a sweep: either the first task that can start starts, or it stays the first. */
  lemma SweepStep(c: Config, s: State, i: nat, resorted: seq<Name>)
    requires Inv(c, s) && InSweep(s) && FirstReady(c, s, i) && Permutes(resorted, s.worklist)
    requires s.pc.Decide? ==> s.failed == [] && |s.active| < c.cpus
    requires InPass(s) ==> s.pc.i <= i
    ensures var s' := Main(c, s, resorted);
            || HasStarted(s'.procs, s.worklist[i])
            || (s'.worklist == s.worklist && InPass(s') && s'.pc.i <= i && FirstReady(c, s', i)
                && (InPass(s) ==> Major(s') < Major(s) || (Major(s') == Major(s) && Minor(c, s') < Minor(c, s))))
  {
    match s.pc
    case Decide =>
    case Pass(p) =>
    case Deps(p, j) =>
      var t := s.worklist[p];
      if j >= |c.deps[t]| {
        assert Ready(c, s.procs, t);
      } else if !HasExited(s.procs, c.deps[t][j]) {
        assert !Ready(c, s.procs, t);
      }
  }

  /** When fewer processes are tracked than there are processors and a waiting task can start, the
      first such task is started in the pass that follows, unless some process exits meanwhile. */
  lemma {:induction false} FirstReadyStarts(c: Config, b: nat -> State, k: nat, i: nat) returns (m: nat)
    requires ValidConfig(c) && IsBehaviour(c, b) && MainGoesOn(c, b)
    requires InSweep(b(k)) && FirstReady(c, b(k), i)
    requires b(k).pc.Decide? ==> b(k).failed == [] && |b(k).active| < c.cpus
    requires InPass(b(k)) ==> b(k).pc.i <= i
    ensures SweepsUntil(b, k, m)
    ensures HasStarted(b(m).procs, b(k).worklist[i]) || ExitBetween(b, k, m)
    decreases !InPass(b(k)), Major(b(k)), Minor(c, b(k))
  {
    hide Inv;
    hide IsBehaviour;
    hide MainGoesOn;
    hide ExitStep;
    hide Main;
    hide Major;
    hide Minor;
    hide FirstReady;
    hide ExitBetween;
    BehaviourInv(c, b, k);
    var a := Acted(c, b, k);
    var j := NextChange(c, b, k, a);
    InRange(c, b(k), i);
    if ExitStep(b(k), b(j + 1)) {
      ExitSeen(b(k), b(j + 1));
      m := j + 1;
      ExitFound(b, k, j, m);
    } else {
      var resorted :| Permutes(resorted, b(k).worklist) && b(j + 1) == Main(c, b(k), resorted);
      SweepStep(c, b(k), i, resorted);
      if HasStarted(b(j + 1).procs, b(k).worklist[i]) {
        m := j + 1;
      } else {
        m := FirstReadyStarts(c, b, j + 1, i);
        if ExitBetween(b, j + 1, m) { ExitEarlier(b, k, j + 1, m); }
      }
    }
  }

  lemma InRange(c: Config, s: State, i: nat)
    requires FirstReady(c, s, i)
    ensures i < |s.worklist|
  {
  }

  lemma ExitFound(b: nat -> State, k: nat, j: nat, m: nat)
    requires k <= j < m && SomeExit(b(j), b(j + 1))
    ensures ExitBetween(b, k, m)
  {
  }

  lemma ExitEarlier(b: nat -> State, k: nat, j: nat, m: nat)
    requires k <= j && ExitBetween(b, j, m)
    ensures ExitBetween(b, k, m)
  {
  }

  // ----- how many tasks a pass starts -----

  /** How many of the listed tasks could start. */
  ghost function CountReady(c: Config, p: Procs, a: seq<Name>): nat {
    if a == [] then 0 else CountReady(c, p, a[..|a| - 1]) + if Ready(c, p, a[|a| - 1]) then 1 else 0
  }

  /** The part of the worklist the pass has gone past. */
  function Passed(s: State): seq<Name> {
    if InPass(s) && s.pc.i <= |s.worklist| then s.worklist[..s.pc.i] else s.worklist
  }

  ghost predicate ExitsKept(p: Procs, q: Procs) {
    forall t | HasExited(p, t) :: HasExited(q, t)
  }

  lemma CountOneMore(c: Config, p: Procs, a: seq<Name>, t: Name)
    ensures CountReady(c, p, a + [t]) == CountReady(c, p, a) + if Ready(c, p, t) then 1 else 0
  {
    hide Ready;
    assert (a + [t])[..|a|] == a;
  }

  /** Whatever was started, at most as many tasks that could have started have been passed over. */
  ghost predicate PassedOver(c: Config, p: Procs, active: nat, s: State) {
    && ExitsKept(p, s.procs)
    && (|s.active| == c.cpus || CountReady(c, p, Passed(s)) + active <= |s.active|)
  }

  /** The next task takes the place of the one that was started and is passed over with it. */
  lemma PassOverStart(c: Config, p: Procs, active: nat, s: State)
    requires Inv(c, s) && s.pc.Deps? && s.pc.j >= |c.deps[s.worklist[s.pc.i]]| && PassedOver(c, p, active, s)
    ensures PassedOver(c, p, active, AfterTask(c, Start(s, s.pc.i), s.pc.i))
  {
    hide CountReady;
    hide Ready;
    var w, i := s.worklist, s.pc.i;
    var s' := AfterTask(c, Start(s, i), i);
    assert w[i] in w;
    assert s'.worklist == w[..i] + w[i + 1..];
    if i + 1 < |w| {
      assert s'.worklist[..i + 1] == w[..i] + [w[i + 1]];
      CountOneMore(c, p, w[..i], w[i + 1]);
    } else {
      assert s'.worklist == w[..i];
    }
  }

  lemma PassOverSkip(c: Config, p: Procs, active: nat, s: State)
    requires Inv(c, s) && s.pc.Deps? && s.pc.j < |c.deps[s.worklist[s.pc.i]]| && PassedOver(c, p, active, s)
    requires !HasExited(s.procs, c.deps[s.worklist[s.pc.i]][s.pc.j])
    ensures PassedOver(c, p, active, AfterTask(c, s, s.pc.i))
  {
    hide CountReady;
    var w, i := s.worklist, s.pc.i;
    assert !Ready(c, p, w[i]);
    assert w[..i + 1] == w[..i] + [w[i]];
    CountOneMore(c, p, w[..i], w[i]);
  }

  lemma PassOverMain(c: Config, p: Procs, active: nat, s: State, resorted: seq<Name>)
    requires Inv(c, s) && InPass(s) && PassedOver(c, p, active, s)
    ensures PassedOver(c, p, active, Main(c, s, resorted))
  {
    hide CountReady;
    hide Ready;
    var w, i := s.worklist, s.pc.i;
    if s.pc.Deps? {
      if s.pc.j >= |c.deps[w[i]]| {
        PassOverStart(c, p, active, s);
      } else if !HasExited(s.procs, c.deps[w[i]][s.pc.j]) {
        PassOverSkip(c, p, active, s);
      }
    } else if i == |w| {
      assert w[..i] == w;
    }
  }

  lemma PassOverStep(c: Config, p: Procs, active: nat, s: State, s': State)
    requires Inv(c, s) && Next(c, s, s') && InPass(s) && PassedOver(c, p, active, s)
    ensures PassedOver(c, p, active, s')
  {
    hide Inv;
    hide Main;
    hide CountReady;
    if MainStep(c, s, s') {
      var resorted :| Permutes(resorted, s.worklist) && s' == Main(c, s, resorted);
      PassOverMain(c, p, active, s, resorted);
    }
  }

  lemma {:induction false} PassOverRun(c: Config, run: seq<State>, i: nat, j: nat)
    requires ValidConfig(c) && IsRun(c, run) && i <= j < |run| && run[i].pc == Pass(0)
    requires forall m | i <= m < j :: InPass(run[m])
    ensures PassedOver(c, run[i].procs, |run[i].active|, run[j])
    decreases j - i
  {
    hide Inv;
    hide Next;
    hide Init;
    if i == j {
      assert Passed(run[i]) == [];
    } else {
      PassOverRun(c, run, i, j - 1);
      RunInv(c, run, j - 1);
      assert Next(c, run[j - 1], run[j - 1 + 1]);
      PassOverStep(c, run[i].procs, |run[i].active|, run[j - 1], run[j]);
    }
  }

  /** At the end of a pass all processors are busy, or at least as many tasks have been started as
      are left waiting that could have started when it began, whatever exits meanwhile. */
  lemma PassStartsHalf(c: Config, run: seq<State>, i: nat, j: nat)
    requires ValidConfig(c) && IsRun(c, run) && i < j < |run| && run[i].pc == Pass(0) && run[j].pc.Resort?
    requires forall m | i <= m < j :: InPass(run[m])
    ensures |run[j].active| == c.cpus
         || CountReady(c, run[i].procs, run[j].worklist) <= |run[i].worklist| - |run[j].worklist|
    ensures |run[j].active| - |run[i].active| == |run[i].worklist| - |run[j].worklist|
  {
    PassOverRun(c, run, i, j);
    PassConserves(c, run, i, j);
  }

  // ----- the task after a started one -----

  lemma PrefixStep(c: Config, s: State, s': State)
    requires ValidConfig(c) && Inv(c, s) && Next(c, s, s') && InPass(s)
    ensures Passed(s) <= s'.worklist && Passed(s) <= Passed(s')
  {
  }

  /** What a pass has gone past stays as it is until the end of the pass. */
  lemma {:induction false} PrefixKept(c: Config, run: seq<State>, i: nat, j: nat)
    requires ValidConfig(c) && IsRun(c, run) && i <= j < |run| && forall m | i <= m < j :: InPass(run[m])
    ensures Passed(run[i]) <= Passed(run[j]) <= run[j].worklist
    decreases j - i
  {
    hide Inv;
    hide Next;
    hide Init;
    if i < j {
      PrefixKept(c, run, i, j - 1);
      RunInv(c, run, j - 1);
      assert Next(c, run[j - 1], run[j - 1 + 1]);
      PrefixStep(c, run[j - 1], run[j]);
    }
  }

  /** The task after a started one is not looked at before the next pass. */
  lemma SkipsNext(c: Config, run: seq<State>, i: nat, j: nat, t: Name)
    requires ValidConfig(c) && IsRun(c, run) && i < j < |run|
    requires InPass(run[i]) && forall m | i < m < j :: InPass(run[m])
    requires run[i].pc.i + 1 < |run[i].worklist| && t == run[i].worklist[run[i].pc.i + 1]
    requires Starts(run[i], run[i + 1], run[i].worklist[run[i].pc.i])
    ensures t in run[j].worklist && !HasStarted(run[j].procs, t)
  {
    var s, s' := run[i], run[i + 1];
    RunInv(c, run, i);
    assert Next(c, run[i], run[i + 1]);
    var p := s.pc.i;
    assert s'.worklist == s.worklist[..p] + s.worklist[p + 1..];
    assert t == s'.worklist[p] && Passed(s')[p] == t;
    PrefixKept(c, run, i + 1, j);
    RunInv(c, run, j);
    assert run[j].worklist[p] == t;
  }
}
