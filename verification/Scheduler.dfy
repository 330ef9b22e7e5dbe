/** The parallel suite scheduler of src/tester.c (POSIX), with fork, waitpid and the children as environment. */
module Scheduler {
  import opened Options

  /** Declared cpu weight, number of registered tests, and the number of tests that will fail. */
  datatype Suite = Suite(weight: int, tests: nat, failures: nat)

  datatype Config = Config(suites: seq<Suite>, maxProcess: int) {
    /** test_suite_cpu_weight */
    function Weight(i: nat): int
      requires i < |suites|
    {
      var w := if suites[i].weight == 0 then 1 else suites[i].weight;
      if w > maxProcess then 1 else w
    }

    predicate NonNegative() {
      forall i :: 0 <= i < |suites| ==> suites[i].weight >= 0
    }
  }

  /** bc_tester_get_max_parallel_processes */
  function MaxParallelProcesses(maxParallelSuites: int, registered: nat): (limit: int)
    ensures limit >= 1 <==> maxParallelSuites >= 0
    ensures maxParallelSuites != 0 ==> limit == maxParallelSuites
    ensures maxParallelSuites == 0 ==> 2 * (limit - 1) <= registered < 2 * limit
  {
    if maxParallelSuites == 0 then registered / 2 + 1 else maxParallelSuites
  }

  datatype Status = Exited(code: nat) | Signaled
  datatype Wait = NoChild | Child(pid: int, status: Status) | WaitFailed

  /** What fork and waitpid answer during one turn of the loop. */
  datatype Env = Env(fork: int, wait: Wait)

  /** The loop's variables, and as history the suites reaped so far with their statuses. */
  datatype State = State(
    next: nat, running: int, finished: int, weight: int, ret: int,
    pids: seq<int>, done: seq<bool>, reaped: seq<nat>, statuses: seq<Status>)

  function Start(c: Config): State {
    State(0, 0, 0, 0, 0, seq(|c.suites|, _ => 0), seq(|c.suites|, _ => false), [], [])
  }

  // ----- one turn of the loop -----

  predicate CanLaunch(c: Config, s: State) {
    s.next < |c.suites| && s.weight + c.Weight(s.next) <= c.maxProcess
  }

  function Launch(c: Config, s: State, pid: int): State
    requires |s.pids| == |c.suites|
  {
    if CanLaunch(c, s) then
      s.(next := s.next + 1, running := s.running + 1,
         weight := s.weight + c.Weight(s.next), pids := s.pids[s.next := pid])
    else s
  }

  /** lookup_suite_from_pid: the first entry with this pid, finished or not. */
  function FirstIndex(pids: seq<int>, pid: int): (r: Option<nat>)
    ensures r.Some? ==> r.value < |pids| && pids[r.value] == pid && forall i :: 0 <= i < r.value ==> pids[i] != pid
    ensures r.None? ==> pid !in pids
  {
    if pids == [] then None
    else if pids[0] == pid then Some(0)
    else
      var r := FirstIndex(pids[1..], pid);
      assert pids == [pids[0]] + pids[1..];
      if r.None? then None else Some(r.value + 1)
  }

  /** A signal or exit code 255 counts the whole suite; any other code is the number of failed tests. */
  function Counted(suite: Suite, status: Status): nat {
    match status
    case Signaled => suite.tests
    case Exited(code) => if code == 255 then suite.tests else code
  }

  function Reap(c: Config, s: State, w: Wait): State
    requires |s.pids| == |s.done| == |c.suites|
    requires s.running > 0 && w.Child? ==> w.pid in s.pids
  {
    if s.running > 0 && w.Child? then
      var i := FirstIndex(s.pids, w.pid).value;
      s.(weight := s.weight - c.Weight(i), done := s.done[i := true], running := s.running - 1,
         finished := s.finished + 1, ret := s.ret + Counted(c.suites[i], w.status),
         reaped := s.reaped + [i], statuses := s.statuses + [w.status])
    else s
  }

  /** fork gives a pid not used before in the run; waitpid reports a child that is still running. */
  predicate LegalFork(c: Config, s: State, pid: int) {
    CanLaunch(c, s) ==> pid > 0 && pid !in s.pids
  }

  predicate LegalWait(s: State, w: Wait) {
    && (s.running > 0 ==> !w.WaitFailed?)
    && (s.running > 0 && w.Child? ==>
      exists i :: 0 <= i < |s.pids| && i < |s.done| && s.pids[i] == w.pid && w.pid > 0 && !s.done[i])
  }

  predicate Legal(c: Config, s: State, e: Env) {
    |s.pids| == |c.suites| && LegalFork(c, s, e.fork) && LegalWait(Launch(c, s, e.fork), e.wait)
  }

  /** fork or waitpid answered -1: the function gives up. */
  predicate ForkFails(c: Config, s: State, e: Env) {
    CanLaunch(c, s) && e.fork == -1
  }

  predicate WaitFails(c: Config, s: State, e: Env)
    requires |s.pids| == |c.suites|
  {
    LegalFork(c, s, e.fork) && Launch(c, s, e.fork).running > 0 && e.wait.WaitFailed?
  }

  function Turn(c: Config, s: State, e: Env): State
    requires |s.done| == |c.suites| && Legal(c, s, e)
  {
    Reap(c, Launch(c, s, e.fork), e.wait)
  }

  // ----- safety -----

  /** The weight of the suites among the first k that are not finished. */
  function LiveWeight(c: Config, done: seq<bool>, k: nat): int
    requires k <= |done| == |c.suites|
  {
    if k == 0 then 0 else LiveWeight(c, done, k - 1) + if done[k - 1] then 0 else c.Weight(k - 1)
  }

  predicate Distinct(xs: seq<nat>) {
    forall i, j :: 0 <= i < j < |xs| ==> xs[i] != xs[j]
  }

  /** What the parent has added up. */
  function Total(c: Config, reaped: seq<nat>, statuses: seq<Status>): nat
    requires |reaped| == |statuses| && forall i :: 0 <= i < |reaped| ==> reaped[i] < |c.suites|
  {
    if reaped == [] then 0
    else
      var n := |reaped| - 1;
      assert reaped[n] < |c.suites|;
      Total(c, reaped[..n], statuses[..n]) + Counted(c.suites[reaped[n]], statuses[n])
  }

  predicate Shaped(c: Config, s: State) {
    |s.pids| == |s.done| == |c.suites| && s.next <= |c.suites|
  }

  predicate PidsInv(s: State)
    requires s.next <= |s.pids| == |s.done|
  {
    && (forall i :: 0 <= i < s.next ==> s.pids[i] > 0)
    && (forall i :: s.next <= i < |s.pids| ==> s.pids[i] == 0 && !s.done[i])
    && (forall i, j :: 0 <= i < j < s.next ==> s.pids[i] != s.pids[j])
  }

  predicate ReapedInv(s: State)
    requires s.next <= |s.pids| == |s.done|
  {
    && |s.statuses| == |s.reaped| && Distinct(s.reaped)
    && (forall k :: 0 <= k < |s.reaped| ==> s.reaped[k] < s.next && s.done[s.reaped[k]])
    && (forall i :: 0 <= i < s.next && s.done[i] ==> i in s.reaped)
  }

  predicate Inv(c: Config, s: State) {
    && Shaped(c, s) && PidsInv(s) && ReapedInv(s)
    && s.finished == |s.reaped| && s.running + s.finished == s.next
    && s.weight == LiveWeight(c, s.done, s.next)
    && s.ret == Total(c, s.reaped, s.statuses)
  }

  lemma StartInv(c: Config)
    ensures Inv(c, Start(c))
  {
  }

  lemma {:induction false} LiveWeightDone(c: Config, done: seq<bool>, k: nat, i: nat)
    requires k <= |done| == |c.suites| && i < |done| && !done[i]
    ensures LiveWeight(c, done[i := true], k) == LiveWeight(c, done, k) - if i < k then c.Weight(i) else 0
  {
    if k > 0 {
      LiveWeightDone(c, done, k - 1, i);
    }
  }

  lemma LaunchKeepsInv(c: Config, s: State, pid: int)
    requires Inv(c, s) && LegalFork(c, s, pid)
    ensures Inv(c, Launch(c, s, pid))
  {
    hide Config.Weight, Total;
    var s' := Launch(c, s, pid);
    if CanLaunch(c, s) {
      assert PidsInv(s') by {
        forall i | 0 <= i < s.next ensures s'.pids[i] != pid { assert s.pids[i] in s.pids; }
      }
      assert ReapedInv(s');
    }
  }

  /** With distinct pids, the entry found is the child's own. */
  lemma LookupIsExact(s: State, i: nat)
    requires s.next <= |s.pids| == |s.done| && PidsInv(s) && i < |s.pids| && s.pids[i] > 0
    ensures FirstIndex(s.pids, s.pids[i]) == Some(i) && i < s.next
  {
    hide FirstIndex;
    assert s.pids[i] in s.pids;
    var r := FirstIndex(s.pids, s.pids[i]).value;
    assert !(i < r);
  }

  lemma ReapKeepsInv(c: Config, s: State, w: Wait)
    requires Inv(c, s) && LegalWait(s, w)
    ensures s.running > 0 && w.Child? ==> w.pid in s.pids
    ensures Inv(c, Reap(c, s, w))
  {
    hide Config.Weight, FirstIndex, Total, LiveWeight, Counted;
    if s.running > 0 && w.Child? {
      var i :| 0 <= i < |s.pids| && i < |s.done| && s.pids[i] == w.pid && w.pid > 0 && !s.done[i];
      LookupIsExact(s, i);
      LiveWeightDone(c, s.done, s.next, i);
      var s' := Reap(c, s, w);
      assert s'.reaped == s.reaped + [i];
      ReapedGrows(s, s', i);
      assert PidsInv(s');
      TotalSnoc(c, s.reaped, s.statuses, i, w.status);
    }
  }

  lemma ReapedGrows(s: State, s': State, i: nat)
    requires s.next <= |s.pids| == |s.done| && ReapedInv(s) && i < s.next && !s.done[i]
    requires s'.next == s.next && s'.pids == s.pids && s'.done == s.done[i := true]
    requires s'.reaped == s.reaped + [i] && |s'.statuses| == |s.statuses| + 1
    ensures ReapedInv(s')
  {
    forall j | 0 <= j < s'.next && s'.done[j] ensures j in s'.reaped {
      if j != i {
        assert j in s.reaped;
      }
    }
  }

  lemma TotalSnoc(c: Config, reaped: seq<nat>, statuses: seq<Status>, i: nat, st: Status)
    requires |reaped| == |statuses| && (forall k :: 0 <= k < |reaped| ==> reaped[k] < |c.suites|) && i < |c.suites|
    ensures Total(c, reaped + [i], statuses + [st]) == Total(c, reaped, statuses) + Counted(c.suites[i], st)
  {
    assert (reaped + [i])[..|reaped|] == reaped && (statuses + [st])[..|reaped|] == statuses;
  }

  lemma TurnKeepsInv(c: Config, s: State, e: Env)
    requires Inv(c, s) && Legal(c, s, e)
    ensures Inv(c, Turn(c, s, e))
  {
    hide Inv, Launch, Reap;
    InvShape(c, s);
    LaunchKeepsInv(c, s, e.fork);
    ReapKeepsInv(c, Launch(c, s, e.fork), e.wait);
  }

  lemma InvShape(c: Config, s: State)
    requires Inv(c, s)
    ensures |s.pids| == |s.done| == |c.suites|
  {
  }

  /** Admission keeps the weight of the running suites within the limit. */
  lemma TurnKeepsBound(c: Config, s: State, e: Env)
    requires Inv(c, s) && Legal(c, s, e) && c.NonNegative() && s.weight <= c.maxProcess
    ensures Turn(c, s, e).weight <= c.maxProcess
  {
    hide Inv;
    InvShape(c, s);
    var s1 := Launch(c, s, e.fork);
    LaunchKeepsInv(c, s, e.fork);
    ReapKeepsInv(c, s1, e.wait);
  }

  // ----- when the limit is safe -----

  /** A finite run: states ss, with what fork and waitpid answered in between. */
  predicate IsTrace(c: Config, ss: seq<State>, es: seq<Env>) {
    && |ss| == |es| + 1 && ss[0] == Start(c)
    && forall k :: 0 <= k < |es| ==>
         |ss[k].done| == |c.suites| && Legal(c, ss[k], es[k]) && ss[k + 1] == Turn(c, ss[k], es[k])
  }

  lemma {:induction false} TraceInv(c: Config, ss: seq<State>, es: seq<Env>, k: nat)
    requires IsTrace(c, ss, es) && k <= |es|
    ensures Inv(c, ss[k])
  {
    hide Inv, Turn, Legal;
    if k == 0 {
      StartInv(c);
    } else {
      TraceInv(c, ss, es, k - 1);
      TurnKeepsInv(c, ss[k - 1], es[k - 1]);
    }
  }

  lemma {:induction false} TraceSafe(c: Config, ss: seq<State>, es: seq<Env>, k: nat)
    requires IsTrace(c, ss, es) && k <= |es| && c.NonNegative() && c.maxProcess >= 0
    ensures ss[k].weight <= c.maxProcess
  {
    hide Inv, Turn, Legal;
    if k > 0 {
      TraceSafe(c, ss, es, k - 1);
      TraceInv(c, ss, es, k - 1);
      TurnKeepsBound(c, ss[k - 1], es[k - 1]);
    }
  }

  /** No run has more weight running than the limit. */
  ghost predicate LimitHolds(c: Config) {
    forall ss: seq<State>, es: seq<Env> :: IsTrace(c, ss, es) ==> ss[|es|].weight <= c.maxProcess
  }

  /** The same registry with more suites behind, whose weights are fine. */
  ghost predicate Extends(c: Config, d: Config) {
    && d.maxProcess == c.maxProcess && |c.suites| <= |d.suites| && d.suites[..|c.suites|] == c.suites
    && forall i :: |c.suites| <= i < |d.suites| ==> d.suites[i].weight >= 0
  }

  lemma {:induction false} FreshPid(pids: seq<int>) returns (pid: int)
    ensures pid > 0 && forall i :: 0 <= i < |pids| ==> pids[i] < pid
  {
    pid := 1;
    if pids != [] {
      var n := |pids| - 1;
      pid := FreshPid(pids[..n]);
      assert forall i :: 0 <= i < n ==> pids[i] == pids[..n][i];
      pid := if pids[n] >= pid then pids[n] + 1 else pid;
    }
  }

  /** The next suite is launched; its child ends in the same turn, or stays. */
  lemma LaunchOne(c: Config, s: State, stay: bool) returns (e: Env)
    requires Inv(c, s) && CanLaunch(c, s)
    ensures |s.done| == |c.suites| && Legal(c, s, e)
    ensures var s' := Turn(c, s, e);
            && Inv(c, s') && s'.next == s.next + 1
            && s'.weight == s.weight + (if stay then c.Weight(s.next) else 0)
            && s'.done == if stay then s.done else s.done[s.next := true]
  {
    var pid := FreshPid(s.pids);
    e := Env(pid, if stay then NoChild else Child(pid, Exited(0)));
    var s1 := Launch(c, s, pid);
    assert pid !in s.pids;
    LaunchKeepsInv(c, s, pid);
    hide Config.Weight, LiveWeight, Total, FirstIndex, Counted, ReapedInv;
    RunningNotNegative(c, s);
    assert s1.pids[s.next] == pid && !s1.done[s.next];
    LookupIsExact(s1, s.next);
    ReapKeepsInv(c, s1, e.wait);
  }

  /** The run that launches everything and keeps running only suite j and those from n on. */
  function Kept(c: Config, j: nat, n: nat, k: nat): int
    requires j < n <= |c.suites|
  {
    if k <= j then 0 else if k <= n then c.Weight(j) else c.Weight(j) + (k - n)
  }

  /** The registry c, whose suite j is negative, with so many suites of weight 1 behind that they exceed the limit. */
  function Overfull(c: Config, unit: Suite): Config
    requires c.maxProcess >= 1
  {
    Config(c.suites + seq(c.maxProcess + 1, _ => unit.(weight := 1)), c.maxProcess)
  }

  /** What the run has come to after k launches. */
  predicate FilledUp(c: Config, j: nat, n: nat, k: nat, s: State)
    requires j < n <= |c.suites|
  {
    Inv(c, s) && s.next == k && s.weight == Kept(c, j, n, k) && (k > j ==> !s.done[j])
  }

  lemma FillUpStep(c: Config, unit: Suite, j: nat, k: nat, s: State) returns (e: Env)
    requires c.maxProcess >= 1 && j < |c.suites| && c.suites[j].weight < 0 && k <= |c.suites| + c.maxProcess
    requires FilledUp(Overfull(c, unit), j, |c.suites|, k, s)
    ensures var d := Overfull(c, unit);
            && |s.done| == |d.suites| && Legal(d, s, e) && FilledUp(d, j, |c.suites|, k + 1, Turn(d, s, e))
  {
    var d := Overfull(c, unit);
    FitsNext(c, unit, j, k);
    hide Inv, Turn, Legal, Config.Weight, Overfull, Kept;
    InvShape(d, s);
    e := LaunchOne(d, s, k == j || k >= |c.suites|);
    InvShape(d, Turn(d, s, e));
  }

  lemma {:induction false} FillUp(c: Config, unit: Suite, j: nat, k: nat) returns (ss: seq<State>, es: seq<Env>)
    requires c.maxProcess >= 1 && j < |c.suites| && c.suites[j].weight < 0 && k <= |c.suites| + c.maxProcess + 1
    ensures var d := Overfull(c, unit);
            IsTrace(d, ss, es) && |es| == k && FilledUp(d, j, |c.suites|, k, ss[k])
  {
    var d := Overfull(c, unit);
    if k == 0 {
      ss, es := [Start(d)], [];
      StartInv(d);
    } else {
      ss, es := FillUp(c, unit, j, k - 1);
      hide FilledUp, Turn, Legal;
      var e := FillUpStep(c, unit, j, k - 1, ss[k - 1]);
      TraceSnoc(d, ss, es, e);
      ss, es := ss + [Turn(d, ss[k - 1], e)], es + [e];
    }
  }

  lemma TraceSnoc(c: Config, ss: seq<State>, es: seq<Env>, e: Env)
    requires IsTrace(c, ss, es) && |ss[|es|].done| == |c.suites| && Legal(c, ss[|es|], e)
    ensures IsTrace(c, ss + [Turn(c, ss[|es|], e)], es + [e])
  {
    hide Turn, Legal;
    var n, ss', es' := |es|, ss + [Turn(c, ss[|es|], e)], es + [e];
    forall k | 0 <= k < n + 1
      ensures |ss'[k].done| == |c.suites| && Legal(c, ss'[k], es'[k]) && ss'[k + 1] == Turn(c, ss'[k], es'[k]) {
      assert k < n ==> ss'[k] == ss[k] && ss'[k + 1] == ss[k + 1] && es'[k] == es[k];
    }
  }

  lemma FitsNext(c: Config, unit: Suite, j: nat, k: nat)
    requires c.maxProcess >= 1 && j < |c.suites| && c.suites[j].weight < 0 && k <= |c.suites| + c.maxProcess
    ensures var d := Overfull(c, unit);
            && k < |d.suites| && Kept(d, j, |c.suites|, k) + d.Weight(k) <= d.maxProcess
            && Kept(d, j, |c.suites|, k + 1)
               == Kept(d, j, |c.suites|, k) + (if k == j || k >= |c.suites| then d.Weight(k) else 0)
  {
    var d := Overfull(c, unit);
    assert d.suites[j] == c.suites[j];
  }

  /** A negative weight anywhere in a registry: with enough suites of weight 1 behind it, the end of the
      negative suite leaves more running than the limit. */
  lemma NegativeWeightExceedsLimit(c: Config, unit: Suite, j: nat) returns (ss: seq<State>, es: seq<Env>)
    requires c.maxProcess >= 1 && j < |c.suites| && c.suites[j].weight < 0
    ensures Extends(c, Overfull(c, unit)) && IsTrace(Overfull(c, unit), ss, es)
    ensures ss[|es|].weight == c.maxProcess + 1
  {
    var d := Overfull(c, unit);
    var k := |d.suites|;
    ss, es := FillUp(c, unit, j, k);
    var s := ss[k];
    FitsNext(c, unit, j, k - 1);
    assert d.suites[..|c.suites|] == c.suites;
    LaterPid(d, s, j);
    var e := Env(0, Child(s.pids[j], Signaled));
    RunningOne(d, s, j);
    LookupIsExact(s, j);
    assert Legal(d, s, e);
    TraceSnoc(d, ss, es, e);
    ss, es := ss + [Turn(d, s, e)], es + [e];
  }

  lemma LaterPid(c: Config, s: State, j: nat)
    requires Inv(c, s) && j < s.next
    ensures |s.pids| == |s.done| && s.next <= |s.pids| && PidsInv(s) && s.pids[j] > 0
  {
  }

  /** Whoever has been launched and not reaped is running. */
  lemma RunningOne(c: Config, s: State, j: nat)
    requires Inv(c, s) && j < s.next && !s.done[j]
    ensures s.running > 0
  {
    Pigeonhole(s.reaped, s.next);
    assert forall k :: 0 <= k < |s.reaped| ==> s.reaped[k] != j;
    assert j !in s.reaped;
  }

  /** Whatever suites are registered behind it, a registry never has more weight running than the limit if
      and only if none of its declared weights is negative. */
  lemma LimitSafeExactly(c: Config)
    requires c.maxProcess >= 1
    ensures (forall d: Config :: Extends(c, d) ==> LimitHolds(d)) <==> c.NonNegative()
  {
    hide LimitHolds, Overfull;
    if c.NonNegative() {
      forall d: Config | Extends(c, d) ensures LimitHolds(d) {
        ExtendedNonNegative(c, d);
        LimitSafe(d);
      }
    } else {
      var j :| 0 <= j < |c.suites| && c.suites[j].weight < 0;
      var ss, es := NegativeWeightExceedsLimit(c, Suite(1, 0, 0), j);
      LimitFails(Overfull(c, Suite(1, 0, 0)), ss, es);
    }
  }

  lemma LimitSafe(c: Config)
    requires c.NonNegative() && c.maxProcess >= 0
    ensures LimitHolds(c)
  {
    forall ss: seq<State>, es: seq<Env> | IsTrace(c, ss, es) ensures ss[|es|].weight <= c.maxProcess {
      TraceSafe(c, ss, es, |es|);
    }
  }

  lemma LimitFails(c: Config, ss: seq<State>, es: seq<Env>)
    requires IsTrace(c, ss, es) && ss[|es|].weight > c.maxProcess
    ensures !LimitHolds(c)
  {
  }

  lemma ExtendedNonNegative(c: Config, d: Config)
    requires Extends(c, d) && c.NonNegative()
    ensures d.NonNegative()
  {
    forall i | 0 <= i < |d.suites| ensures d.suites[i].weight >= 0 {
      if i < |c.suites| {
        assert d.suites[i] == d.suites[..|c.suites|][i];
      }
    }
  }

  // ----- runs -----

  /** An unending run of the loop body; once all suites are finished its turns change nothing. */
  ghost predicate IsRun(c: Config, st: nat -> State, env: nat -> Env) {
    && st(0) == Start(c)
    && forall k: nat :: |st(k).done| == |c.suites| && Legal(c, st(k), env(k)) && st(k + 1) == Turn(c, st(k), env(k))
  }

  lemma {:induction false} RunInv(c: Config, st: nat -> State, env: nat -> Env, k: nat)
    requires IsRun(c, st, env)
    ensures Inv(c, st(k))
  {
    hide Inv, Turn, Legal;
    if k == 0 {
      StartInv(c);
    } else {
      RunInv(c, st, env, k - 1);
      assert st(k - 1 + 1) == Turn(c, st(k - 1), env(k - 1));
      TurnKeepsInv(c, st(k - 1), env(k - 1));
    }
  }

  /** Safety of every reachable state: the accounts balance and the limit holds. */
  lemma {:induction false} RunSafe(c: Config, st: nat -> State, env: nat -> Env, k: nat)
    requires IsRun(c, st, env)
    ensures st(k).running + st(k).finished == st(k).next <= |c.suites| == |st(k).done|
    ensures st(k).weight == LiveWeight(c, st(k).done, st(k).next)
    ensures c.NonNegative() && c.maxProcess >= 0 ==> st(k).weight <= c.maxProcess
  {
    RunInv(c, st, env, k);
    hide Turn, Legal;
    if k > 0 && c.NonNegative() && c.maxProcess >= 0 {
      RunSafe(c, st, env, k - 1);
      RunInv(c, st, env, k - 1);
      assert st(k - 1 + 1) == Turn(c, st(k - 1), env(k - 1));
      TurnKeepsBound(c, st(k - 1), env(k - 1));
    }
  }

  // ----- admission of suites that declare nothing -----

  /** The finished ones of the first k suites. */
  ghost function DoneSet(done: seq<bool>, k: nat): (s: set<nat>)
    requires k <= |done|
    ensures forall i: nat :: i in s <==> i < k && done[i]
  {
    if k == 0 then {} else DoneSet(done, k - 1) + if done[k - 1] then {k - 1} else {}
  }

  predicate NoneDeclared(c: Config) {
    forall i :: 0 <= i < |c.suites| ==> c.suites[i].weight == 0 || c.suites[i].weight > c.maxProcess
  }

  lemma {:induction false} LiveCount(c: Config, done: seq<bool>, k: nat)
    requires k <= |done| == |c.suites| && c.maxProcess >= 1 && NoneDeclared(c)
    ensures LiveWeight(c, done, k) + |DoneSet(done, k)| == k
  {
    if k > 0 {
      LiveCount(c, done, k - 1);
    }
  }

  /** Suites that declare no weight, or one above the limit, weigh 1: as many run as the limit allows. */
  lemma UndeclaredAdmission(c: Config, s: State)
    requires Inv(c, s) && c.maxProcess >= 1 && NoneDeclared(c)
    ensures CanLaunch(c, s) <==> s.next < |c.suites| && s.running < c.maxProcess
  {
    LiveCount(c, s.done, s.next);
    ReapedAreDone(s);
    assert s.next < |c.suites| ==> c.Weight(s.next) == 1;
    hide LiveWeight, Total, DoneSet;
  }

  lemma ReapedAreDone(s: State)
    requires s.next <= |s.pids| == |s.done| && ReapedInv(s)
    ensures |DoneSet(s.done, s.next)| == |s.reaped|
  {
    hide Elements, DoneSet;
    DistinctSize(s.reaped);
    assert Elements(s.reaped) == DoneSet(s.done, s.next);
  }

  // ----- progress -----

  lemma {:induction false} NobodyLeft(c: Config, done: seq<bool>, k: nat)
    requires k <= |done| == |c.suites| && forall i :: 0 <= i < k ==> done[i]
    ensures LiveWeight(c, done, k) == 0
  {
    if k > 0 {
      NobodyLeft(c, done, k - 1);
    }
  }

  ghost function Below(n: nat): (s: set<nat>)
    ensures |s| == n && forall i: nat :: i in s <==> i < n
  {
    if n == 0 then {} else Below(n - 1) + {n - 1}
  }

  ghost function Elements(xs: seq<nat>): (s: set<nat>)
    ensures forall x: nat :: x in s <==> x in xs
  {
    if xs == [] then {}
    else
      var n := |xs| - 1;
      assert xs == xs[..n] + [xs[n]];
      Elements(xs[..n]) + {xs[n]}
  }

  lemma {:induction false} DistinctSize(xs: seq<nat>)
    requires Distinct(xs)
    ensures |Elements(xs)| == |xs|
  {
    if xs != [] {
      var n := |xs| - 1;
      DistinctSize(xs[..n]);
      assert xs[n] !in xs[..n];
    }
  }

  lemma {:induction false} SubsetSize(a: set<nat>, b: set<nat>)
    requires a <= b
    ensures |a| <= |b| && (|a| == |b| ==> a == b)
  {
    if a != {} {
      var x :| x in a;
      SubsetSize(a - {x}, b - {x});
      assert a == (a - {x}) + {x} && b == (b - {x}) + {x};
    }
  }

  /** Different numbers below n: at most n of them, and n of them are all. */
  lemma {:induction false} Pigeonhole(xs: seq<nat>, n: nat)
    requires Distinct(xs) && forall i :: 0 <= i < |xs| ==> xs[i] < n
    ensures |xs| <= n
    ensures |xs| == n ==> forall x: nat :: x < n ==> x in xs
  {
    hide Below, Elements;
    DistinctSize(xs);
    assert Elements(xs) <= Below(n);
    SubsetSize(Elements(xs), Below(n));
    assert |xs| == n ==> forall x: nat :: x < n ==> x in Below(n) && x in xs;
  }

  /** When nothing runs, everything launched is finished and carries no weight. */
  lemma NothingRuns(c: Config, s: State)
    requires Inv(c, s) && s.running == 0
    ensures s.weight == 0 && forall i :: 0 <= i < s.next ==> s.done[i]
  {
    Pigeonhole(s.reaped, s.next);
    forall i | 0 <= i < s.next ensures s.done[i] {
      assert i in s.reaped;
      var k :| 0 <= k < |s.reaped| && s.reaped[k] == i;
    }
    NobodyLeft(c, s.done, s.next);
  }

  /** With nothing running and suites left, the next one is admitted exactly when its weight fits, and
      with declared weights of at least 0 exactly when the limit is at least 1. */
  lemma LaunchWhenNothingRuns(c: Config, s: State)
    requires Inv(c, s) && s.finished < |c.suites| && s.running == 0
    ensures s.next < |c.suites| && (CanLaunch(c, s) <==> c.Weight(s.next) <= c.maxProcess)
    ensures c.suites[s.next].weight >= 0 ==> (CanLaunch(c, s) <==> c.maxProcess >= 1)
    ensures c.maxProcess >= 1 ==> CanLaunch(c, s)
  {
    NothingRuns(c, s);
  }

  /** A limit below 1 admits nothing: the loop spins on its first state for ever. */
  lemma {:induction false} NoLimitNoProgress(c: Config, st: nat -> State, env: nat -> Env, k: nat)
    requires IsRun(c, st, env) && c.NonNegative() && c.maxProcess < 1
    ensures st(k) == Start(c)
  {
    hide FirstIndex;
    if k > 0 {
      NoLimitNoProgress(c, st, env, k - 1);
      assert st(k - 1 + 1) == Turn(c, st(k - 1), env(k - 1));
    }
  }

  function Measure(c: Config, s: State): int {
    2 * |c.suites| - s.next - s.finished
  }

  /** Each launch and each reap brings the end nearer. */
  lemma MeasureFalls(c: Config, s: State, e: Env)
    requires Inv(c, s) && Legal(c, s, e)
    ensures Measure(c, s) >= 0
    ensures Measure(c, Turn(c, s, e)) == Measure(c, s)
              - (if CanLaunch(c, s) then 1 else 0)
              - (if Launch(c, s, e.fork).running > 0 && e.wait.Child? then 1 else 0)
  {
    hide FirstIndex, LiveWeight, Total;
    RunningNotNegative(c, s);
    InvShape(c, s);
    LaunchKeepsInv(c, s, e.fork);
    ReapKeepsInv(c, Launch(c, s, e.fork), e.wait);
  }

  /** As long as a child runs, some child is reaped sooner or later. */
  ghost predicate Fair(st: nat -> State) {
    forall k: nat :: st(k).running > 0 ==> exists j: nat :: k <= j && st(j).finished < st(j + 1).finished
  }

  /** waitpid answers "no child" only when no running child has exited, and reports only exited children;
      gone are the suites whose children have exited by then. */
  ghost predicate Honest(s: State, w: Wait, gone: set<nat>) {
    && (w.NoChild? && s.running > 0 ==> forall i :: 0 <= i < s.next && i < |s.done| && !s.done[i] ==> i !in gone)
    && (w.Child? && s.running > 0 ==>
          forall i :: 0 <= i < |s.pids| && i < |s.done| && s.pids[i] == w.pid && !s.done[i] ==> i in gone)
  }

  ghost predicate HonestWaits(c: Config, st: nat -> State, env: nat -> Env, gone: nat -> set<nat>) {
    forall k: nat :: |st(k).pids| == |c.suites| ==> Honest(Launch(c, st(k), env(k).fork), env(k).wait, gone(k))
  }

  ghost predicate ExitsAfter(gone: nat -> set<nat>, k: nat, i: nat) {
    exists j: nat :: k <= j && i in gone(j)
  }

  /** Every launched child exits sooner or later, and stays so. */
  ghost predicate EveryChildExits(st: nat -> State, gone: nat -> set<nat>) {
    && (forall k: nat, j: nat :: k <= j ==> gone(k) <= gone(j))
    && forall k: nat, i: nat :: i < st(k).next ==> ExitsAfter(gone, k, i)
  }

  /** Some launched suite has not been reaped as long as something runs. */
  lemma SomeoneRuns(c: Config, s: State) returns (i: nat)
    requires Inv(c, s) && s.running > 0
    ensures i < s.next && i < |s.done| && !s.done[i]
  {
    if forall k :: 0 <= k < s.next ==> s.done[k] {
      DistinctSize(s.reaped);
      assert Below(s.next) <= Elements(s.reaped);
      SubsetSize(Below(s.next), Elements(s.reaped));
    }
    i :| 0 <= i < s.next && !s.done[i];
  }

  /** One turn: a child is reaped, or the finished marks stay. */
  lemma TurnReapsOrKeeps(c: Config, s: State, e: Env)
    requires Inv(c, s) && Legal(c, s, e)
    ensures var s' := Turn(c, s, e); s.finished < s'.finished || (s'.finished == s.finished && s'.done == s.done)
  {
    hide FirstIndex, LiveWeight, Total;
    InvShape(c, s);
  }

  ghost predicate ReapedFrom(st: nat -> State, k: nat) {
    exists m: nat :: k <= m && st(m).finished < st(m + 1).finished
  }

  /** From k on, either a child is reaped, or at j the finished marks are still the same. */
  lemma {:induction false} ReapedOrSame(c: Config, st: nat -> State, env: nat -> Env, k: nat, j: nat)
    requires IsRun(c, st, env) && k <= j
    ensures ReapedFrom(st, k) || (st(j).done == st(k).done && st(j).finished == st(k).finished)
    decreases j - k
  {
    if k < j {
      var i := j - 1;
      ReapedOrSame(c, st, env, k, i);
      RunInv(c, st, env, i);
      RunAt(c, st, env, i);
      hide *;
      TurnReapsOrKeeps(c, st(i), env(i));
      if st(i).finished < st(i + 1).finished {
        ReapedAt(st, k, i);
      }
    }
  }

  lemma RunAt(c: Config, st: nat -> State, env: nat -> Env, k: nat)
    requires IsRun(c, st, env)
    ensures |st(k).done| == |c.suites| && Legal(c, st(k), env(k)) && st(k + 1) == Turn(c, st(k), env(k))
  {
  }

  lemma ReapedAt(st: nat -> State, k: nat, m: nat)
    requires k <= m && st(m).finished < st(m + 1).finished
    ensures ReapedFrom(st, k)
  {
  }

  /** If every child exits sooner or later and waitpid is honest, the run is fair. */
  lemma {:induction false} ExitsMakeFair(c: Config, st: nat -> State, env: nat -> Env, gone: nat -> set<nat>)
    requires IsRun(c, st, env) && HonestWaits(c, st, env, gone) && EveryChildExits(st, gone)
    ensures Fair(st)
  {
    hide IsRun, HonestWaits, EveryChildExits;
    forall k: nat | st(k).running > 0 ensures exists j: nat :: k <= j && st(j).finished < st(j + 1).finished {
      ReapedSometime(c, st, env, gone, k);
    }
  }

  lemma {:induction false} ReapedSometime(c: Config, st: nat -> State, env: nat -> Env, gone: nat -> set<nat>, k: nat)
    requires IsRun(c, st, env) && HonestWaits(c, st, env, gone) && EveryChildExits(st, gone) && st(k).running > 0
    ensures ReapedFrom(st, k)
  {
    RunInv(c, st, env, k);
    var i := SomeoneRuns(c, st(k));
    assert ExitsAfter(gone, k, i);
    var j: nat :| k <= j && i in gone(j);
    ReapedOrSame(c, st, env, k, j);
    if !ReapedFrom(st, k) {
      MeasureMonotone(c, st, env, k, j);
      RunInv(c, st, env, j);
      RunSafe(c, st, env, k);
      RunSafe(c, st, env, j);
      RunAt(c, st, env, j);
      InvShape(c, st(j));
      hide Inv, Turn, Legal, IsRun, EveryChildExits, ExitsAfter, ReapedFrom, Launch;
      WaitReports(c, st(j), env(j), gone(j), i);
      ReapedAt(st, k, j);
    }
  }

  lemma WaitReports(c: Config, s: State, e: Env, gone: set<nat>, i: nat)
    requires Inv(c, s) && Legal(c, s, e) && s.running > 0 && i < s.next && !s.done[i] && i in gone
    requires Honest(Launch(c, s, e.fork), e.wait, gone)
    ensures Turn(c, s, e).finished == s.finished + 1
  {
    hide FirstIndex, LiveWeight, Total;
    InvShape(c, s);
  }

  lemma {:induction false} MeasureMonotone(c: Config, st: nat -> State, env: nat -> Env, k: nat, j: nat)
    requires IsRun(c, st, env) && k <= j
    ensures Measure(c, st(j)) <= Measure(c, st(k)) && st(k).finished <= st(j).finished && st(k).next <= st(j).next
    decreases j - k
  {
    hide Inv, Turn, Legal, Measure;
    if k < j {
      MeasureMonotone(c, st, env, k, j - 1);
      RunInv(c, st, env, j - 1);
      assert st(j - 1 + 1) == Turn(c, st(j - 1), env(j - 1));
      MeasureFalls(c, st(j - 1), env(j - 1));
      TurnGrows(c, st(j - 1), env(j - 1));
    }
  }

  /** Suites are launched one at a time in registry order, and a recorded pid never changes. */
  lemma TurnGrows(c: Config, s: State, e: Env)
    requires Inv(c, s) && Legal(c, s, e)
    ensures s.finished <= Turn(c, s, e).finished
    ensures Turn(c, s, e).next == s.next + if CanLaunch(c, s) then 1 else 0
    ensures Turn(c, s, e).pids == if CanLaunch(c, s) then s.pids[s.next := e.fork] else s.pids
  {
    hide FirstIndex;
    InvShape(c, s);
    LaunchKeepsInv(c, s, e.fork);
    ReapKeepsInv(c, Launch(c, s, e.fork), e.wait);
  }

  /** From any state short of the end, some later state has a smaller measure. */
  lemma {:induction false} Advances(c: Config, st: nat -> State, env: nat -> Env, k: nat) returns (j: nat)
    requires IsRun(c, st, env) && Fair(st) && c.maxProcess >= 1 && st(k).finished < |c.suites|
    ensures k < j && Measure(c, st(j)) < Measure(c, st(k))
  {
    RunInv(c, st, env, k);
    hide Inv, Turn, Legal;
    RunSafe(c, st, env, k);
    if st(k).running > 0 {
      var i: nat :| k <= i && st(i).finished < st(i + 1).finished;
      j := i + 1;
      MeasureMonotone(c, st, env, k, i);
      MeasureMonotone(c, st, env, i, i + 1);
    } else {
      RunningNotNegative(c, st(k));
      LaunchWhenNothingRuns(c, st(k));
      j := k + 1;
      assert st(k + 1) == Turn(c, st(k), env(k));
      MeasureFalls(c, st(k), env(k));
    }
  }

  lemma RunningNotNegative(c: Config, s: State)
    requires Inv(c, s)
    ensures s.running >= 0
  {
    Pigeonhole(s.reaped, s.next);
  }

  /** With a limit of at least 1, a legal and fair run reaps every suite. */
  lemma {:induction false} RunEnds(c: Config, st: nat -> State, env: nat -> Env, k: nat) returns (end: nat)
    requires IsRun(c, st, env) && Fair(st) && c.maxProcess >= 1
    ensures k <= end && st(end).finished == |c.suites|
    decreases Measure(c, st(k))
  {
    RunInv(c, st, env, k);
    RunningNotNegative(c, st(k));
    if st(k).finished == |c.suites| {
      end := k;
    } else {
      var j := Advances(c, st, env, k);
      RunInv(c, st, env, j);
      end := RunEnds(c, st, env, j);
    }
  }

  /** A fair run of a non-empty registry ends if and only if the limit is at least 1. */
  lemma RunEndsExactly(c: Config, st: nat -> State, env: nat -> Env)
    requires IsRun(c, st, env) && Fair(st) && c.NonNegative() && c.suites != []
    ensures (exists k: nat :: st(k).finished == |c.suites|) <==> c.maxProcess >= 1
  {
    hide IsRun, Fair;
    if c.maxProcess >= 1 {
      var end := RunEnds(c, st, env, 0);
    } else {
      forall k: nat ensures st(k).finished != |c.suites| {
        NoLimitNoProgress(c, st, env, k);
      }
    }
  }

  // ----- where the loop stops -----

  /** n turns of the loop. */
  ghost predicate IsPrefix(c: Config, st: nat -> State, env: nat -> Env, n: nat) {
    && st(0) == Start(c)
    && forall k: nat :: k < n ==>
         |st(k).done| == |c.suites| && Legal(c, st(k), env(k)) && st(k + 1) == Turn(c, st(k), env(k))
  }

  lemma {:induction false} PrefixInv(c: Config, st: nat -> State, env: nat -> Env, n: nat)
    requires IsPrefix(c, st, env, n)
    ensures Inv(c, st(n))
  {
    hide Inv, Turn, Legal;
    if n == 0 {
      StartInv(c);
    } else {
      PrefixInv(c, st, env, n - 1);
      assert st(n - 1 + 1) == Turn(c, st(n - 1), env(n - 1));
      TurnKeepsInv(c, st(n - 1), env(n - 1));
    }
  }

  /** The loop condition is tested behind each turn: at least one is made. */
  predicate Ended(c: Config, st: nat -> State, n: nat) {
    n > 0 && st(n).finished >= |c.suites|
  }

  /** The loop is left after n turns: all suites are finished, or fork or waitpid fails in the next turn. */
  ghost predicate Stops(c: Config, st: nat -> State, env: nat -> Env, n: nat) {
    && IsPrefix(c, st, env, n) && (forall k: nat :: k < n ==> !Ended(c, st, k))
    && (Ended(c, st, n) || (|st(n).pids| == |c.suites| && (ForkFails(c, st(n), env(n)) || WaitFails(c, st(n), env(n)))))
  }

  lemma {:induction false} FirstEnd(c: Config, st: nat -> State, k: nat) returns (n: nat)
    requires Ended(c, st, k)
    ensures n <= k && Ended(c, st, n) && forall i: nat :: i < n ==> !Ended(c, st, i)
  {
    n := k;
    if i: nat :| i < k && Ended(c, st, i) {
      n := FirstEnd(c, st, i);
    }
  }

  /** Under a limit of at least 1, if every child exits and neither fork nor waitpid fails, the loop is left
      with all suites finished. */
  lemma LoopStops(c: Config, st: nat -> State, env: nat -> Env, gone: nat -> set<nat>) returns (n: nat)
    requires IsRun(c, st, env) && HonestWaits(c, st, env, gone) && EveryChildExits(st, gone) && c.maxProcess >= 1
    ensures Stops(c, st, env, n) && Ended(c, st, n)
  {
    ExitsMakeFair(c, st, env, gone);
    hide IsRun, HonestWaits, EveryChildExits, Fair;
    var end := RunEnds(c, st, env, 1);
    n := FirstEnd(c, st, end);
    RunPrefix(c, st, env, n);
  }

  lemma RunPrefix(c: Config, st: nat -> State, env: nat -> Env, n: nat)
    requires IsRun(c, st, env)
    ensures IsPrefix(c, st, env, n)
  {
    hide Legal, Turn;
  }

  /** At the end nothing runs, nothing weighs, and every suite has been reaped exactly once. */
  lemma EndState(c: Config, s: State)
    requires Inv(c, s) && s.finished == |c.suites|
    ensures s.running == 0 && s.next == |c.suites| && s.weight == 0
    ensures Distinct(s.reaped) && |s.reaped| == |c.suites|
    ensures forall i: nat :: i < |c.suites| ==> i in s.reaped
  {
    RunningNotNegative(c, s);
    NothingRuns(c, s);
    Pigeonhole(s.reaped, s.next);
  }

  // ----- the failure count -----

  /** The exit code of a child that ran to its end. */
  function ChildExitCode(failed: nat): nat {
    if failed >= 255 then 255 else failed
  }

  /** A child reports its failures, or dies by a signal, or is ended with code 255 by a sanitizer. */
  predicate Truthful(suite: Suite, status: Status) {
    suite.failures <= suite.tests &&
    (status.Signaled? || status.code == 255 || status.code == ChildExitCode(suite.failures))
  }

  lemma CountedIsEnough(suite: Suite, status: Status)
    requires Truthful(suite, status)
    ensures Counted(suite, status) >= suite.failures
    ensures status.Exited? && status.code < 255 ==> Counted(suite, status) == suite.failures
    ensures status.Signaled? || status.code == 255 ==> Counted(suite, status) == suite.tests
  {
  }

  function FailuresOf(c: Config, suites: seq<nat>): nat
    requires forall k :: 0 <= k < |suites| ==> suites[k] < |c.suites|
  {
    if suites == [] then 0
    else
      var n := |suites| - 1;
      assert suites[n] < |c.suites|;
      FailuresOf(c, suites[..n]) + c.suites[suites[n]].failures
  }

  /** The number of failed tests of the first n suites. */
  function TrueFailures(c: Config, n: nat): nat
    requires n <= |c.suites|
  {
    if n == 0 then 0 else TrueFailures(c, n - 1) + c.suites[n - 1].failures
  }

  lemma {:induction false} FailuresWithout(c: Config, xs: seq<nat>, k: nat)
    requires (forall i :: 0 <= i < |xs| ==> xs[i] < |c.suites|) && k < |xs|
    ensures FailuresOf(c, xs) == FailuresOf(c, xs[..k] + xs[k + 1..]) + c.suites[xs[k]].failures
  {
    var n := |xs| - 1;
    if k == n {
      assert xs[..k] + xs[k + 1..] == xs[..n];
    } else {
      FailuresWithout(c, xs[..n], k);
      var ys := xs[..k] + xs[k + 1..];
      assert ys[..n - 1] == xs[..n][..k] + xs[..n][k + 1..] && ys[n - 1] == xs[n];
    }
  }

  lemma RemoveDistinct(xs: seq<nat>, n: nat, k: nat)
    requires Distinct(xs) && k < |xs| == n && xs[k] == n - 1 && forall i :: 0 <= i < n ==> xs[i] < n
    ensures var ys := xs[..k] + xs[k + 1..];
            Distinct(ys) && |ys| == n - 1 && forall i :: 0 <= i < n - 1 ==> ys[i] < n - 1
  {
    var ys := xs[..k] + xs[k + 1..];
    assert forall i :: 0 <= i < n - 1 ==> ys[i] == if i < k then xs[i] else xs[i + 1];
  }

  /** Adding up in the order of reaping is adding up over all suites. */
  lemma {:induction false} FailuresOfAll(c: Config, xs: seq<nat>, n: nat)
    requires n <= |c.suites| && Distinct(xs) && |xs| == n && forall i :: 0 <= i < n ==> xs[i] < n
    ensures FailuresOf(c, xs) == TrueFailures(c, n)
  {
    hide Distinct, FailuresOf;
    if n > 0 {
      Pigeonhole(xs, n);
      assert n - 1 in xs;
      var k :| 0 <= k < n && xs[k] == n - 1;
      FailuresWithout(c, xs, k);
      RemoveDistinct(xs, n, k);
      FailuresOfAll(c, xs[..k] + xs[k + 1..], n - 1);
    } else {
      assert FailuresOf(c, xs) == 0 by { NoFailures(c, xs); }
    }
  }

  lemma NoFailures(c: Config, xs: seq<nat>)
    requires xs == []
    ensures FailuresOf(c, xs) == 0
  {
  }

  lemma {:induction false} TotalIsEnough(c: Config, reaped: seq<nat>, statuses: seq<Status>)
    requires |reaped| == |statuses| && forall i :: 0 <= i < |reaped| ==> reaped[i] < |c.suites|
    requires forall i :: 0 <= i < |reaped| ==> Truthful(c.suites[reaped[i]], statuses[i])
    ensures Total(c, reaped, statuses) >= FailuresOf(c, reaped)
    ensures (forall i :: 0 <= i < |reaped| ==> statuses[i].Exited? && statuses[i].code < 255) ==>
              Total(c, reaped, statuses) == FailuresOf(c, reaped)
  {
    if reaped != [] {
      var n := |reaped| - 1;
      TotalIsEnough(c, reaped[..n], statuses[..n]);
      CountedIsEnough(c.suites[reaped[n]], statuses[n]);
    }
  }

  predicate AllTruthful(c: Config, s: State) {
    |s.reaped| == |s.statuses| &&
    forall i :: 0 <= i < |s.reaped| ==> s.reaped[i] < |c.suites| && Truthful(c.suites[s.reaped[i]], s.statuses[i])
  }

  predicate AllNormal(s: State) {
    forall i :: 0 <= i < |s.statuses| ==> s.statuses[i].Exited? && s.statuses[i].code < 255
  }

  /** The end of the child of suite i adds its exit code, or all tests of the suite after a signal or code 255,
      and releases one place. */
  lemma ReapAdds(c: Config, s: State, i: nat, st: Status)
    requires Inv(c, s) && i < s.next && !s.done[i] && s.running > 0
    ensures s.pids[i] in s.pids
    ensures var s' := Reap(c, s, Child(s.pids[i], st));
            && s'.ret == s.ret + (if st.Exited? && st.code != 255 then st.code else c.suites[i].tests)
            && s'.running == s.running - 1 && s'.finished == s.finished + 1 && s'.reaped == s.reaped + [i]
  {
    LookupIsExact(s, i);
    hide FirstIndex, Total, LiveWeight;
  }

  /** The parent never counts fewer failures than there were, and counts exactly when every suite ended
      normally with fewer than 255. */
  lemma NeverUndercounts(c: Config, s: State)
    requires Inv(c, s) && s.finished == |c.suites| && AllTruthful(c, s)
    ensures s.ret >= TrueFailures(c, |c.suites|)
    ensures AllNormal(s) ==> s.ret == TrueFailures(c, |c.suites|)
  {
    EndState(c, s);
    TotalIsEnough(c, s.reaped, s.statuses);
    FailuresOfAll(c, s.reaped, |c.suites|);
  }

  /** Under a limit of at least 1, if every child exits and neither fork nor waitpid fails, the loop is left in
      a state in which every suite has been reaped exactly once and no failure is left out of the count. */
  lemma RunReports(c: Config, st: nat -> State, env: nat -> Env, gone: nat -> set<nat>) returns (n: nat)
    requires IsRun(c, st, env) && HonestWaits(c, st, env, gone) && EveryChildExits(st, gone) && c.maxProcess >= 1
    ensures Stops(c, st, env, n) && Ended(c, st, n)
    ensures st(n).running == 0 && st(n).weight == 0
    ensures Distinct(st(n).reaped) && forall i: nat :: i < |c.suites| ==> i in st(n).reaped
    ensures AllTruthful(c, st(n)) ==> st(n).ret >= TrueFailures(c, |c.suites|)
    ensures AllTruthful(c, st(n)) && AllNormal(st(n)) ==> st(n).ret == TrueFailures(c, |c.suites|)
  {
    n := LoopStops(c, st, env, gone);
    RunInv(c, st, env, n);
    hide IsRun, HonestWaits, EveryChildExits, Stops, AllTruthful, AllNormal;
    FinishedBound(c, st(n));
    EndState(c, st(n));
    if AllTruthful(c, st(n)) {
      NeverUndercounts(c, st(n));
    }
  }

  /** The global timeout, an hour if none is set, in milliseconds. */
  function TimeoutMs(globalTimeout: nat): nat {
    (if globalTimeout == 0 then 60 * 60 else globalTimeout) * 1000
  }

  /** An hour by default, otherwise so many seconds. */
  lemma TimeoutMsIs(globalTimeout: nat)
    ensures TimeoutMs(0) == 3_600_000
    ensures globalTimeout > 0 ==> TimeoutMs(globalTimeout) == 1000 * globalTimeout
  {
  }

  /** The value returned by bc_tester_run_parallel. */
  function Verdict(ret: int, timedOut: bool, threshold: int): int {
    var ret := if timedOut then -1 else ret;
    if ret != -1 then (if ret > threshold then 1 else 0) else -1
  }

  /** A run reported as good had at most the tolerated number of failures. */
  lemma GoodVerdict(c: Config, s: State, timedOut: bool, threshold: int)
    requires Inv(c, s) && s.finished == |c.suites| && AllTruthful(c, s)
    ensures Verdict(s.ret, timedOut, threshold) == -1 <==> timedOut
    ensures Verdict(s.ret, timedOut, threshold) == 0 ==> !timedOut && TrueFailures(c, |c.suites|) <= threshold
    ensures AllNormal(s) ==>
              (Verdict(s.ret, timedOut, threshold) == 0 <==> !timedOut && TrueFailures(c, |c.suites|) <= threshold)
    ensures Verdict(s.ret, timedOut, threshold) == 1 <==> !timedOut && s.ret > threshold
    ensures -1 <= Verdict(s.ret, timedOut, threshold) <= 1
  {
    NeverUndercounts(c, s);
  }

  // ----- why pids must not repeat -----

  /** If fork hands out the pid of a finished suite i again, the new suite's end is booked on i: its weight
      is released wrongly unless both weigh the same, and its entry is never marked finished. */
  lemma ReusedPid(c: Config, s: State, i: nat, st: Status)
    requires Inv(c, s) && CanLaunch(c, s) && i < s.next && s.done[i]
    ensures var s1 := Launch(c, s, s.pids[i]);
            && s1.running > 0 && s.pids[i] in s1.pids
            && var s2 := Reap(c, s1, Child(s.pids[i], st));
            && s2.weight == s.weight + c.Weight(s.next) - c.Weight(i)
            && !s2.done[s.next] && s2.done == s.done
            && s2.ret == s.ret + Counted(c.suites[i], st)
  {
    hide Config.Weight, Counted;
    RunningNotNegative(c, s);
    var s1 := Launch(c, s, s.pids[i]);
    assert s1.pids[i] == s.pids[i];
    assert s.pids[i] in s1.pids;
    var r := FirstIndex(s1.pids, s.pids[i]).value;
    assert r == i;
    assert s.done[i := true] == s.done;
  }

  lemma WeightNotZero(c: Config, i: nat)
    requires i < |c.suites|
    ensures c.Weight(i) != 0
  {
  }

  /** The accounts survive a launch if and only if the pid is new in the run. */
  lemma LaunchInvExactly(c: Config, s: State, pid: int)
    requires Inv(c, s) && CanLaunch(c, s) && pid > 0
    ensures Inv(c, Launch(c, s, pid)) <==> pid !in s.pids
  {
    if pid in s.pids {
      var i :| 0 <= i < |s.pids| && s.pids[i] == pid;
      var s1 := Launch(c, s, pid);
      assert s1.pids[i] == s1.pids[s.next] && i < s.next;
    } else {
      LaunchKeepsInv(c, s, pid);
    }
  }

  /** When the new child ends, the weight is right again if and only if its pid is not that of a finished suite. */
  lemma ReusedPidExactly(c: Config, s: State, pid: int, st: Status)
    requires Inv(c, s) && CanLaunch(c, s) && pid > 0
    requires forall i :: 0 <= i < s.next && s.pids[i] == pid ==> s.done[i]
    ensures var s1 := Launch(c, s, pid);
            && s1.running > 0 && pid in s1.pids && |s1.done| == |c.suites|
            && var s2 := Reap(c, s1, Child(pid, st));
            && (s2.weight == LiveWeight(c, s2.done, s2.next) <==> pid !in s.pids)
            && (s2.done[s.next] <==> pid !in s.pids)
  {
    if pid in s.pids {
      BookedWrongly(c, s, pid, st);
    } else {
      BookedRightly(c, s, pid, st);
    }
  }

  lemma BookedWrongly(c: Config, s: State, pid: int, st: Status)
    requires Inv(c, s) && CanLaunch(c, s) && pid > 0 && pid in s.pids
    requires forall i :: 0 <= i < s.next && s.pids[i] == pid ==> s.done[i]
    ensures var s1 := Launch(c, s, pid);
            && s1.running > 0 && pid in s1.pids && |s1.done| == |c.suites|
            && var s2 := Reap(c, s1, Child(pid, st));
            s2.weight != LiveWeight(c, s2.done, s2.next) && !s2.done[s.next]
  {
    var r := FirstIndex(s.pids, pid).value;
    ReusedPid(c, s, r, st);
    WeightNotZero(c, r);
    hide Config.Weight, Counted, FirstIndex, Total;
    assert LiveWeight(c, s.done, s.next + 1) == LiveWeight(c, s.done, s.next) + c.Weight(s.next);
  }

  lemma BookedRightly(c: Config, s: State, pid: int, st: Status)
    requires Inv(c, s) && CanLaunch(c, s) && pid > 0 && pid !in s.pids
    ensures var s1 := Launch(c, s, pid);
            && s1.running > 0 && pid in s1.pids && |s1.done| == |c.suites|
            && var s2 := Reap(c, s1, Child(pid, st));
            s2.weight == LiveWeight(c, s2.done, s2.next) && s2.done[s.next]
  {
    hide Config.Weight, Counted, FirstIndex, LiveWeight, Total;
    RunningNotNegative(c, s);
    var s1 := Launch(c, s, pid);
    assert s1.pids[s.next] == pid && !s1.done[s.next];
    LaunchKeepsInv(c, s, pid);
    LookupIsExact(s1, s.next);
    ReapKeepsInv(c, s1, Child(pid, st));
  }

  /** Such a state is reached, and it can be fatal: under a limit of 2, suites of weight 1, 2 and 2. The first
      runs as pid 7 and is reaped; the second runs as pid 7 again and is booked on the first when it ends. A
      weight of 1 stays on the books although nothing runs, so the third suite is never launched. */
  lemma ReusedPidHangs(t: Suite, e: Env) returns (c: Config, s1: State, s2: State)
    ensures c == Config([t.(weight := 1), t.(weight := 2), t.(weight := 2)], 2)
    ensures Legal(c, Start(c), Env(7, Child(7, Exited(0)))) && s1 == Turn(c, Start(c), Env(7, Child(7, Exited(0))))
    ensures Inv(c, s1) && CanLaunch(c, s1) && s1.done[0] && s1.pids[0] == 7
    ensures 7 in Launch(c, s1, 7).pids && |s1.done| == 3 && s2 == Reap(c, Launch(c, s1, 7), Child(7, Exited(0)))
    ensures s2.finished == 2 < |c.suites| && s2.running == 0 && |s2.pids| == |s2.done| == 3
    ensures Launch(c, s2, e.fork) == s2 && Reap(c, s2, e.wait) == s2
  {
    hide FirstIndex;
    c := Config([t.(weight := 1), t.(weight := 2), t.(weight := 2)], 2);
    var s0, e0 := Start(c), Env(7, Child(7, Exited(0)));
    StartInv(c);
    var l0 := Launch(c, s0, 7);
    assert l0.pids == [7, 0, 0] && l0.pids[0] == 7 && !l0.done[0];
    assert Legal(c, s0, e0);
    s1 := Turn(c, s0, e0);
    TurnKeepsInv(c, s0, e0);
    var r0 := FirstIndex(l0.pids, 7).value;
    assert s1.pids == [7, 0, 0] && s1.done == [true, false, false] && s1.weight == 0;
    var l1 := Launch(c, s1, 7);
    assert l1.pids == [7, 7, 0] && l1.pids[0] == 7;
    s2 := Reap(c, l1, Child(7, Exited(0)));
    var r1 := FirstIndex(l1.pids, 7).value;
    assert s2.weight == 1;
  }

  // ----- the code -----

  class Runner {
    const c: Config
    var nextSuite: nat
    var runningSuites: int
    var testsFinished: int
    var suitesCpuWeight: int
    var ret: int
    const pids: array<int>
    const finished: array<bool>
    ghost var reaped: seq<nat>
    ghost var statuses: seq<Status>

    ghost predicate Valid()
      reads this, pids, finished
    {
      pids.Length == finished.Length == |c.suites|
    }

    ghost function Abs(): State
      reads this, pids, finished
    {
      State(nextSuite, runningSuites, testsFinished, suitesCpuWeight, ret, pids[..], finished[..], reaped, statuses)
    }

    constructor (config: Config)
      ensures Valid() && c == config && Abs() == Start(config) && fresh(pids) && fresh(finished)
    {
      c := config;
      nextSuite, runningSuites, testsFinished, suitesCpuWeight, ret := 0, 0, 0, 0, 0;
      pids := new int[|config.suites|](_ => 0);
      finished := new bool[|config.suites|](_ => false);
      reaped, statuses := [], [];
      new;
      assert pids[..] == Start(config).pids && finished[..] == Start(config).done;
    }

    method CpuWeight(i: nat) returns (w: int)
      requires i < |c.suites|
      ensures w == c.Weight(i) != 0
      ensures 1 <= w <= c.maxProcess <==> c.suites[i].weight >= 0 && c.maxProcess >= 1
      ensures 1 <= c.suites[i].weight <= c.maxProcess ==> w == c.suites[i].weight
      ensures c.suites[i].weight == 0 || c.suites[i].weight > c.maxProcess ==> w == 1
    {
      w := if c.suites[i].weight == 0 then 1 else c.suites[i].weight;
      if w > c.maxProcess {
        w := 1;
      }
    }

    method LookupSuite(pid: int) returns (index: nat)
      requires Valid() && pid in pids[..]
      ensures FirstIndex(pids[..], pid) == Some(index)
    {
      index := 0;
      while pids[index] != pid
        invariant index < pids.Length && pid !in pids[..index]
        decreases pids.Length - index
      {
        var k :| 0 <= k < pids.Length && pids[k] == pid;
        assert k != index && k >= index;
        index := index + 1;
      }
      FirstIndexIs(pids[..], pid, index);
    }

    method TryLaunch(fork: int) returns (failed: bool)
      requires Valid()
      modifies this, pids
      ensures Valid() && failed == (CanLaunch(c, old(Abs())) && fork == -1)
      ensures Abs() == if failed then old(Abs()) else Launch(c, old(Abs()), fork)
    {
      failed := false;
      if nextSuite < |c.suites| {
        var w := CpuWeight(nextSuite);
        if suitesCpuWeight + w <= c.maxProcess {
          if fork == -1 {
            return true;
          }
          pids[nextSuite] := fork;
          runningSuites := runningSuites + 1;
          suitesCpuWeight := suitesCpuWeight + w;
          nextSuite := nextSuite + 1;
        }
      }
    }

    method TryReap(wait: Wait) returns (failed: bool)
      requires Valid() && (runningSuites > 0 && wait.Child? ==> wait.pid in pids[..])
      modifies this, finished
      ensures Valid() && failed == (old(runningSuites) > 0 && wait.WaitFailed?)
      ensures Abs() == Reap(c, old(Abs()), wait)
    {
      failed := runningSuites > 0 && wait.WaitFailed?;
      if runningSuites > 0 && wait.Child? {
        var index := LookupSuite(wait.pid);
        var w := CpuWeight(index);
        suitesCpuWeight := suitesCpuWeight - w;
        finished[index] := true;
        runningSuites := runningSuites - 1;
        testsFinished := testsFinished + 1;
        var childRet: int;
        if wait.status.Signaled? || wait.status.code == 255 {
          childRet := c.suites[index].tests;
        } else {
          childRet := wait.status.code;
        }
        ret := ret + childRet;
        reaped, statuses := reaped + [index], statuses + [wait.status];
      }
    }

    /** One turn; a failing fork or waitpid ends the function with -1. */
    method OneTurn(e: Env) returns (aborted: bool)
      requires Valid() && Inv(c, Abs())
      requires ForkFails(c, Abs(), e) || WaitFails(c, Abs(), e) || Legal(c, Abs(), e)
      modifies this, pids, finished
      ensures Valid() && aborted == (ForkFails(c, old(Abs()), e) || WaitFails(c, old(Abs()), e))
      ensures ForkFails(c, old(Abs()), e) ==> Abs() == old(Abs())
      ensures WaitFails(c, old(Abs()), e) ==> Abs() == Launch(c, old(Abs()), e.fork)
      ensures !aborted ==> Abs() == Turn(c, old(Abs()), e)
    {
      ghost var s := Abs();
      if Legal(c, s, e) {
        LegalReap(c, s, e);
      }
      hide Inv, Launch;
      aborted := TryLaunch(e.fork);
      if !aborted {
        aborted := TryReap(e.wait);
      }
    }

    /** The whole function: the loop is left after n turns, and what it returns says how. The clock is read
        before the first turn and after each one. */
    method RunParallel(env: nat -> Env, clock: nat -> nat, globalTimeout: nat, threshold: int,
                       ghost st: nat -> State, ghost n: nat)
      returns (result: int)
      requires Valid() && Abs() == Start(c) && Stops(c, st, env, n)
      modifies this, pids, finished
      ensures Valid()
      ensures Ended(c, st, n) ==>
                && Abs() == st(n) && testsFinished == |c.suites|
                && result == Verdict(ret, clock(n) >= clock(0) + TimeoutMs(globalTimeout), threshold)
      ensures !Ended(c, st, n) ==> result == -1
    {
      hide Inv, Turn, Legal, IsPrefix, ForkFails, WaitFails, Runner.Abs;
      var timeout := clock(0) + TimeoutMs(globalTimeout);
      var k: nat := 0;
      PrefixAt(c, st, env, n, 0);
      while true
        invariant Valid() && Abs() == st(k) && k <= n && !Ended(c, st, k)
        decreases n - k
      {
        PrefixAt(c, st, env, n, k);
        var aborted := OneTurn(env(k));
        if aborted {
          return -1;
        }
        k := k + 1;
        assert Abs() == st(k);
        PrefixAt(c, st, env, n, k);
        FinishedBound(c, st(k));
        AbsFields();
        if testsFinished >= |c.suites| {
          assert Ended(c, st, k);
          break;
        }
      }
      result := Verdict(ret, clock(k) >= timeout, threshold);
    }

    lemma AbsFields()
      ensures Abs().finished == testsFinished && Abs().ret == ret
    {
    }
  }

  /** The state after k of n turns, and what comes next. */
  lemma PrefixAt(c: Config, st: nat -> State, env: nat -> Env, n: nat, k: nat)
    requires IsPrefix(c, st, env, n) && k <= n
    ensures st(0) == Start(c) && Inv(c, st(k)) && |st(k).pids| == |c.suites| == |st(k).done|
    ensures k < n ==> && Legal(c, st(k), env(k)) && st(k + 1) == Turn(c, st(k), env(k))
                      && !ForkFails(c, st(k), env(k)) && !WaitFails(c, st(k), env(k))
  {
    PrefixInv(c, st, env, k);
    if k < n {
      hide Inv, Turn;
      LegalNeverFails(c, st(k), env(k));
    }
    InvShape(c, st(k));
  }

  lemma LegalReap(c: Config, s: State, e: Env)
    requires Inv(c, s) && Legal(c, s, e)
    ensures var s1 := Launch(c, s, e.fork); s1.running > 0 && e.wait.Child? ==> e.wait.pid in s1.pids
  {
    hide Inv, Launch;
    LaunchKeepsInv(c, s, e.fork);
    ReapKeepsInv(c, Launch(c, s, e.fork), e.wait);
  }

  lemma LegalNeverFails(c: Config, s: State, e: Env)
    requires Legal(c, s, e)
    ensures !ForkFails(c, s, e) && !WaitFails(c, s, e)
  {
  }

  lemma FinishedBound(c: Config, s: State)
    requires Inv(c, s)
    ensures 0 <= s.finished <= |c.suites|
  {
    RunningNotNegative(c, s);
  }

  lemma FirstIndexIs(pids: seq<int>, pid: int, i: nat)
    requires i < |pids| && pids[i] == pid && pid !in pids[..i]
    ensures FirstIndex(pids, pid) == Some(i)
  {
    hide FirstIndex;
    assert pid in pids;
    var r := FirstIndex(pids, pid).value;
  }
}
