/** The parallel scheduler of src/tester.c when fork may hand out the pids of finished suites again: for which
    registries the loop still ends. */
module PidReuse {
  import opened Options
  import opened Scheduler

  /** The loop's state, and which of the launched processes have really ended. */
  datatype World = World(s: State, ended: seq<bool>)

  function Begin(c: Config): World {
    World(Start(c), seq(|c.suites|, _ => false))
  }

  /** The process that a pid names now: the last one launched under it. */
  function Holder(pids: seq<int>, pid: int): (i: nat)
    requires pid in pids
    ensures i < |pids| && pids[i] == pid && forall j :: i < j < |pids| ==> pids[j] != pid
  {
    var n := |pids| - 1;
    if pids[n] == pid then n
    else
      assert pids == pids[..n] + [pids[n]];
      Holder(pids[..n], pid)
  }

  // ----- turns -----

  predicate Shape(c: Config, w: World) {
    |w.s.pids| == |w.s.done| == |w.ended| == |c.suites| && w.s.next <= |c.suites|
  }

  /** fork gives a pid that no running child has; waitpid reports a child that is running. */
  predicate LegalTurn(c: Config, w: World, e: Env) {
    && Shape(c, w)
    && (CanLaunch(c, w.s) ==> e.fork > 0 && forall i :: 0 <= i < w.s.next && w.s.pids[i] == e.fork ==> w.ended[i])
    && var s1 := Launch(c, w.s, e.fork);
       s1.running > 0 ==>
         && !e.wait.WaitFailed?
         && (e.wait.Child? ==> e.wait.pid > 0 && e.wait.pid in s1.pids && !w.ended[Holder(s1.pids, e.wait.pid)])
  }

  function End(c: Config, w: World, wait: Wait): World
    requires Shape(c, w)
    requires w.s.running > 0 && wait.Child? ==> wait.pid in w.s.pids
  {
    World(Reap(c, w.s, wait),
          if w.s.running > 0 && wait.Child? then w.ended[Holder(w.s.pids, wait.pid) := true] else w.ended)
  }

  function Step(c: Config, w: World, e: Env): World
    requires LegalTurn(c, w, e)
  {
    End(c, World(Launch(c, w.s, e.fork), w.ended), e.wait)
  }

  // ----- the books -----

  /** The entry on which the end of suite i is booked. */
  function BookedOn(pids: seq<int>, i: nat): (j: nat)
    requires i < |pids|
    ensures j <= i && pids[j] == pids[i]
  {
    FirstIndex(pids, pids[i]).value
  }

  /** The weight on the books for the first k suites. */
  function Booked(c: Config, pids: seq<int>, ended: seq<bool>, k: nat): int
    requires k <= |pids| == |ended| == |c.suites|
  {
    if k == 0 then 0
    else Booked(c, pids, ended, k - 1) + c.Weight(k - 1)
         - if ended[k - 1] then c.Weight(BookedOn(pids, k - 1)) else 0
  }

  function Count(ended: seq<bool>, k: nat): (n: nat)
    requires k <= |ended|
    ensures n <= k
  {
    if k == 0 then 0 else Count(ended, k - 1) + if ended[k - 1] then 1 else 0
  }

  predicate PidsSound(w: World)
    requires w.s.next <= |w.s.pids| == |w.ended|
  {
    && (forall i :: 0 <= i < w.s.next ==> w.s.pids[i] > 0)
    && (forall i :: w.s.next <= i < |w.s.pids| ==> w.s.pids[i] == 0 && !w.ended[i])
  }

  predicate Sound(c: Config, w: World) {
    && Shape(c, w) && PidsSound(w)
    && w.s.finished == Count(w.ended, w.s.next) && w.s.running + w.s.finished == w.s.next
    && w.s.weight == Booked(c, w.s.pids, w.ended, w.s.next)
  }

  lemma BeginSound(c: Config)
    ensures Sound(c, Begin(c))
  {
  }

  lemma SameEntry(pids: seq<int>, n: nat, pid: int, i: nat)
    requires i < n < |pids|
    ensures BookedOn(pids[n := pid], i) == BookedOn(pids, i)
  {
    hide FirstIndex;
    var j := BookedOn(pids, i);
    assert forall k :: 0 <= k < j ==> pids[k] != pids[i];
    FirstIndexIs(pids[n := pid], pids[i], j);
  }

  lemma {:induction false} BookedLaunch(c: Config, pids: seq<int>, ended: seq<bool>, n: nat, pid: int, k: nat)
    requires k <= n < |pids| == |ended| == |c.suites|
    ensures Booked(c, pids[n := pid], ended, k) == Booked(c, pids, ended, k)
  {
    hide BookedOn, Config.Weight;
    if k > 0 {
      BookedLaunch(c, pids, ended, n, pid, k - 1);
      SameEntry(pids, n, pid, k - 1);
    }
  }

  lemma {:induction false} BookedEnd(c: Config, pids: seq<int>, ended: seq<bool>, h: nat, k: nat)
    requires k <= |pids| == |ended| == |c.suites| && h < |pids| && !ended[h]
    ensures Booked(c, pids, ended[h := true], k)
         == Booked(c, pids, ended, k) - if h < k then c.Weight(BookedOn(pids, h)) else 0
    ensures Count(ended[h := true], k) == Count(ended, k) + if h < k then 1 else 0
  {
    hide BookedOn, Config.Weight;
    if k > 0 {
      BookedEnd(c, pids, ended, h, k - 1);
    }
  }

  lemma LaunchSound(c: Config, w: World, pid: int)
    requires Sound(c, w) && (CanLaunch(c, w.s) ==> pid > 0)
    ensures Sound(c, World(Launch(c, w.s, pid), w.ended))
  {
    hide BookedOn, Config.Weight;
    if CanLaunch(c, w.s) {
      BookedLaunch(c, w.s.pids, w.ended, w.s.next, pid, w.s.next);
    }
  }

  lemma EndSound(c: Config, w: World, wait: Wait)
    requires Sound(c, w)
    requires w.s.running > 0 && wait.Child? ==>
               wait.pid > 0 && wait.pid in w.s.pids && !w.ended[Holder(w.s.pids, wait.pid)]
    ensures Sound(c, End(c, w, wait))
  {
    hide Holder, Config.Weight, Counted, Booked, Count;
    if w.s.running > 0 && wait.Child? {
      var h := Holder(w.s.pids, wait.pid);
      assert h < w.s.next;
      BookedEnd(c, w.s.pids, w.ended, h, w.s.next);
      assert BookedOn(w.s.pids, h) == FirstIndex(w.s.pids, wait.pid).value;
    }
  }

  /** Every turn keeps the books: each suite carries its own weight, and an ended one has released the weight of
      the first suite with its pid. */
  lemma StepSound(c: Config, w: World, e: Env)
    requires Sound(c, w) && LegalTurn(c, w, e)
    ensures Sound(c, Step(c, w, e))
  {
    hide Sound, Holder;
    LaunchSound(c, w, e.fork);
    EndSound(c, World(Launch(c, w.s, e.fork), w.ended), e.wait);
  }

  // ----- the most that reused pids can leave on the books -----

  /** The first of the lightest suites up to i. */
  function Lightest(c: Config, i: nat): (a: nat)
    requires i < |c.suites|
    ensures a <= i
  {
    if i == 0 then 0
    else
      var a := Lightest(c, i - 1);
      if c.Weight(i) < c.Weight(a) then i else a
  }

  lemma {:induction false} LightestIsLeast(c: Config, i: nat, j: nat)
    requires j <= i < |c.suites|
    ensures c.Weight(Lightest(c, i)) <= c.Weight(j)
  {
    if j < i {
      LightestIsLeast(c, i - 1, j);
    }
  }

  lemma {:induction false} LightestAgain(c: Config, i: nat)
    requires i < |c.suites|
    ensures Lightest(c, Lightest(c, i)) == Lightest(c, i)
  {
    if i > 0 {
      LightestAgain(c, i - 1);
    }
  }

  /** The weight left when each of the first k suites ends on the books of the lightest one so far. */
  function Leak(c: Config, k: nat): int
    requires k <= |c.suites|
  {
    if k == 0 then 0 else Leak(c, k - 1) + c.Weight(k - 1) - c.Weight(Lightest(c, k - 1))
  }

  /** Even with the largest leak, each suite is admitted once nothing runs. */
  predicate Fits(c: Config) {
    forall k {:trigger Leak(c, k)} :: 0 <= k < |c.suites| ==> Leak(c, k) + c.Weight(k) <= c.maxProcess
  }

  lemma {:induction false} AllEnded(ended: seq<bool>, k: nat)
    requires k <= |ended| && Count(ended, k) == k
    ensures forall i :: 0 <= i < k ==> ended[i]
  {
    if k > 0 {
      AllEnded(ended, k - 1);
    }
  }

  lemma {:induction false} BookedAtMostLeak(c: Config, pids: seq<int>, ended: seq<bool>, k: nat)
    requires k <= |pids| == |ended| == |c.suites| && forall i :: 0 <= i < k ==> ended[i]
    ensures Booked(c, pids, ended, k) <= Leak(c, k)
  {
    hide BookedOn, Config.Weight, Lightest;
    if k > 0 {
      BookedAtMostLeak(c, pids, ended, k - 1);
      LightestIsLeast(c, k - 1, BookedOn(pids, k - 1));
    }
  }

  /** When nothing runs, at most the leak is on the books. */
  lemma IdleWeight(c: Config, w: World)
    requires Sound(c, w) && w.s.running == 0
    ensures w.s.finished == w.s.next && w.s.weight <= Leak(c, w.s.next)
    ensures forall i :: 0 <= i < w.s.next ==> w.ended[i]
  {
    hide Leak, Booked;
    AllEnded(w.ended, w.s.next);
    BookedAtMostLeak(c, w.s.pids, w.ended, w.s.next);
  }

  // ----- runs -----

  ghost predicate IsReuseRun(c: Config, ws: nat -> World, env: nat -> Env) {
    && ws(0) == Begin(c)
    && forall k: nat :: LegalTurn(c, ws(k), env(k)) && ws(k + 1) == Step(c, ws(k), env(k))
  }

  /** As long as a child runs, some child is reaped sooner or later. */
  ghost predicate FairReuse(ws: nat -> World) {
    forall k: nat :: ws(k).s.running > 0 ==> exists j: nat :: k <= j && ws(j).s.finished < ws(j + 1).s.finished
  }

  ghost predicate Finishes(c: Config, ws: nat -> World) {
    exists k: nat :: ws(k).s.finished == |c.suites|
  }

  lemma RunTurn(c: Config, ws: nat -> World, env: nat -> Env, k: nat)
    requires IsReuseRun(c, ws, env)
    ensures LegalTurn(c, ws(k), env(k)) && ws(k + 1) == Step(c, ws(k), env(k))
  {
  }

  lemma {:induction false} ReuseSound(c: Config, ws: nat -> World, env: nat -> Env, k: nat)
    requires IsReuseRun(c, ws, env)
    ensures Sound(c, ws(k))
  {
    hide Sound, LegalTurn, Step;
    if k == 0 {
      BeginSound(c);
    } else {
      ReuseSound(c, ws, env, k - 1);
      RunTurn(c, ws, env, k - 1);
      StepSound(c, ws(k - 1), env(k - 1));
    }
  }

  lemma StepGrows(c: Config, w: World, e: Env)
    requires LegalTurn(c, w, e)
    ensures Step(c, w, e).s.next == w.s.next + if CanLaunch(c, w.s) then 1 else 0
    ensures Step(c, w, e).s.finished >= w.s.finished
  {
    hide Holder, FirstIndex, Counted;
  }

  lemma {:induction false} ReuseMonotone(c: Config, ws: nat -> World, env: nat -> Env, k: nat, j: nat)
    requires IsReuseRun(c, ws, env) && k <= j
    ensures ws(k).s.next <= ws(j).s.next && ws(k).s.finished <= ws(j).s.finished
    decreases j - k
  {
    if k < j {
      ReuseMonotone(c, ws, env, k, j - 1);
      RunTurn(c, ws, env, j - 1);
      hide *;
      StepGrows(c, ws(j - 1), env(j - 1));
    }
  }

  lemma SoundCounts(c: Config, w: World)
    requires Sound(c, w)
    ensures 0 <= w.s.finished <= w.s.next <= |c.suites| && w.s.running == w.s.next - w.s.finished
  {
  }

  /** From any state short of the end, a later one is nearer to it. */
  lemma ReuseAdvances(c: Config, ws: nat -> World, env: nat -> Env, k: nat) returns (j: nat)
    requires IsReuseRun(c, ws, env) && FairReuse(ws) && Fits(c) && ws(k).s.finished < |c.suites|
    ensures k < j && ws(k).s.next + ws(k).s.finished < ws(j).s.next + ws(j).s.finished
  {
    var w := ws(k);
    ReuseSound(c, ws, env, k);
    SoundCounts(c, w);
    if w.s.running > 0 {
      var i: nat :| k <= i && ws(i).s.finished < ws(i + 1).s.finished;
      j := i + 1;
      hide *;
      ReuseMonotone(c, ws, env, k, i);
      ReuseMonotone(c, ws, env, i, i + 1);
    } else {
      IdleWeight(c, w);
      j := k + 1;
      RunTurn(c, ws, env, k);
      assert Leak(c, w.s.next) + c.Weight(w.s.next) <= c.maxProcess;
      assert CanLaunch(c, w.s);
      hide *;
      StepGrows(c, w, env(k));
    }
  }

  lemma {:induction false} ReuseEnds(c: Config, ws: nat -> World, env: nat -> Env, k: nat)
    requires IsReuseRun(c, ws, env) && FairReuse(ws) && Fits(c)
    ensures Finishes(c, ws)
    decreases 2 * |c.suites| - ws(k).s.next - ws(k).s.finished
  {
    ReuseSound(c, ws, env, k);
    SoundCounts(c, ws(k));
    if ws(k).s.finished < |c.suites| {
      hide IsReuseRun, FairReuse, Fits, Sound;
      var j := ReuseAdvances(c, ws, env, k);
      ReuseSound(c, ws, env, j);
      SoundCounts(c, ws(j));
      ReuseEnds(c, ws, env, j);
    }
  }

  // ----- the run that leaks most: one suite after the other, under the pid of the lightest one -----

  predicate SoloAt(c: Config, k: nat, w: World) {
    && Sound(c, w) && w.s.next == k && w.s.running == 0 && w.s.weight == Leak(c, k)
    && forall i :: 0 <= i < k ==> w.s.pids[i] == Lightest(c, i) + 1
  }

  /** Suite k, launched under the pid of the lightest one so far, will be booked on that one. */
  lemma {:induction false} SoloPids(c: Config, pids: seq<int>, k: nat)
    requires k < |pids| == |c.suites| && pids[k] == Lightest(c, k) + 1
    requires forall i :: 0 <= i < k ==> pids[i] == Lightest(c, i) + 1
    requires forall i :: k < i < |pids| ==> pids[i] == 0
    ensures var pid := Lightest(c, k) + 1;
            pid in pids && Holder(pids, pid) == k && FirstIndex(pids, pid) == Some(Lightest(c, k))
  {
    var a := Lightest(c, k);
    LightestAgain(c, k);
    hide Lightest, Holder, FirstIndex;
    assert pids[a] == a + 1;
    assert pids[k] in pids && a + 1 in pids;
    assert forall i :: 0 <= i < a ==> pids[i] != a + 1;
    var h := Holder(pids, a + 1);
    assert !(h < k) && !(h > k);
    FirstIndexIs(pids, a + 1, a);
  }

  /** What launching and ending one suite does to the loop's variables. */
  lemma OneAfterTheOther(c: Config, w: World, pid: int, st: Status)
    requires Shape(c, w) && CanLaunch(c, w.s) && w.s.running == 0
    ensures var s1 := Launch(c, w.s, pid);
            && s1.running == 1 && s1.pids == w.s.pids[w.s.next := pid] && pid in s1.pids
            && s1.next == w.s.next + 1
            && var s2 := Reap(c, s1, Child(pid, st));
            && s2.next == w.s.next + 1 && s2.running == 0 && s2.pids == s1.pids
            && s2.weight == w.s.weight + c.Weight(w.s.next) - c.Weight(FirstIndex(s1.pids, pid).value)
  {
    hide FirstIndex, Counted, Config.Weight;
    var s1 := Launch(c, w.s, pid);
    assert s1.pids[w.s.next] == pid;
  }

  lemma {:induction false} SoloLegal(c: Config, k: nat, w: World, e: Env)
    requires SoloAt(c, k, w) && k < |c.suites| && Leak(c, k) + c.Weight(k) <= c.maxProcess
    requires e == Env(Lightest(c, k) + 1, Child(Lightest(c, k) + 1, Exited(0)))
    ensures LegalTurn(c, w, e)
    ensures var s', a := Step(c, w, e).s, Lightest(c, k);
            && s'.next == k + 1 && s'.running == 0 && s'.weight == Leak(c, k) + c.Weight(k) - c.Weight(a)
            && s'.pids == w.s.pids[k := a + 1]
  {
    IdleWeight(c, w);
    assert CanLaunch(c, w.s) && Shape(c, w) && !w.ended[k];
    assert forall i :: k < i < |c.suites| ==> w.s.pids[i] == 0;
    hide Launch, Reap, Sound, Lightest, Config.Weight, Holder, FirstIndex, Leak;
    SoloPids(c, w.s.pids[k := e.fork], k);
    OneAfterTheOther(c, w, e.fork, Exited(0));
  }

  lemma {:induction false} SoloTurn(c: Config, k: nat, w: World) returns (e: Env)
    requires SoloAt(c, k, w) && k < |c.suites| && Leak(c, k) + c.Weight(k) <= c.maxProcess
    ensures LegalTurn(c, w, e) && SoloAt(c, k + 1, Step(c, w, e))
  {
    var a := Lightest(c, k);
    e := Env(a + 1, Child(a + 1, Exited(0)));
    SoloLegal(c, k, w, e);
    assert Leak(c, k + 1) == Leak(c, k) + c.Weight(k) - c.Weight(a);
    hide LegalTurn, Step, Sound, Lightest, Config.Weight, Leak;
    StepSound(c, w, e);
  }

  predicate SoloPrefix(c: Config, k: nat, ws: seq<World>, es: seq<Env>) {
    && |ws| == k + 1 && |es| == k && ws[0] == Begin(c)
    && (forall i :: 0 <= i <= k ==> SoloAt(c, i, ws[i]))
    && (forall i :: 0 <= i < k ==> LegalTurn(c, ws[i], es[i]) && ws[i + 1] == Step(c, ws[i], es[i]))
  }

  lemma {:induction false} SoloRun(c: Config, k: nat) returns (ws: seq<World>, es: seq<Env>)
    requires k <= |c.suites|
    requires forall i {:trigger Leak(c, i)} :: 0 <= i < k ==> Leak(c, i) + c.Weight(i) <= c.maxProcess
    ensures SoloPrefix(c, k, ws, es)
  {
    if k == 0 {
      ws, es := [Begin(c)], [];
      BeginSound(c);
    } else {
      var i := k - 1;
      assert Leak(c, i) + c.Weight(i) <= c.maxProcess;
      ws, es := SoloRun(c, i);
      assert SoloAt(c, i, ws[i]);
      hide SoloAt, LegalTurn, Step, Leak, SoloPrefix, Config.Weight;
      var e := SoloTurn(c, i, ws[i]);
      SoloSnoc(c, i, ws, es, e);
      ws, es := ws + [Step(c, ws[i], e)], es + [e];
    }
  }

  lemma {:induction false} SoloSnoc(c: Config, k: nat, ws: seq<World>, es: seq<Env>, e: Env)
    requires SoloPrefix(c, k, ws, es) && LegalTurn(c, ws[k], e) && SoloAt(c, k + 1, Step(c, ws[k], e))
    ensures SoloPrefix(c, k + 1, ws + [Step(c, ws[k], e)], es + [e])
  {
    hide SoloAt, LegalTurn, Step;
    var w := Step(c, ws[k], e);
    var ws', es' := ws + [w], es + [e];
    assert ws'[k + 1] == w && es'[k] == e && ws'[k] == ws[k];
    forall i | 0 <= i < k + 1 ensures LegalTurn(c, ws'[i], es'[i]) && ws'[i + 1] == Step(c, ws'[i], es'[i]) {
      assert i < k ==> ws'[i] == ws[i] && es'[i] == es[i] && ws'[i + 1] == ws[i + 1];
    }
  }

  lemma StuckTurn(c: Config, k: nat, w: World)
    requires SoloAt(c, k, w) && k < |c.suites| && Leak(c, k) + c.Weight(k) > c.maxProcess
    ensures LegalTurn(c, w, Env(0, NoChild)) && Step(c, w, Env(0, NoChild)) == w
  {
  }

  /** The first suite that does not fit is never launched, and the run is fair since nothing is left running. */
  lemma {:induction false} StuckRun(c: Config, k: nat) returns (ws: nat -> World, env: nat -> Env)
    requires k < |c.suites| && Leak(c, k) + c.Weight(k) > c.maxProcess
    requires forall i {:trigger Leak(c, i)} :: 0 <= i < k ==> Leak(c, i) + c.Weight(i) <= c.maxProcess
    ensures IsReuseRun(c, ws, env) && FairReuse(ws) && !Finishes(c, ws)
  {
    var ss, es := SoloRun(c, k);
    StuckTurn(c, k, ss[k]);
    ws := (i: nat) => ss[if i < |ss| then i else |ss| - 1];
    env := (i: nat) => if i < |es| then es[i] else Env(0, NoChild);
    hide IsReuseRun, FairReuse, Finishes;
    hide SoloAt, LegalTurn, Step, Leak, Config.Weight;
    StuckIsRun(c, k, ss, es, ws, env);
  }

  lemma {:induction false} StuckIsRun(c: Config, k: nat, ss: seq<World>, es: seq<Env>,
                                         ws: nat -> World, env: nat -> Env)
    requires k < |c.suites| && SoloPrefix(c, k, ss, es)
    requires LegalTurn(c, ss[k], Env(0, NoChild)) && Step(c, ss[k], Env(0, NoChild)) == ss[k]
    requires forall i: nat :: ws(i) == ss[if i < k then i else k]
    requires forall i: nat :: env(i) == if i < k then es[i] else Env(0, NoChild)
    ensures IsReuseRun(c, ws, env) && FairReuse(ws) && !Finishes(c, ws)
  {
    hide SoloAt, LegalTurn, Step;
    forall i: nat ensures ws(i).s.running == 0 && ws(i).s.finished < |c.suites| {
      var j := if i < k then i else k;
      SoloCounts(c, j, ss[j]);
    }
    forall i: nat ensures LegalTurn(c, ws(i), env(i)) && ws(i + 1) == Step(c, ws(i), env(i)) {
      if i < k {
        assert ws(i) == ss[i] && ws(i + 1) == ss[i + 1] && env(i) == es[i];
      } else {
        assert ws(i) == ss[k] && ws(i + 1) == ss[k] && env(i) == Env(0, NoChild);
      }
    }
  }

  lemma SoloCounts(c: Config, k: nat, w: World)
    requires SoloAt(c, k, w)
    ensures w.s.running == 0 && w.s.finished == k
  {
  }

  lemma {:induction false} FirstMisfit(c: Config, n: nat) returns (k: nat)
    requires n < |c.suites| && Leak(c, n) + c.Weight(n) > c.maxProcess
    ensures k <= n && Leak(c, k) + c.Weight(k) > c.maxProcess
    ensures forall i {:trigger Leak(c, i)} :: 0 <= i < k ==> Leak(c, i) + c.Weight(i) <= c.maxProcess
  {
    hide Leak, Config.Weight;
    if i :| 0 <= i < n && Leak(c, i) + c.Weight(i) > c.maxProcess {
      k := FirstMisfit(c, i);
    } else {
      k := n;
    }
  }

  /** With pids of finished suites handed out again at will, every fair run finishes all suites if and only if
      each suite fits beside the weight that the ones before it can leave on the books. */
  lemma ReuseEndsExactly(c: Config)
    ensures (forall ws: nat -> World, env: nat -> Env ::
               IsReuseRun(c, ws, env) && FairReuse(ws) ==> Finishes(c, ws)) <==> Fits(c)
  {
    hide IsReuseRun, FairReuse, Finishes, Leak, Config.Weight;
    if Fits(c) {
      forall ws: nat -> World, env: nat -> Env | IsReuseRun(c, ws, env) && FairReuse(ws) ensures Finishes(c, ws) {
        ReuseEnds(c, ws, env, 0);
      }
    } else {
      var n :| 0 <= n < |c.suites| && Leak(c, n) + c.Weight(n) > c.maxProcess;
      var k := FirstMisfit(c, n);
      var ws, env := StuckRun(c, k);
      assert !Finishes(c, ws);
    }
  }
}
