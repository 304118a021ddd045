/** How long a deployment takes and how it ends, as a function of the processes' fates alone. */
module Timing {
  import opened Wrappers
  import opened Scheduler

  /** The poll round of its stage, counted from 0, in which a process is first seen to have
      finished, and its exit code. */
  datatype Fate = Fate(round: nat, code: int)

  type Fates = (nat, string) -> Fate

  /** Polls answer according to the fates: nothing before the finish round, the exit code from
      then on. */
  ghost predicate Answers(f: Fates, s: State, e: Event) {
    match e
    case Waiting(i, h) => s.round < f(i, h).round
    case Reap(i, h, code) => f(i, h).round <= s.round && code == f(i, h).code
    case _ => true
  }

  ghost predicate Obeys(cs: Commands, f: Fates, t: seq<Event>)
    requires Run(cs, t).Some?
  {
    t == [] ||
    (Run(cs, t[..|t| - 1]).Some? && Obeys(cs, f, t[..|t| - 1])
     && Answers(f, Run(cs, t[..|t| - 1]).value, t[|t| - 1]))
  }

  /** A run, together with the fates it obeys, that leads to state s. */
  ghost predicate Reaches(cs: Commands, f: Fates, t: seq<Event>, s: State) {
    Run(cs, t) == Some(s) && Obeys(cs, f, t)
  }

  // ---------- the clock of a stage ----------

  /** The latest finish round among these hosts; 0 when there are none. */
  ghost function LastRound(f: Fates, i: nat, hosts: set<string>): (m: nat)
    ensures forall h :: h in hosts ==> f(i, h).round <= m
    ensures hosts != {} ==> exists h :: h in hosts && f(i, h).round == m
    ensures hosts == {} ==> m == 0
  {
    if hosts == {} then 0
    else
      var h :| h in hosts;
      var m := LastRound(f, i, hosts - {h});
      if f(i, h).round > m then f(i, h).round else m
  }

  /** The sum of the latest finish rounds of the first n stages. */
  ghost function Elapsed(cs: Commands, f: Fates, n: nat): nat
    requires n <= |cs|
  {
    if n == 0 then 0 else Elapsed(cs, f, n - 1) + LastRound(f, n - 1, cs[n - 1].Keys)
  }

  ghost predicate StageSucceeds(cs: Commands, f: Fates, i: nat) {
    i < |cs| && forall h :: h in cs[i] ==> f(i, h).code == 0
  }

  /** Host h of stage i fails, and no host of that stage fails in an earlier round. */
  ghost predicate FirstToFail(cs: Commands, f: Fates, i: nat, h: string) {
    && i < |cs| && h in cs[i] && f(i, h).code != 0
    && forall g :: g in cs[i] && f(i, g).code != 0 ==> f(i, h).round <= f(i, g).round
  }

  /** What is known in a reachable state about the hosts of the current stage. */
  ghost predicate OnTime(cs: Commands, f: Fates, s: State) {
    && s.stage <= |cs| && (s.phase.Finished? <==> s.stage == |cs|)
    && s.ticks == Elapsed(cs, f, s.stage) + s.round
    && (forall j :: 0 <= j < s.stage ==> StageSucceeds(cs, f, j))
    && (s.phase.Finished? ==> s.round == 0)
    && (s.phase.Polling? ==>
          && (forall h :: h in s.running ==> f(s.stage, h).round >= s.round)
          && (forall h :: h in s.running - s.phase.todo ==> f(s.stage, h).round > s.round)
          && (forall h :: h in cs[s.stage].Keys - s.running ==>
                f(s.stage, h).code == 0 && f(s.stage, h).round <= s.round)
          && (s.round > 0 ==> exists h :: h in cs[s.stage] && f(s.stage, h).round >= s.round))
    && (s.phase.Aborted? ==>
          FirstToFail(cs, f, s.stage, s.phase.culprit) && f(s.stage, s.phase.culprit).round == s.round)
  }

  lemma PollOnTime(cs: Commands, f: Fates, s: State, e: Event)
    requires Inv(cs, s) && OnTime(cs, f, s)
    requires e.Waiting? || e.Reap?
    requires Next(cs, s, e).Some? && Answers(f, s, e)
    requires Inv(cs, Next(cs, s, e).value)
    ensures OnTime(cs, f, Next(cs, s, e).value)
  {
  }

  lemma LaunchOnTime(cs: Commands, f: Fates, s: State, e: Event)
    requires Inv(cs, s) && OnTime(cs, f, s)
    requires e.Launch? || e.EndLaunch?
    requires Next(cs, s, e).Some?
    ensures OnTime(cs, f, Next(cs, s, e).value)
  {
  }

  lemma TickOnTime(cs: Commands, f: Fates, s: State)
    requires Inv(cs, s) && OnTime(cs, f, s)
    requires Next(cs, s, Tick).Some?
    requires Inv(cs, Next(cs, s, Tick).value)
    ensures OnTime(cs, f, Next(cs, s, Tick).value)
  {
    var h :| h in s.running;
    assert f(s.stage, h).round >= s.round + 1;
  }

  lemma StageEntered(cs: Commands, f: Fates, i: nat, open: set<(nat, string)>)
    requires i <= |cs|
    requires forall j :: 0 <= j < i ==> StageSucceeds(cs, f, j)
    ensures OnTime(cs, f, EnterStage(cs, i, open, Elapsed(cs, f, i)))
  {
  }

  lemma EndStageOnTime(cs: Commands, f: Fates, s: State)
    requires Inv(cs, s) && OnTime(cs, f, s)
    requires Next(cs, s, EndStage).Some?
    ensures OnTime(cs, f, Next(cs, s, EndStage).value)
  {
    StageDone(cs, f, s);
    StageEntered(cs, f, s.stage + 1, s.open);
    assert Next(cs, s, EndStage).value == EnterStage(cs, s.stage + 1, s.open, Elapsed(cs, f, s.stage + 1));
  }

  /** A drained stage leaves the clock and the successes as the next stage expects them. */
  lemma StageDone(cs: Commands, f: Fates, s: State)
    requires Inv(cs, s) && OnTime(cs, f, s)
    requires s.phase.Polling? && s.running == {}
    ensures s.stage < |cs| && s.ticks == Elapsed(cs, f, s.stage + 1)
    ensures forall j :: 0 <= j <= s.stage ==> StageSucceeds(cs, f, j)
  {
    StageClock(cs, f, s);
  }

  /** When a stage has drained, its rounds number exactly the latest finish round in it. */
  lemma StageClock(cs: Commands, f: Fates, s: State)
    requires Inv(cs, s) && OnTime(cs, f, s)
    requires s.phase.Polling? && s.running == {}
    ensures LastRound(f, s.stage, cs[s.stage].Keys) == s.round && StageSucceeds(cs, f, s.stage)
  {
    assert cs[s.stage].Keys - s.running == cs[s.stage].Keys;
  }

  lemma StepOnTime(cs: Commands, f: Fates, s: State, e: Event)
    requires Inv(cs, s) && OnTime(cs, f, s)
    requires Next(cs, s, e).Some? && Answers(f, s, e)
    ensures OnTime(cs, f, Next(cs, s, e).value)
  {
    NextKeepsInv(cs, s, e);
    match e
    case Waiting(_, _) => PollOnTime(cs, f, s, e);
    case Reap(_, _, _) => PollOnTime(cs, f, s, e);
    case Tick => TickOnTime(cs, f, s);
    case EndStage => EndStageOnTime(cs, f, s);
    case _ => LaunchOnTime(cs, f, s, e);
  }

  lemma {:induction false} RunsOnTime(cs: Commands, f: Fates, t: seq<Event>, s: State)
    requires Reaches(cs, f, t, s)
    ensures Inv(cs, s) && OnTime(cs, f, s)
  {
    ReachableInv(cs, t);
    if t == [] {
    } else {
      var before := Run(cs, t[..|t| - 1]).value;
      RunsOnTime(cs, f, t[..|t| - 1], before);
      StepOnTime(cs, f, before, t[|t| - 1]);
    }
  }

  // ---------- how a run ends ----------

  ghost predicate Over(s: State) {
    s.phase.Finished? || s.phase.Aborted?
  }

  /** A run that returns took exactly the sum of the stages' latest finish rounds, and every
      process had exit code 0. A run that exits does so in the first stage with a failing process,
      in the earliest round in which one of them has finished, because of one that finished then. */
  lemma ExactOutcome(cs: Commands, f: Fates, t: seq<Event>, s: State)
    requires Reaches(cs, f, t, s) && Over(s)
    ensures s.phase.Finished? ==>
      Ticks(t) == Elapsed(cs, f, |cs|) && forall j :: 0 <= j < |cs| ==> StageSucceeds(cs, f, j)
    ensures s.phase.Aborted? ==>
      && s.stage < |cs| && FirstToFail(cs, f, s.stage, s.phase.culprit)
      && (forall j :: 0 <= j < s.stage ==> StageSucceeds(cs, f, j))
      && Ticks(t) == Elapsed(cs, f, s.stage) + f(s.stage, s.phase.culprit).round
  {
    RunsOnTime(cs, f, t, s);
    TicksOfRun(cs, t);
  }

  /** The order in which `items()` enumerates hosts does not matter: two complete runs with the
      same fates end the same way, in the same stage, after the same number of seconds. */
  lemma OrderIsIrrelevant(cs: Commands, f: Fates, t1: seq<Event>, s1: State, t2: seq<Event>, s2: State)
    requires Reaches(cs, f, t1, s1) && Over(s1)
    requires Reaches(cs, f, t2, s2) && Over(s2)
    ensures s1.phase.Finished? <==> s2.phase.Finished?
    ensures s1.stage == s2.stage && Ticks(t1) == Ticks(t2)
  {
    ExactOutcome(cs, f, t1, s1);
    ExactOutcome(cs, f, t2, s2);
    RunsOnTime(cs, f, t1, s1);
    RunsOnTime(cs, f, t2, s2);
    assert s1.stage < s2.stage ==> StageSucceeds(cs, f, s1.stage);
    assert s2.stage < s1.stage ==> StageSucceeds(cs, f, s2.stage);
  }

  // ---------- every run comes to an end ----------

  /** No run is stuck: until it is over, some event that the fates allow is enabled. */
  lemma Progress(cs: Commands, f: Fates, t: seq<Event>, s: State) returns (e: Event)
    requires Reaches(cs, f, t, s) && !Over(s)
    ensures Run(cs, t + [e]).Some? && Obeys(cs, f, t + [e])
  {
    ReachableInv(cs, t);
    match s.phase
    case Launching(todo) =>
      if todo == {} {
        e := EndLaunch;
      } else {
        var h :| h in todo;
        e := Launch(s.stage, h, cs[s.stage][h], 0);
      }
    case Polling(todo) =>
      if todo == {} {
        e := if s.running == {} then EndStage else Tick;
      } else {
        var h :| h in todo;
        var fate := f(s.stage, h);
        e := if s.round < fate.round then Waiting(s.stage, h) else Reap(s.stage, h, fate.code);
      }
    RunSnoc(cs, t, e);
    assert (t + [e])[..|t|] == t;
  }

  /** k poll rounds of n events each. */
  ghost function Rounds(n: nat, k: int): nat
    decreases k
  {
    if k <= 0 then 0 else n + Rounds(n, k - 1)
  }

  /** What a stage of n hosts with `polls` poll rounds ahead still takes at most, `pending` of its
      hosts being still to launch or to poll first. A round is one poll per host and its close. */
  ghost function StageCost(n: nat, pending: nat, polls: int): nat {
    pending + 1 + Rounds(n + 1, polls)
  }

  /** What stages i and later take at most, given the latest finish round of each. */
  ghost function Rest(cs: Commands, last: seq<nat>, i: nat): nat
    requires |last| == |cs|
    decreases |cs| - i
  {
    if i >= |cs| then 0
    else StageCost(|cs[i].Keys|, |cs[i].Keys|, last[i] + 1) + Rest(cs, last, i + 1)
  }

  /** An upper bound on the events still to come. */
  ghost function Budget(cs: Commands, last: seq<nat>, s: State): nat
    requires |last| == |cs|
  {
    if s.stage >= |cs| then 0
    else
      match s.phase
      case Launching(todo) => StageCost(|cs[s.stage].Keys|, |todo|, last[s.stage] + 1) + Rest(cs, last, s.stage + 1)
      case Polling(todo) => StageCost(|cs[s.stage].Keys|, |todo|, last[s.stage] - s.round) + Rest(cs, last, s.stage + 1)
      case _ => 0
  }

  ghost function LastRounds(cs: Commands, f: Fates): (last: seq<nat>)
    ensures |last| == |cs|
    ensures forall i :: 0 <= i < |cs| ==> last[i] == LastRound(f, i, cs[i].Keys)
  {
    seq(|cs|, i requires 0 <= i < |cs| => LastRound(f, i, cs[i].Keys))
  }

  lemma SubsetSize(a: set<string>, b: set<string>)
    requires a <= b
    ensures |a| <= |b|
  {
    assert b == a + (b - a);
  }

  lemma RemovedSize(a: set<string>, h: string)
    requires h in a
    ensures |a - {h}| == |a| - 1
  {
  }

  lemma RoundCloses(n: nat, k: nat, polls: int)
    requires k <= n && polls > 0
    ensures StageCost(n, k, polls - 1) < StageCost(n, 0, polls)
  {
    assert Rounds(n + 1, polls) == n + 1 + Rounds(n + 1, polls - 1);
  }

  /** A tick only happens while some process still has rounds to go. */
  lemma TickLeavesRounds(cs: Commands, f: Fates, s: State)
    requires Inv(cs, s) && OnTime(cs, f, s) && Next(cs, s, Tick).Some?
    ensures s.round < LastRound(f, s.stage, cs[s.stage].Keys)
  {
    var h :| h in s.running;
    assert h in cs[s.stage].Keys;
  }

  lemma LaunchSpends(cs: Commands, last: seq<nat>, s: State, e: Event)
    requires Inv(cs, s) && |last| == |cs|
    requires Next(cs, s, e).Some?
    requires e.Launch?
    ensures Budget(cs, last, Next(cs, s, e).value) < Budget(cs, last, s)
  {
    RemovedSize(s.phase.todo, e.host);
  }

  lemma WaitingSpends(cs: Commands, last: seq<nat>, s: State, e: Event)
    requires Inv(cs, s) && |last| == |cs|
    requires Next(cs, s, e).Some?
    requires e.Waiting?
    ensures Budget(cs, last, Next(cs, s, e).value) < Budget(cs, last, s)
  {
    RemovedSize(s.phase.todo, e.host);
  }

  lemma ReapSpends(cs: Commands, last: seq<nat>, s: State, e: Event)
    requires Inv(cs, s) && |last| == |cs|
    requires Next(cs, s, e).Some?
    requires e.Reap?
    ensures Budget(cs, last, Next(cs, s, e).value) < Budget(cs, last, s)
  {
    RemovedSize(s.phase.todo, e.host);
  }

  lemma RoundSpends(cs: Commands, last: seq<nat>, s: State, e: Event)
    requires Inv(cs, s) && |last| == |cs|
    requires Next(cs, s, e).Some?
    requires e.EndLaunch? || (e.Tick? && s.round < last[s.stage])
    ensures Budget(cs, last, Next(cs, s, e).value) < Budget(cs, last, s)
  {
    SubsetSize(s.running, cs[s.stage].Keys);
    RoundCloses(|cs[s.stage].Keys|, |s.running|, if e.Tick? then last[s.stage] - s.round else last[s.stage] + 1);
  }

  lemma EnterStageBudget(cs: Commands, last: seq<nat>, i: nat, open: set<(nat, string)>, ticks: nat)
    requires |last| == |cs|
    ensures Budget(cs, last, EnterStage(cs, i, open, ticks)) == Rest(cs, last, i)
  {
  }

  lemma PollingBudget(cs: Commands, last: seq<nat>, s: State)
    requires |last| == |cs| && Inv(cs, s) && s.phase.Polling?
    ensures Budget(cs, last, s) > Rest(cs, last, s.stage + 1)
  {
    var n, k, m := |cs[s.stage].Keys|, |s.phase.todo|, last[s.stage] - s.round;
    assert StageCost(n, k, m) > 0;
    assert Budget(cs, last, s) == StageCost(n, k, m) + Rest(cs, last, s.stage + 1);
  }

  lemma EndStageSpends(cs: Commands, last: seq<nat>, s: State, e: Event)
    requires Inv(cs, s) && |last| == |cs|
    requires Next(cs, s, e).Some?
    requires e.EndStage?
    ensures Budget(cs, last, Next(cs, s, e).value) < Budget(cs, last, s)
  {
    PollingBudget(cs, last, s);
    EnterStageBudget(cs, last, s.stage + 1, s.open, s.ticks);
  }

  lemma StepSpends(cs: Commands, last: seq<nat>, s: State, e: Event)
    requires Inv(cs, s) && |last| == |cs|
    requires Next(cs, s, e).Some?
    requires e.Tick? ==> s.round < last[s.stage]
    ensures Budget(cs, last, Next(cs, s, e).value) < Budget(cs, last, s)
  {
    match e
    case Launch(_, _, _, _) => LaunchSpends(cs, last, s, e);
    case Waiting(_, _) => WaitingSpends(cs, last, s, e);
    case Reap(_, _, _) => ReapSpends(cs, last, s, e);
    case EndStage => EndStageSpends(cs, last, s, e);
    case _ => RoundSpends(cs, last, s, e);
  }

  lemma StepSpendsInTime(cs: Commands, f: Fates, s: State, e: Event)
    requires Inv(cs, s) && OnTime(cs, f, s) && Next(cs, s, e).Some?
    ensures Budget(cs, LastRounds(cs, f), Next(cs, s, e).value) < Budget(cs, LastRounds(cs, f), s)
  {
    if e.Tick? {
      TickLeavesRounds(cs, f, s);
    }
    StepSpends(cs, LastRounds(cs, f), s, e);
  }

  /** Every run is bounded: with finite finish rounds it has at most Rest(…, 0) events. With
      Progress, every maximal run therefore returns or exits. */
  lemma {:induction false} RunsAreBounded(cs: Commands, f: Fates, t: seq<Event>, s: State)
    requires Reaches(cs, f, t, s)
    ensures |t| + Budget(cs, LastRounds(cs, f), s) <= Rest(cs, LastRounds(cs, f), 0)
  {
    if t == [] {
      EnterStageBudget(cs, LastRounds(cs, f), 0, {}, 0);
    } else {
      var before, e := Run(cs, t[..|t| - 1]).value, t[|t| - 1];
      RunsAreBounded(cs, f, t[..|t| - 1], before);
      RunsOnTime(cs, f, t[..|t| - 1], before);
      StepSpendsInTime(cs, f, before, e);
    }
  }

  /** Whatever has happened so far, the run goes on to one that returns or exits. */
  lemma {:induction false} RunsComplete(cs: Commands, f: Fates, t: seq<Event>, s: State)
    returns (t': seq<Event>, s': State)
    requires Reaches(cs, f, t, s)
    ensures t <= t' && Reaches(cs, f, t', s') && Over(s')
    decreases Rest(cs, LastRounds(cs, f), 0) - |t|
  {
    if Over(s) {
      t', s' := t, s;
    } else {
      var e := Progress(cs, f, t, s);
      RunsAreBounded(cs, f, t + [e], Run(cs, t + [e]).value);
      t', s' := RunsComplete(cs, f, t + [e], Run(cs, t + [e]).value);
    }
  }
}
