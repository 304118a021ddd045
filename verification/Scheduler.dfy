/** `Chef.bootstrap` as a labelled transition system.

    A run is the sequence of things the program does that matter here: launching a command,
    polling a process and finding it still running, reaping a finished one, sleeping one second,
    and the two moves of the control point (launching is over; the stage has drained). The order
    in which `items()` enumerates a dictionary, the clock readings and the fate of the processes
    are left open: the labels say how they turned out. */
module Scheduler {
  import opened Wrappers

  /** One command per host, stage by stage. */
  type Commands = seq<map<string, string>>

  datatype Event =
    | Launch(stage: nat, host: string, command: string, now: int)
    | EndLaunch
    | Waiting(stage: nat, host: string)
    | Reap(stage: nat, host: string, code: int)
    | Tick
    | EndStage

  /** Where the program is: launching, with the hosts still to launch; in a poll round, with the
      hosts of the snapshot still to poll; returned; or exited because of one host. */
  datatype Phase = Launching(todo: set<string>) | Polling(todo: set<string>) | Finished | Aborted(culprit: string)

  /** `running` is the key set of `dict`, `open` the log handles opened and not yet closed,
      `round` the number of polls completed in this stage, `ticks` the seconds slept in all. */
  datatype State = State(
    stage: nat, phase: Phase, running: set<string>, open: set<(nat, string)>, round: nat, ticks: nat)

  function EnterStage(cs: Commands, i: nat, open: set<(nat, string)>, ticks: nat): State {
    if i < |cs| then State(i, Launching(cs[i].Keys), {}, open, 0, ticks)
    else State(i, Finished, {}, open, 0, ticks)
  }

  /** The state after event e, or None when e cannot happen. */
  function Next(cs: Commands, s: State, e: Event): Option<State> {
    match e
    case Launch(i, h, command, _) =>
      if s.phase.Launching? && i == s.stage < |cs| && h in s.phase.todo && h in cs[i] && command == cs[i][h]
      then Some(s.(phase := Launching(s.phase.todo - {h}), running := s.running + {h}, open := s.open + {(i, h)}))
      else None
    case EndLaunch =>
      if s.phase == Launching({}) then Some(s.(phase := Polling(s.running))) else None
    case Waiting(i, h) =>
      if s.phase.Polling? && i == s.stage && h in s.phase.todo
      then Some(s.(phase := Polling(s.phase.todo - {h})))
      else None
    case Reap(i, h, code) =>
      if s.phase.Polling? && i == s.stage && h in s.phase.todo
      then Some(s.(phase := if code == 0 then Polling(s.phase.todo - {h}) else Aborted(h),
                   running := s.running - {h}, open := s.open - {(i, h)}))
      else None
    case Tick =>
      if s.phase == Polling({}) && s.running != {}
      then Some(s.(phase := Polling(s.running), round := s.round + 1, ticks := s.ticks + 1))
      else None
    case EndStage =>
      if s.phase == Polling({}) && s.running == {} then Some(EnterStage(cs, s.stage + 1, s.open, s.ticks))
      else None
  }

  /** The state a run leads to, or None when the program has no such run. */
  function Run(cs: Commands, t: seq<Event>): Option<State> {
    if t == [] then Some(EnterStage(cs, 0, {}, 0))
    else
      var n := |t| - 1;
      match Run(cs, t[..n])
      case None => None
      case Some(s) => Next(cs, s, t[n])
  }

  lemma RunSnoc(cs: Commands, t: seq<Event>, e: Event)
    ensures Run(cs, t + [e]) == if Run(cs, t).None? then None else Next(cs, Run(cs, t).value, e)
  {
    assert (t + [e])[..|t|] == t;
  }

  lemma {:induction false} RunPrefix(cs: Commands, t: seq<Event>, k: nat)
    requires Run(cs, t).Some? && k <= |t|
    ensures Run(cs, t[..k]).Some?
  {
    if k < |t| {
      RunPrefix(cs, t[..|t| - 1], k);
      assert t[..|t| - 1][..k] == t[..k];
    } else {
      assert t[..k] == t;
    }
  }

  /** Event k of a run happened in the state the events before it led to. */
  lemma EventEnabled(cs: Commands, t: seq<Event>, k: nat)
    requires Run(cs, t).Some? && k < |t|
    ensures Run(cs, t[..k]).Some? && Next(cs, Run(cs, t[..k]).value, t[k]).Some?
    ensures Inv(cs, Run(cs, t[..k]).value)
  {
    RunPrefix(cs, t, k);
    RunPrefix(cs, t, k + 1);
    RunSnoc(cs, t[..k], t[k]);
    assert t[..k + 1] == t[..k] + [t[k]];
    ReachableInv(cs, t[..k]);
  }

  // ---------- histories ----------

  function Launches(t: seq<Event>, i: nat, h: string): nat {
    if t == [] then 0
    else
      var e := t[|t| - 1];
      Launches(t[..|t| - 1], i, h) + (if e.Launch? && e.stage == i && e.host == h then 1 else 0)
  }

  function Reaps(t: seq<Event>, i: nat, h: string): nat {
    if t == [] then 0
    else
      var e := t[|t| - 1];
      Reaps(t[..|t| - 1], i, h) + (if e.Reap? && e.stage == i && e.host == h then 1 else 0)
  }

  function Successes(t: seq<Event>, i: nat, h: string): nat {
    if t == [] then 0
    else
      Successes(t[..|t| - 1], i, h) + (if t[|t| - 1] == Reap(i, h, 0) then 1 else 0)
  }

  function Ticks(t: seq<Event>): nat {
    if t == [] then 0 else Ticks(t[..|t| - 1]) + (if t[|t| - 1].Tick? then 1 else 0)
  }

  // ---------- what every step keeps ----------

  ghost predicate Inv(cs: Commands, s: State) {
    && s.stage <= |cs|
    && (s.phase.Finished? <==> s.stage == |cs|)
    && (forall i: nat, h :: (i, h) in s.open <==> i == s.stage && h in s.running)
    && (s.phase.Finished? ==> s.running == {})
    && (s.stage < |cs| ==> s.running <= cs[s.stage].Keys)
    && (s.phase.Launching? ==>
          s.phase.todo <= cs[s.stage].Keys && s.running == cs[s.stage].Keys - s.phase.todo && s.round == 0)
    && (s.phase.Polling? ==> s.phase.todo <= s.running)
    && (s.phase.Aborted? ==> s.phase.culprit in cs[s.stage] && s.phase.culprit !in s.running)
  }

  lemma NextKeepsInv(cs: Commands, s: State, e: Event)
    requires Inv(cs, s) && Next(cs, s, e).Some?
    ensures Inv(cs, Next(cs, s, e).value)
  {
  }

  lemma {:induction false} ReachableInv(cs: Commands, t: seq<Event>)
    requires Run(cs, t).Some?
    ensures Inv(cs, Run(cs, t).value)
  {
    if t == [] {
    } else {
      ReachableInv(cs, t[..|t| - 1]);
      NextKeepsInv(cs, Run(cs, t[..|t| - 1]).value, t[|t| - 1]);
    }
  }

  predicate HasLaunched(cs: Commands, s: State, i: nat, h: string) {
    i < |cs| && h in cs[i] && (i < s.stage || (i == s.stage && !(s.phase.Launching? && h in s.phase.todo)))
  }

  predicate HasReaped(cs: Commands, s: State, i: nat, h: string) {
    HasLaunched(cs, s, i, h) && !(i == s.stage && h in s.running)
  }

  predicate HasSucceeded(cs: Commands, s: State, i: nat, h: string) {
    HasReaped(cs, s, i, h) && !(i == s.stage && s.phase == Aborted(h))
  }

  lemma LaunchStep(cs: Commands, s: State, e: Event, i: nat, h: string)
    requires Inv(cs, s) && Next(cs, s, e).Some?
    ensures HasLaunched(cs, Next(cs, s, e).value, i, h) <==>
      HasLaunched(cs, s, i, h) || (e.Launch? && e.stage == i && e.host == h)
    ensures e.Launch? && e.stage == i && e.host == h ==> !HasLaunched(cs, s, i, h)
  {
  }

  lemma ReapStep(cs: Commands, s: State, e: Event, i: nat, h: string)
    requires Inv(cs, s) && Next(cs, s, e).Some?
    ensures HasReaped(cs, Next(cs, s, e).value, i, h) <==>
      HasReaped(cs, s, i, h) || (e.Reap? && e.stage == i && e.host == h)
    ensures e.Reap? && e.stage == i && e.host == h ==> !HasReaped(cs, s, i, h)
  {
  }

  lemma SuccessStep(cs: Commands, s: State, e: Event, i: nat, h: string)
    requires Inv(cs, s) && Next(cs, s, e).Some?
    ensures HasSucceeded(cs, Next(cs, s, e).value, i, h) <==> HasSucceeded(cs, s, i, h) || e == Reap(i, h, 0)
    ensures e == Reap(i, h, 0) ==> !HasSucceeded(cs, s, i, h)
  {
    ReapStep(cs, s, e, i, h);
  }

  /** The three histories of any one command are functions of the state reached: each is 0 or 1. */
  lemma {:induction false} HistoryOfCommand(cs: Commands, t: seq<Event>, i: nat, h: string)
    requires Run(cs, t).Some?
    ensures Launches(t, i, h) == if HasLaunched(cs, Run(cs, t).value, i, h) then 1 else 0
    ensures Reaps(t, i, h) == if HasReaped(cs, Run(cs, t).value, i, h) then 1 else 0
    ensures Successes(t, i, h) == if HasSucceeded(cs, Run(cs, t).value, i, h) then 1 else 0
  {
    if t == [] {
    } else {
      var s, e := Run(cs, t[..|t| - 1]).value, t[|t| - 1];
      HistoryOfCommand(cs, t[..|t| - 1], i, h);
      ReachableInv(cs, t[..|t| - 1]);
      LaunchStep(cs, s, e, i, h);
      ReapStep(cs, s, e, i, h);
      SuccessStep(cs, s, e, i, h);
    }
  }

  lemma {:induction false} TicksOfRun(cs: Commands, t: seq<Event>)
    requires Run(cs, t).Some?
    ensures Run(cs, t).value.ticks == Ticks(t)
  {
    if t == [] {
    } else {
      TicksOfRun(cs, t[..|t| - 1]);
    }
  }

  // ---------- safety over every run ----------

  ghost predicate Unreaped(t: seq<Event>, i: nat, h: string) {
    Launches(t, i, h) > Reaps(t, i, h)
  }

  /** At every point of every run: no command is launched or reaped twice; the processes launched
      and not reaped are exactly the keys of `dict` and the owners of the open log handles, all in
      the current stage, so no host ever has two bootstraps running. */
  lemma SchedulerInvariant(cs: Commands, t: seq<Event>)
    requires Run(cs, t).Some?
    ensures var s := Run(cs, t).value;
      && (forall i: nat, h :: Reaps(t, i, h) <= Launches(t, i, h) <= 1)
      && (forall i: nat, h :: Unreaped(t, i, h) <==> i == s.stage && h in s.running)
      && (forall i: nat, h :: Unreaped(t, i, h) <==> (i, h) in s.open)
      && (forall i: nat, j: nat, h :: Unreaped(t, i, h) && Unreaped(t, j, h) ==> i == j)
  {
    ReachableInv(cs, t);
    forall i: nat, h
      ensures Reaps(t, i, h) <= Launches(t, i, h) <= 1
      ensures Unreaped(t, i, h) <==> i == Run(cs, t).value.stage && h in Run(cs, t).value.running
    {
      HistoryOfCommand(cs, t, i, h);
    }
  }

  /** A run that returns normally launched every command once, saw each exit 0, launched nothing
      else, and closed every log. */
  lemma NormalReturn(cs: Commands, t: seq<Event>)
    requires Run(cs, t).Some? && Run(cs, t).value.phase.Finished?
    ensures forall i: nat, h :: Launches(t, i, h) == Successes(t, i, h) == Reaps(t, i, h)
              == if i < |cs| && h in cs[i] then 1 else 0
    ensures forall i: nat, h :: (i, h) !in Run(cs, t).value.open
  {
    ReachableInv(cs, t);
    forall i: nat, h
      ensures Launches(t, i, h) == Successes(t, i, h) == Reaps(t, i, h) == if i < |cs| && h in cs[i] then 1 else 0
    {
      HistoryOfCommand(cs, t, i, h);
    }
  }

  /** Nothing at all follows the first non-zero exit; by then exactly the commands of stages
      0..i have been launched, all earlier stages have succeeded, and whatever still runs belongs
      to the failing stage. */
  lemma FailFast(cs: Commands, t: seq<Event>, k: nat)
    requires Run(cs, t).Some?
    requires k < |t| && t[k].Reap? && t[k].code != 0
    ensures k == |t| - 1
    ensures var i := t[k].stage;
      && Run(cs, t).value.phase == Aborted(t[k].host)
      && (forall j: nat, h :: Launches(t, j, h) == if j <= i && j < |cs| && h in cs[j] then 1 else 0)
      && (forall j: nat, h :: j < i && j < |cs| && h in cs[j] ==> Successes(t, j, h) == 1)
      && (forall j: nat, h :: Unreaped(t, j, h) ==> j == i)
  {
    EventEnabled(cs, t, k);
    var after := k + 1;
    if after < |t| {
      EventEnabled(cs, t, after);
    }
    RunSnoc(cs, t[..k], t[k]);
    assert t[..k + 1] == t[..k] + [t[k]];
    assert t[..k + 1] == t;
    ReachableInv(cs, t);
    forall j: nat, h
      ensures Launches(t, j, h) == if j <= t[k].stage && j < |cs| && h in cs[j] then 1 else 0
      ensures j < t[k].stage && j < |cs| && h in cs[j] ==> Successes(t, j, h) == 1
      ensures Unreaped(t, j, h) ==> j == t[k].stage
    {
      HistoryOfCommand(cs, t, j, h);
    }
  }

  lemma {:induction false} LaunchInHistory(t: seq<Event>, i: nat, h: string) returns (a: nat)
    requires Launches(t, i, h) > 0
    ensures a < |t| && t[a].Launch? && t[a].stage == i && t[a].host == h
  {
    var e := t[|t| - 1];
    if e.Launch? && e.stage == i && e.host == h {
      a := |t| - 1;
    } else {
      a := LaunchInHistory(t[..|t| - 1], i, h);
    }
  }

  lemma {:induction false} LaunchIsCounted(t: seq<Event>, k: nat)
    requires k < |t| && t[k].Launch?
    ensures Launches(t, t[k].stage, t[k].host) > 0
  {
    var n := |t| - 1;
    if k == n {
    } else {
      LaunchIsCounted(t[..n], k);
    }
  }

  lemma {:induction false} SuccessInHistory(t: seq<Event>, i: nat, h: string) returns (b: nat)
    requires Successes(t, i, h) > 0
    ensures b < |t| && t[b] == Reap(i, h, 0)
  {
    if t[|t| - 1] == Reap(i, h, 0) {
      b := |t| - 1;
    } else {
      b := SuccessInHistory(t[..|t| - 1], i, h);
    }
  }

  /** What exits 0 was launched before. */
  lemma LaunchOfSuccess(cs: Commands, t: seq<Event>, j: nat, h: string, b: nat) returns (a: nat)
    requires Run(cs, t).Some? && b < |t| && t[b] == Reap(j, h, 0)
    ensures a < b && t[a].Launch? && t[a].stage == j && t[a].host == h
    ensures j < |cs| && h in cs[j] && t[a].command == cs[j][h]
  {
    EventEnabled(cs, t, b);
    HistoryOfCommand(cs, t[..b], j, h);
    a := LaunchInHistory(t[..b], j, h);
    EventEnabled(cs, t, a);
  }

  /** The command of host h in stage j was launched and then exited 0, both before event k. */
  ghost predicate DoneBefore(cs: Commands, t: seq<Event>, j: nat, h: string, k: nat)
    requires j < |cs| && h in cs[j] && k <= |t|
  {
    exists a, b ::
      0 <= a < b < k && t[a].Launch? && t[a].stage == j && t[a].host == h && t[a].command == cs[j][h]
      && t[b] == Reap(j, h, 0)
  }

  /** The barrier between stages: when a command is launched, every command of every earlier stage
      has already been launched and has exited 0. */
  lemma StageBarrier(cs: Commands, t: seq<Event>, k: nat, j: nat, h: string)
    requires Run(cs, t).Some?
    requires k < |t| && t[k].Launch? && j < t[k].stage && j < |cs| && h in cs[j]
    ensures DoneBefore(cs, t, j, h, k)
  {
    EventEnabled(cs, t, k);
    HistoryOfCommand(cs, t[..k], j, h);
    var b := SuccessInHistory(t[..k], j, h);
    var a := LaunchOfSuccess(cs, t, j, h, b);
  }
}
