/** From the cluster description to the running deployment: what the staged plan and the staged
    scheduler guarantee together. */
module Deployment {
  import opened Wrappers
  import opened Text
  import opened RoleLists
  import opened Planner
  import opened Scheduler
  import opened Timing
  import opened ChefDriver

  /** The commands that a readable description compiles to. */
  function Compiled(c: Config, params: string): Commands
    requires Readable(c)
  {
    CommandsOf(params, Plan(c))
  }

  /** Host h carries some role that the order lists in its stage i. */
  ghost predicate HasWork(c: Config, i: nat, h: string)
    requires StagesReadable(c)
  {
    i < |StageRoles(c)| && h in HostRoles(c.nodes) &&
    exists r :: r in StageRoles(c)[i] && r in HostRoles(c.nodes)[h]
  }

  /** The command with which host h gets exactly its roles of stage i, in the stage's order. */
  function StageCommand(c: Config, params: string, i: nat, h: string): string
    requires StagesReadable(c) && i < |StageRoles(c)| && h in HostRoles(c.nodes)
  {
    CommandText(params, h, Assigned(StageRoles(c)[i], HostRoles(c.nodes)[h]))
  }

  /** A launched command belongs to exactly one stage of the order, and is the command that host's
      roles of that stage call for. */
  lemma LaunchedWork(c: Config, params: string, t: seq<Event>, k: nat)
    requires Readable(c) && Run(Compiled(c, params), t).Some?
    requires k < |t| && t[k].Launch?
    ensures var kept := Kept(AllStages(c));
      && t[k].stage < |kept|
      && HasWork(c, kept[t[k].stage], t[k].host)
      && t[k].command == StageCommand(c, params, kept[t[k].stage], t[k].host)
  {
    EventEnabled(Compiled(c, params), t, k);
    PlanMeaning(c);
    var kept := Kept(AllStages(c));
    assert kept[t[k].stage] in kept;
    assert t[k].host in AllStages(c)[kept[t[k].stage]];
  }

  /** Before event k, host h was given exactly its roles of stage i and that bootstrap exited 0. */
  ghost predicate WorkDoneBefore(c: Config, params: string, t: seq<Event>, k: nat, i: nat, h: string)
    requires StagesReadable(c) && i < |StageRoles(c)| && h in HostRoles(c.nodes) && k <= |t|
  {
    exists q, a, b ::
      && 0 <= q < |Kept(AllStages(c))| && Kept(AllStages(c))[q] == i
      && 0 <= a < b < k
      && t[a].Launch? && t[a].stage == q && t[a].host == h && t[a].command == StageCommand(c, params, i, h)
      && t[b] == Reap(q, h, 0)
  }

  /** The barrier seen from the order. A command carries the roles of stage j = kept[p] of the
      order. When it is launched, every host with a role listed in an earlier stage i < j has
      already been given exactly its roles of stage i, and that bootstrap has exited 0. This holds
      although idle stages are dropped from the plan, so that plan positions and stages of the
      order differ. */
  lemma EndToEndBarrier(c: Config, params: string, t: seq<Event>, k: nat)
    requires Readable(c) && Run(Compiled(c, params), t).Some?
    requires k < |t| && t[k].Launch?
    ensures t[k].stage < |Kept(AllStages(c))|
    ensures forall i, h :: 0 <= i < Kept(AllStages(c))[t[k].stage] && HasWork(c, i, h) ==>
      WorkDoneBefore(c, params, t, k, i, h)
  {
    LaunchedWork(c, params, t, k);
    forall i, h | 0 <= i < Kept(AllStages(c))[t[k].stage] && HasWork(c, i, h)
      ensures WorkDoneBefore(c, params, t, k, i, h)
    {
      EarlierWork(c, params, t, k, i, h);
    }
  }

  lemma EarlierWork(c: Config, params: string, t: seq<Event>, k: nat, i: nat, h: string)
    requires Readable(c) && Run(Compiled(c, params), t).Some?
    requires k < |t| && t[k].Launch? && t[k].stage < |Kept(AllStages(c))|
    requires i < Kept(AllStages(c))[t[k].stage] && HasWork(c, i, h)
    ensures WorkDoneBefore(c, params, t, k, i, h)
  {
    var cs := Compiled(c, params);
    var q := WorkIsPlanned(c, params, i, h);
    KeptInOrder(AllStages(c), q, t[k].stage);
    StageBarrier(cs, t, k, q, h);
    var a, b :| 0 <= a < b < k && t[a].Launch? && t[a].stage == q && t[a].host == h
                && t[a].command == cs[q][h] && t[b] == Reap(q, h, 0);
    assert t[a].command == StageCommand(c, params, i, h);
  }

  /** Work of the order is a command of the plan. */
  lemma WorkIsPlanned(c: Config, params: string, i: nat, h: string) returns (q: nat)
    requires Readable(c) && HasWork(c, i, h)
    ensures q < |Kept(AllStages(c))| && Kept(AllStages(c))[q] == i
    ensures h in Compiled(c, params)[q] && Compiled(c, params)[q][h] == StageCommand(c, params, i, h)
  {
    PlanMeaning(c);
    var kept := Kept(AllStages(c));
    assert h in AllStages(c)[i];
    assert i in kept;
    q :| 0 <= q < |kept| && kept[q] == i;
  }

  /** A deployment that returns has brought every host every role it asks for and the order lists:
      each such command was launched once and exited 0. */
  lemma CompleteDeployment(c: Config, params: string, t: seq<Event>)
    requires Readable(c) && Run(Compiled(c, params), t).Some?
    requires Run(Compiled(c, params), t).value.phase.Finished?
    ensures forall i: nat, h :: HasWork(c, i, h) ==>
      WorkDoneBefore(c, params, t, |t|, i, h) && WorkDoneOnce(c, t, i, h)
  {
    forall i: nat, h | HasWork(c, i, h)
      ensures WorkDoneBefore(c, params, t, |t|, i, h) && WorkDoneOnce(c, t, i, h)
    {
      var q := WorkIsPlanned(c, params, i, h);
      NormalReturn(Compiled(c, params), t);
      assert Launches(t, q, h) == 1 && Successes(t, q, h) == 1;
      PlannedWorkDone(c, params, t, q, i, h);
    }
  }

  ghost predicate WorkDoneOnce(c: Config, t: seq<Event>, i: nat, h: string)
    requires StagesReadable(c)
  {
    exists q: nat :: q < |Kept(AllStages(c))| && Kept(AllStages(c))[q] == i
      && Launches(t, q, h) == 1 && Successes(t, q, h) == 1
  }

  lemma PlannedWorkDone(c: Config, params: string, t: seq<Event>, q: nat, i: nat, h: string)
    requires Readable(c) && Run(Compiled(c, params), t).Some? && HasWork(c, i, h)
    requires q < |Kept(AllStages(c))| && Kept(AllStages(c))[q] == i && Successes(t, q, h) == 1
    ensures WorkDoneBefore(c, params, t, |t|, i, h)
  {
    var b := SuccessInHistory(t, q, h);
    var a := LaunchOfSuccess(Compiled(c, params), t, q, h, b);
    LaunchedWork(c, params, t, a);
  }

  // ---------- the same, read from the texts ----------

  /** The text named n lists a role that host h carries. */
  ghost predicate TextWork(c: Config, n: string, h: string) {
    n in c.texts && exists r :: Lists(c.texts[n], r) && Carries(c, h, r)
  }

  /** The roles of the text named n that host h carries, once each, in the order of the text. */
  ghost predicate WorkList(c: Config, n: string, h: string, list: seq<string>) {
    && n in c.texts && NoDuplicates(list)
    && (forall r :: r in list <==> Lists(c.texts[n], r) && Carries(c, h, r))
    && (forall x, y :: x in list && y in list ==> (Before(list, x, y) <==> ListsBefore(c.texts[n], x, y)))
  }

  /** Event k launches the bootstrap of host h with exactly its roles of the text named n. */
  ghost predicate LaunchesWork(c: Config, params: string, t: seq<Event>, k: int, n: string, h: string) {
    && 0 <= k < |t| && t[k].Launch? && t[k].host == h
    && exists list :: WorkList(c, n, h, list) && list != []
         && t[k].command == "knife bootstrap " + h + params + " -r '" + Join(Wrapped(list), ",") + "'"
  }

  /** Such a launch before event k, and after it and still before event k that bootstrap's exit 0. */
  ghost predicate TextDone(c: Config, params: string, t: seq<Event>, k: int, n: string, h: string) {
    exists a, b :: 0 <= a < b < k <= |t| && LaunchesWork(c, params, t, a, n, h) && t[b] == Reap(t[a].stage, h, 0)
  }

  lemma WorkOfText(c: Config, i: nat, h: string)
    requires Readable(c) && i < |StageRoles(c)|
    ensures HasWork(c, i, h) <==> TextWork(c, StageNames(c)[i], h)
    ensures HasWork(c, i, h) ==>
      WorkList(c, StageNames(c)[i], h, Assigned(StageRoles(c)[i], HostRoles(c.nodes)[h]))
      && Assigned(StageRoles(c)[i], HostRoles(c.nodes)[h]) != []
  {
    var n := StageNames(c)[i];
    var stage := StageRoles(c)[i];
    forall r ensures Carries(c, h, r) <==> h in HostRoles(c.nodes) && r in HostRoles(c.nodes)[h] {
      CarriesMeaning(c, h, r);
    }
    forall r ensures r in stage <==> Lists(c.texts[n], r) {
      ParsedMeaning(c.texts[n], r, r);
    }
    if HasWork(c, i, h) {
      WorkListOf(c, n, h);
    }
  }

  lemma WorkListOf(c: Config, n: string, h: string)
    requires HostsReadable(c) && n in c.texts && h in HostRoles(c.nodes)
    ensures WorkList(c, n, h, Assigned(ParseList(c.texts[n]), HostRoles(c.nodes)[h]))
  {
    var stage, roles := ParseList(c.texts[n]), HostRoles(c.nodes)[h];
    var list := Assigned(stage, roles);
    AssignedMeaning(stage, roles);
    ParsedMeaning(c.texts[n], "", "");
    forall r ensures r in list <==> Lists(c.texts[n], r) && Carries(c, h, r) {
      CarriesMeaning(c, h, r);
      ParsedMeaning(c.texts[n], r, r);
    }
    forall x, y | x in list && y in list
      ensures Before(list, x, y) <==> ListsBefore(c.texts[n], x, y)
    {
      AssignedInOrder(stage, roles, x, y);
      ParsedMeaning(c.texts[n], x, y);
    }
  }

  lemma WorkDoneOfText(c: Config, params: string, t: seq<Event>, k: nat, i: nat, h: string)
    requires Readable(c) && HasWork(c, i, h) && k <= |t|
    requires WorkDoneBefore(c, params, t, k, i, h)
    ensures TextDone(c, params, t, k, StageNames(c)[i], h)
  {
    WorkOfText(c, i, h);
    var q, a, b :| 0 <= q < |Kept(AllStages(c))| && Kept(AllStages(c))[q] == i && 0 <= a < b < k
      && t[a].Launch? && t[a].stage == q && t[a].host == h && t[a].command == StageCommand(c, params, i, h)
      && t[b] == Reap(q, h, 0);
    assert LaunchesWork(c, params, t, a, StageNames(c)[i], h);
  }

  lemma StageBefore(c: Config, m: string, j: nat) returns (i: nat)
    requires j < |StageNames(c)| && ListsBefore(c.sequence, m, StageNames(c)[j])
    ensures i < j && StageNames(c)[i] == m
  {
    ParsedMeaning(c.sequence, m, StageNames(c)[j]);
    i :| 0 <= i < |StageNames(c)| && StageNames(c)[i] == m && i < j;
  }

  lemma StageNamed(c: Config, n: string) returns (i: nat)
    requires Lists(c.sequence, n)
    ensures i < |StageNames(c)| && StageNames(c)[i] == n
  {
    ItemsOfText(c.sequence, n);
    assert n in StageNames(c);
    i :| 0 <= i < |StageNames(c)| && StageNames(c)[i] == n;
  }

  /** The name of the text whose stage stands at position p of the plan. */
  function StageOfLaunch(c: Config, p: nat): string
    requires Readable(c) && p < |Kept(AllStages(c))|
  {
    StageNames(c)[Kept(AllStages(c))[p]]
  }

  lemma LaunchOfText(c: Config, params: string, t: seq<Event>, k: nat)
    requires Readable(c) && Run(Compiled(c, params), t).Some?
    requires k < |t| && t[k].Launch? && t[k].stage < |Kept(AllStages(c))|
    ensures var n := StageOfLaunch(c, t[k].stage);
      Lists(c.sequence, n) && LaunchesWork(c, params, t, k, n, t[k].host)
  {
    LaunchedWork(c, params, t, k);
    var j := Kept(AllStages(c))[t[k].stage];
    WorkOfText(c, j, t[k].host);
    ItemsOfText(c.sequence, StageNames(c)[j]);
  }

  lemma EarlierTextDone(c: Config, params: string, t: seq<Event>, k: nat, m: string, h: string)
    requires Readable(c) && Run(Compiled(c, params), t).Some?
    requires k < |t| && t[k].Launch? && t[k].stage < |Kept(AllStages(c))|
    requires ListsBefore(c.sequence, m, StageOfLaunch(c, t[k].stage)) && TextWork(c, m, h)
    ensures TextDone(c, params, t, k, m, h)
  {
    var i := StageBefore(c, m, Kept(AllStages(c))[t[k].stage]);
    WorkOfText(c, i, h);
    EarlierWork(c, params, t, k, i, h);
    WorkDoneOfText(c, params, t, k, i, h);
  }

  /** The barrier from the texts alone. Every launch is that of a host with its roles of some text
      named n in the sequence; and for every name m that the sequence lists before n, every host
      that carries a role of the text of m has by then been given its roles of that text, and that
      bootstrap has exited 0. */
  lemma TextBarrier(c: Config, params: string, t: seq<Event>, k: nat) returns (n: string)
    requires Readable(c) && Run(Compiled(c, params), t).Some?
    requires k < |t| && t[k].Launch?
    ensures Lists(c.sequence, n) && LaunchesWork(c, params, t, k, n, t[k].host)
    ensures forall m, h :: ListsBefore(c.sequence, m, n) && TextWork(c, m, h) ==> TextDone(c, params, t, k, m, h)
  {
    LaunchedWork(c, params, t, k);
    n := StageOfLaunch(c, t[k].stage);
    LaunchOfText(c, params, t, k);
    forall m, h | ListsBefore(c.sequence, m, n) && TextWork(c, m, h) ensures TextDone(c, params, t, k, m, h) {
      EarlierTextDone(c, params, t, k, m, h);
    }
  }

  /** A deployment that returns has done all work of all texts that the sequence names. */
  lemma TextComplete(c: Config, params: string, t: seq<Event>)
    requires Readable(c) && Run(Compiled(c, params), t).Some?
    requires Run(Compiled(c, params), t).value.phase.Finished?
    ensures forall n, h :: Lists(c.sequence, n) && TextWork(c, n, h) ==> TextDone(c, params, t, |t|, n, h)
  {
    CompleteDeployment(c, params, t);
    forall n, h | Lists(c.sequence, n) && TextWork(c, n, h) ensures TextDone(c, params, t, |t|, n, h) {
      var i := StageNamed(c, n);
      WorkOfText(c, i, h);
      assert WorkDoneBefore(c, params, t, |t|, i, h);
      WorkDoneOfText(c, params, t, |t|, i, h);
    }
  }

  // ---------- commands and plans ----------

  lemma AssignedClean(stage: seq<string>, roles: seq<string>)
    requires CleanList(stage)
    ensures CleanList(Assigned(stage, roles))
  {
    AssignedMeaning(stage, roles);
    var list := Assigned(stage, roles);
    forall k | 0 <= k < |list| ensures ',' !in list[k] {
      assert list[k] in list;
    }
  }

  lemma PlanIsClean(c: Config)
    requires Readable(c)
    ensures CleanPlan(Plan(c))
  {
    var kept := Kept(AllStages(c));
    forall p, h | 0 <= p < |Plan(c)| && h in Plan(c)[p]
      ensures CleanList(Plan(c)[p][h])
    {
      var i := kept[p];
      ParsedIsClean(c.texts[StageNames(c)[i]]);
      AssignedClean(StageRoles(c)[i], HostRoles(c.nodes)[h]);
    }
  }

  /** Two descriptions deploy with the same commands only when their plans agree. */
  lemma CompiledDeterminesPlan(c: Config, d: Config, params: string)
    requires Readable(c) && Readable(d)
    requires Compiled(c, params) == Compiled(d, params)
    ensures Plan(c) == Plan(d)
  {
    PlanIsClean(c);
    PlanIsClean(d);
    CommandsDeterminePlan(params, Plan(c), Plan(d));
  }

  datatype DeployError = Unreadable(error: Error) | NoCredentials

  /** Parse, compile and bootstrap, as `run` does with the bootstrap option. */
  method Deploy(
    chef: Chef, c: Config, env: string, username: string, sshKey: Option<string>, password: Option<string>, f: Fates)
    returns (r: Result<Status, DeployError>, ghost t: seq<Event>, ghost s: State)
    requires "TOTAL" in chef.counter
    modifies chef
    ensures r.Success? <==> Readable(c) && Params(env, username, sshKey, password).Some?
    ensures r.Success? ==>
      var cs := Compiled(c, Params(env, username, sshKey, password).value);
      && Reaches(cs, f, t, s) && Over(s)
      && r.value == (if s.phase.Finished? then Returned else Exited(s.phase.culprit))
      && chef.Counts(old(chef.counter["TOTAL"]), t)
    ensures r.Failure? ==> t == [] && chef.counter == old(chef.counter)
  {
    t, s := [], EnterStage([], 0, {}, 0);
    var plan := GetNodeRolesSequence(c);
    if plan.Failure? {
      return Failure(Unreadable(plan.error)), t, s;
    }
    var commands := chef.GetCommands(plan.value, env, username, sshKey, password);
    if commands.Failure? {
      return Failure(NoCredentials), t, s;
    }
    var status;
    status, t, s := chef.Bootstrap(commands.value, f);
    return Success(status), t, s;
  }
}
