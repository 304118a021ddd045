/** Chef.get_commands, Chef.sleep and Chef.bootstrap, with the global COUNTER as a field. */
module ChefDriver {
  import opened Wrappers
  import opened Text
  import opened RoleLists
  import opened Scheduler
  import opened Timing

  // ---------- command texts ----------

  /** None and the empty string are both false in Python. */
  predicate Truthy(o: Option<string>) {
    o.Some? && o.value != ""
  }

  /** The options shared by all commands, or None when neither a key nor a password is given. */
  function Params(env: string, username: string, sshKey: Option<string>, password: Option<string>): Option<string> {
    var params := " -E " + env + " -x " + username;
    if Truthy(sshKey) then Some(params + " -i " + sshKey.value)
    else if Truthy(password) then Some(params + " -P " + password.value)
    else None
  }

  function CommandText(params: string, node: string, roles: seq<string>): string {
    "knife bootstrap " + node + params + " -r '" + RunList(roles) + "'"
  }

  function CommandMap(params: string, info: map<string, seq<string>>): map<string, string> {
    map node | node in info :: CommandText(params, node, info[node])
  }

  function CommandsOf(params: string, plan: seq<map<string, seq<string>>>): (cs: Commands)
    ensures |cs| == |plan|
    ensures forall i :: 0 <= i < |plan| ==> cs[i] == CommandMap(params, plan[i])
  {
    seq(|plan|, i requires 0 <= i < |plan| => CommandMap(params, plan[i]))
  }

  lemma CommandInjective(params: string, node: string, a: seq<string>, b: seq<string>)
    requires CleanList(a) && CleanList(b)
    requires CommandText(params, node, a) == CommandText(params, node, b)
    ensures a == b
  {
    var head := "knife bootstrap " + node + params + " -r '";
    var ca, cb := CommandText(params, node, a), CommandText(params, node, b);
    assert RunList(a) == ca[|head|..|ca| - 1];
    assert RunList(b) == cb[|head|..|cb| - 1];
    RunListInjective(a, b);
  }

  predicate NoBlank(s: string) {
    ' ' !in s
  }

  /** The options that name the key when there is a non-empty one and otherwise the password. */
  ghost predicate Credential(sshKey: Option<string>, password: Option<string>, text: string) {
    if sshKey.Some? && sshKey.value != "" then text == " -i " + sshKey.value
    else password.Some? && password.value != "" && text == " -P " + password.value
  }

  ghost predicate Spells(
    command: string, host: string, env: string, username: string, credential: string, roles: seq<string>)
  {
    command == "knife bootstrap " + host + " -E " + env + " -x " + username + credential
               + " -r '" + Join(Wrapped(roles), ",") + "'"
  }

  /** A command consists of the program, the host, the environment, the user, the credential and the
      quoted run list, in this order; without a non-empty key or password there is none. */
  lemma CommandMeaning(
    env: string, username: string, sshKey: Option<string>, password: Option<string>, host: string, roles: seq<string>)
    ensures Params(env, username, sshKey, password).Some? <==> exists text :: Credential(sshKey, password, text)
    ensures forall text :: Credential(sshKey, password, text) ==>
      Spells(CommandText(Params(env, username, sshKey, password).value, host, roles), host, env, username, text, roles)
  {
    var params := " -E " + env + " -x " + username;
    if Truthy(sshKey) {
      CredentialBehind(params, " -i ", sshKey.value);
      assert Credential(sshKey, password, " -i " + sshKey.value);
    } else if Truthy(password) {
      CredentialBehind(params, " -P ", password.value);
      assert Credential(sshKey, password, " -P " + password.value);
    }
    forall text ensures Spells(CommandText(params + text, host, roles), host, env, username, text, roles) {
      SpelledOut("knife bootstrap " + host, env, username, text, " -r '" + RunList(roles) + "'");
    }
  }

  lemma CredentialBehind(params: string, option: string, value: string)
    ensures params + option + value == params + (option + value)
  {
  }

  lemma SpelledOut(head: string, env: string, username: string, text: string, tail: string)
    ensures head + (" -E " + env + " -x " + username + text) + tail
            == head + " -E " + env + " -x " + username + text + tail
  {
  }

  /** A command tells its host, whatever its options, and with the same options also its roles: the
      host is what stands between the program's name and the next blank. */
  lemma CommandTellsHost(p: string, q: string, m: string, n: string, a: seq<string>, b: seq<string>)
    requires NoBlank(m) && NoBlank(n) && p != "" && p[0] == ' ' && q != "" && q[0] == ' '
    requires CommandText(p, m, a) == CommandText(q, n, b)
    ensures m == n
    ensures p == q && CleanList(a) && CleanList(b) ==> a == b
  {
    var head, s := "knife bootstrap ", CommandText(p, m, a);
    assert s == head + m + (p + " -r '" + RunList(a) + "'");
    assert s == head + n + (q + " -r '" + RunList(b) + "'");
    var u, v := p + " -r '" + RunList(a) + "'", q + " -r '" + RunList(b) + "'";
    assert u[0] == ' ' && v[0] == ' ';
    FirstBlank(head, m, u, n, v);
    if p == q && CleanList(a) && CleanList(b) {
      CommandInjective(p, m, a, b);
    }
  }

  lemma FirstBlank(head: string, m: string, u: string, n: string, v: string)
    requires NoBlank(m) && NoBlank(n) && u != "" && u[0] == ' ' && v != "" && v[0] == ' '
    requires head + m + u == head + n + v
    ensures m == n
  {
    var s, t := head + m + u, head + n + v;
    assert forall k :: 0 <= k < |m| ==> s[|head| + k] == m[k];
    assert forall k :: 0 <= k < |n| ==> t[|head| + k] == n[k];
    assert s[|head| + |m|] == ' ' && t[|head| + |n|] == ' ';
  }

  ghost predicate CleanPlan(plan: seq<map<string, seq<string>>>) {
    forall i, node :: 0 <= i < |plan| && node in plan[i] ==> CleanList(plan[i][node])
  }

  /** The commands determine the plan: different plans compile to different commands. */
  lemma CommandsDeterminePlan(params: string, p: seq<map<string, seq<string>>>, q: seq<map<string, seq<string>>>)
    requires CleanPlan(p) && CleanPlan(q)
    requires CommandsOf(params, p) == CommandsOf(params, q)
    ensures p == q
  {
    forall i | 0 <= i < |p| ensures p[i] == q[i] {
      assert CommandMap(params, p[i]) == CommandMap(params, q[i]);
      SameStage(params, p[i], q[i]);
    }
  }

  lemma SameStage(params: string, a: map<string, seq<string>>, b: map<string, seq<string>>)
    requires forall node :: node in a ==> CleanList(a[node])
    requires forall node :: node in b ==> CleanList(b[node])
    requires CommandMap(params, a) == CommandMap(params, b)
    ensures a == b
  {
    assert a.Keys == CommandMap(params, a).Keys == CommandMap(params, b).Keys == b.Keys;
    forall node | node in a ensures a[node] == b[node] {
      assert CommandMap(params, a)[node] == CommandMap(params, b)[node];
      CommandInjective(params, node, a[node], b[node]);
    }
  }

  // ---------- COUNTER['TOTAL'] along a run ----------

  /** COUNTER['TOTAL'] after a run that began with it at c: every tick adds one, and launching a
      host of that very name overwrites it with the clock. */
  function TotalAfter(c: int, t: seq<Event>): int {
    if t == [] then c
    else
      var before := TotalAfter(c, t[..|t| - 1]);
      match t[|t| - 1]
      case Launch(_, host, _, now) => if host == "TOTAL" then now else before
      case Tick => before + 1
      case _ => before
  }

  lemma TotalSnoc(c: int, t: seq<Event>, e: Event)
    ensures TotalAfter(c, t + [e]) ==
            match e
            case Launch(_, host, _, now) => (if host == "TOTAL" then now else TotalAfter(c, t))
            case Tick => TotalAfter(c, t) + 1
            case _ => TotalAfter(c, t)
  {
    assert (t + [e])[..|t|] == t;
  }

  ghost predicate LaunchesTotal(t: seq<Event>, k: int) {
    0 <= k < |t| && t[k].Launch? && t[k].host == "TOTAL"
  }

  lemma {:induction false} TotalCountsTicks(c: int, t: seq<Event>)
    requires forall k :: !LaunchesTotal(t, k)
    ensures TotalAfter(c, t) == c + Ticks(t)
  {
    if t == [] {
    } else {
      var n := |t| - 1;
      assert !LaunchesTotal(t, n);
      forall k ensures !LaunchesTotal(t[..n], k) {
        assert LaunchesTotal(t[..n], k) ==> LaunchesTotal(t, k);
      }
      TotalCountsTicks(c, t[..n]);
    }
  }

  /** The same run under another clock. */
  ghost predicate SameButClock(t: seq<Event>, u: seq<Event>) {
    && |t| == |u|
    && forall k :: 0 <= k < |t| ==>
         if t[k].Launch? then u[k] == t[k].(now := if u[k].Launch? then u[k].now else 0) else u[k] == t[k]
  }

  /** After the last launch of a host named TOTAL, the counter is that clock reading plus the ticks
      since. */
  lemma {:induction false} OverwrittenTotal(c: int, t: seq<Event>, k: nat, now: int)
    requires LaunchesTotal(t, k) && forall m :: k < m ==> !LaunchesTotal(t, m)
    ensures TotalAfter(c, t[k := t[k].(now := now)]) == now + Ticks(t) - Ticks(t[..k])
  {
    var n := |t| - 1;
    var u := t[k := t[k].(now := now)];
    if k == n {
      assert Ticks(t) == Ticks(t[..n]);
    } else {
      assert !LaunchesTotal(t, n);
      var p := t[..n];
      forall m | k < m ensures !LaunchesTotal(p, m) {
        assert LaunchesTotal(p, m) ==> LaunchesTotal(t, m);
      }
      OverwrittenTotal(c, p, k, now);
      assert u[..n] == p[k := p[k].(now := now)];
      assert p[..k] == t[..k];
    }
  }

  lemma LastLaunchOfTotal(t: seq<Event>, k: nat) returns (last: nat)
    requires LaunchesTotal(t, k)
    ensures LaunchesTotal(t, last) && forall m :: last < m ==> !LaunchesTotal(t, m)
    decreases |t| - k
  {
    if m :| k < m && LaunchesTotal(t, m) {
      last := LastLaunchOfTotal(t, m);
    } else {
      last := k;
    }
  }

  /** COUNTER['TOTAL'] counts the seconds slept, whatever the clock shows, exactly on runs that
      launch no host named TOTAL: hosts and the counter share one dictionary. */
  lemma TotalIsExactIff(c: int, t: seq<Event>)
    ensures (forall u :: SameButClock(t, u) ==> TotalAfter(c, u) == c + Ticks(u))
            <==> (forall k :: !LaunchesTotal(t, k))
  {
    if forall k :: !LaunchesTotal(t, k) {
      forall u | SameButClock(t, u) ensures TotalAfter(c, u) == c + Ticks(u) {
        forall k ensures !LaunchesTotal(u, k) {
          assert !LaunchesTotal(t, k);
        }
        TotalCountsTicks(c, u);
      }
    } else {
      var k :| LaunchesTotal(t, k);
      var last := LastLaunchOfTotal(t, k);
      var now := c + Ticks(t[..last]) + 1;
      var u := t[last := t[last].(now := now)];
      OverwrittenTotal(c, t, last, now);
      assert SameButClock(t, u);
      SameTicks(t, u);
    }
  }

  lemma {:induction false} SameTicks(t: seq<Event>, u: seq<Event>)
    requires SameButClock(t, u)
    ensures Ticks(t) == Ticks(u)
  {
    if t == [] {
    } else {
      var n := |t| - 1;
      assert SameButClock(t[..n], u[..n]);
      SameTicks(t[..n], u[..n]);
      assert t[n].Launch? || u[n] == t[n];
    }
  }

  /** Some of the first n stages has a host named TOTAL. */
  ghost predicate NamesTotal(cs: Commands, n: nat) {
    exists i :: 0 <= i < n && i < |cs| && "TOTAL" in cs[i]
  }

  lemma LaunchedIsNamed(cs: Commands, t: seq<Event>, s: State, k: nat)
    requires Run(cs, t) == Some(s) && LaunchesTotal(t, k)
    ensures NamesTotal(cs, s.stage + 1)
  {
    var i := t[k].stage;
    LaunchIsCounted(t, k);
    HistoryOfCommand(cs, t, i, "TOTAL");
    assert i <= s.stage && i < |cs| && "TOTAL" in cs[i];
  }

  /** The seconds that a deployment ending in state s takes. */
  ghost function Seconds(cs: Commands, f: Fates, s: State): int
    requires s.stage <= |cs|
  {
    Elapsed(cs, f, s.stage) + (if s.phase.Aborted? then f(s.stage, s.phase.culprit).round else 0)
  }

  /** When no stage that was entered has a host named TOTAL, a deployment raises COUNTER['TOTAL'] by
      exactly the sum of the latest finish rounds of the drained stages, plus on failure the
      culprit's finish round. */
  lemma TotalOfDeployment(cs: Commands, f: Fates, t: seq<Event>, s: State, c: int)
    requires Reaches(cs, f, t, s) && Over(s)
    requires !NamesTotal(cs, s.stage + 1)
    ensures s.stage <= |cs| && TotalAfter(c, t) == c + Seconds(cs, f, s)
  {
    ExactOutcome(cs, f, t, s);
    ReachableInv(cs, t);
    forall k ensures !LaunchesTotal(t, k) {
      if LaunchesTotal(t, k) {
        LaunchedIsNamed(cs, t, s, k);
      }
    }
    TotalCountsTicks(c, t);
  }

  /** Whenever a run is not in the middle of launching, so also when it has returned or exited: under
      every clock the counter is right exactly when no stage entered so far has a host named TOTAL. */
  lemma TotalIsRightIff(cs: Commands, t: seq<Event>, s: State, c: int)
    requires Run(cs, t) == Some(s) && !s.phase.Launching?
    ensures (forall u :: SameButClock(t, u) ==> TotalAfter(c, u) == c + Ticks(u)) <==> !NamesTotal(cs, s.stage + 1)
  {
    TotalIsExactIff(c, t);
    if NamesTotal(cs, s.stage + 1) {
      var i: nat :| i < s.stage + 1 && i < |cs| && "TOTAL" in cs[i];
      HistoryOfCommand(cs, t, i, "TOTAL");
      var k := LaunchInHistory(t, i, "TOTAL");
      assert LaunchesTotal(t, k);
    } else {
      forall k ensures !LaunchesTotal(t, k) {
        if LaunchesTotal(t, k) {
          LaunchedIsNamed(cs, t, s, k);
        }
      }
    }
  }

  // ---------- the class ----------

  datatype Process = Process(stage: nat, host: string)

  datatype Log = Opened | Closed

  datatype Exit = ExitOne

  datatype Status = Returned | Exited(culprit: string)

  /** `process.poll()` in a given poll round. */
  function Poll(f: Fates, p: Process, round: nat): Option<int> {
    if f(p.stage, p.host).round <= round then Some(f(p.stage, p.host).code) else None
  }

  class Chef {
    var commands: Commands
    var counter: map<string, int>

    constructor (now: int)
      ensures commands == [] && counter == map["TOTAL" := 0, "timestart" := now]
    {
      commands := [];
      counter := map["TOTAL" := 0, "timestart" := now];
    }

    method GetCommands(
      plan: seq<map<string, seq<string>>>, env: string, username: string,
      sshKey: Option<string>, password: Option<string>)
      returns (r: Result<Commands, Exit>)
      modifies this`commands
      ensures Params(env, username, sshKey, password).None? ==>
        r == Failure(ExitOne) && commands == old(commands)
      ensures Params(env, username, sshKey, password).Some? ==>
        r == Success(CommandsOf(Params(env, username, sshKey, password).value, plan)) && commands == r.value
      ensures r.Success? <==> exists text :: Credential(sshKey, password, text)
      ensures forall i, node, text :: r.Success? && 0 <= i < |plan| && node in plan[i] && Credential(sshKey, password, text) ==>
        node in r.value[i] && Spells(r.value[i][node], node, env, username, text, plan[i][node])
    {
      var params := " -E " + env + " -x " + username;
      if Truthy(sshKey) {
        params := params + " -i " + sshKey.value;
      } else if Truthy(password) {
        params := params + " -P " + password.value;
      } else {
        CommandMeaning(env, username, sshKey, password, "", []);
        return Failure(ExitOne);
      }
      var list: Commands := [];
      for i := 0 to |plan|
        invariant list == CommandsOf(params, plan[..i])
        invariant commands == old(commands)
      {
        var dict := StageCommands(params, plan[i]);
        assert CommandsOf(params, plan[..i + 1]) == CommandsOf(params, plan[..i]) + [dict];
        list := list + [dict];
      }
      assert plan[..|plan|] == plan;
      forall node, roles ensures
        forall text :: Credential(sshKey, password, text) ==> Spells(CommandText(params, node, roles), node, env, username, text, roles)
      {
        CommandMeaning(env, username, sshKey, password, node, roles);
      }
      CommandMeaning(env, username, sshKey, password, "", []);
      commands := list;
      return Success(list);
    }

    /** The commands of one stage, with `info.items()` in any order. */
    method StageCommands(params: string, info: map<string, seq<string>>) returns (dict: map<string, string>)
      ensures dict == CommandMap(params, info)
    {
      dict := map[];
      var pending := info.Keys;
      while pending != {}
        invariant pending <= info.Keys
        invariant dict.Keys == info.Keys - pending
        invariant forall node :: node in dict ==> dict[node] == CommandText(params, node, info[node])
        decreases |pending|
      {
        var node :| node in pending;
        pending := pending - {node};
        var runList := ListToString(info[node]);
        dict := dict[node := "knife bootstrap " + node + params + " -r '" + runList + "'"];
      }
    }

    method Sleep(count: int)
      requires "TOTAL" in counter
      modifies this`counter
      ensures counter == old(counter)["TOTAL" := old(counter["TOTAL"]) + if count > 0 then count else 0]
    {
      var i := count;
      while i > 0
        invariant count > 0 ==> 0 <= i <= count
        invariant "TOTAL" in counter
        invariant counter == old(counter)["TOTAL" := old(counter["TOTAL"]) + if count > 0 then count - i else 0]
      {
        counter := counter["TOTAL" := counter["TOTAL"] + 1];
        i := i - 1;
      }
    }

    /** COUNTER['TOTAL'] is what the run so far makes of its first value. */
    ghost predicate Counts(c: int, t: seq<Event>)
      reads this`counter
    {
      "TOTAL" in counter && counter["TOTAL"] == TotalAfter(c, t)
    }

    /** Launches a whole stage, in any order and at any clock readings. */
    method LaunchStage(ghost cs: Commands, ghost f: Fates, i: nat, info: map<string, string>,
                       ghost c: int, ghost t0: seq<Event>, ghost s0: State)
      returns (dict: map<string, Process>, fp: map<string, Log>, ghost t: seq<Event>, ghost s: State)
      requires i < |cs| && info == cs[i]
      requires Reaches(cs, f, t0, s0) && s0 == EnterStage(cs, i, s0.open, s0.ticks)
      requires Counts(c, t0)
      modifies this`counter
      ensures Reaches(cs, f, t, s) && s.stage == i && s.round == 0
      ensures s.phase == Polling(info.Keys) && s.running == info.Keys
      ensures dict.Keys == info.Keys && Mirrors(i, s.running, dict, fp)
      ensures t0 <= t
      ensures Counts(c, t)
    {
      dict, fp, t, s := map[], map[], t0, s0;
      var pending := info.Keys;
      while pending != {}
        invariant pending <= info.Keys
        invariant t0 <= t && Reaches(cs, f, t, s)
        invariant s.stage == i && s.phase == Launching(pending)
        invariant Mirrors(i, s.running, dict, fp)
        invariant Counts(c, t)
        decreases |pending|
      {
        var node :| node in pending;
        pending := pending - {node};
        dict, fp, t, s := LaunchHost(cs, f, i, node, dict, fp, c, t, s);
      }
      t, s := LaunchOver(cs, f, c, t, s);
    }

    /** One host: its clock reading, its log and its process. */
    method LaunchHost(ghost cs: Commands, ghost f: Fates, i: nat, node: string,
                      dict0: map<string, Process>, fp0: map<string, Log>,
                      ghost c: int, ghost t0: seq<Event>, ghost s0: State)
      returns (dict: map<string, Process>, fp: map<string, Log>, ghost t: seq<Event>, ghost s: State)
      requires Reaches(cs, f, t0, s0) && s0.stage == i && s0.phase.Launching? && node in s0.phase.todo
      requires Mirrors(i, s0.running, dict0, fp0)
      requires Counts(c, t0)
      modifies this`counter
      ensures t0 <= t && Reaches(cs, f, t, s)
      ensures |t| == |t0| + 1 && t[|t0|].Launch? && t[|t0|].host == node
      ensures counter == old(counter)[node := t[|t0|].now]
      ensures s.stage == i && s.phase == Launching(s0.phase.todo - {node})
      ensures Mirrors(i, s.running, dict, fp)
      ensures Counts(c, t)
    {
      var now: int := *;
      t, s := LaunchNext(cs, f, c, t0, s0, node, now);
      MirrorsLaunch(i, s0.running, dict0, fp0, node);
      counter := counter[node := now];
      fp := fp0[node := Opened];
      dict := dict0[node := Process(i, node)];
    }

    /** One pass over a snapshot of `dict`, in any order: finished processes are reaped and their
        logs closed, until one of them turns out to have failed. */
    method PollRound(ghost cs: Commands, f: Fates, i: nat, round: nat,
                     dict0: map<string, Process>, fp0: map<string, Log>,
                     ghost c: int, ghost t0: seq<Event>, ghost s0: State)
      returns (culprit: Option<string>, dict: map<string, Process>, fp: map<string, Log>,
               ghost t: seq<Event>, ghost s: State)
      requires Reaches(cs, f, t0, s0) && s0.stage == i && s0.round == round
      requires s0.phase == Polling(dict0.Keys) && Mirrors(i, s0.running, dict0, fp0)
      requires Counts(c, t0)
      ensures Reaches(cs, f, t, s) && s.stage == i && s.round == round
      ensures t0 <= t
      ensures s.phase == if culprit.Some? then Aborted(culprit.value) else Polling({})
      ensures Mirrors(i, s.running, dict, fp)
      ensures Counts(c, t)
    {
      culprit, dict, fp, t, s := None, dict0, fp0, t0, s0;
      var pending := dict.Keys;
      while pending != {}
        invariant pending <= dict.Keys
        invariant Reaches(cs, f, t, s) && s.stage == i && s.round == round
        invariant t0 <= t
        invariant s.phase == Polling(pending)
        invariant Mirrors(i, s.running, dict, fp)
        invariant Counts(c, t)
        decreases |pending|
      {
        var node :| node in pending;
        pending := pending - {node};
        var code := Poll(f, dict[node], round);
        ghost var e := if code.Some? then Reap(i, node, code.value) else Waiting(i, node);
        Extend(cs, f, t, s, e);
        TotalSnoc(c, t, e);
        t, s := t + [e], Next(cs, s, e).value;
        if code.Some? {
          fp := fp[node := Closed];
          dict := dict - {node};
          if code.value != 0 {
            culprit := Some(node);
            return;
          }
        }
      }
    }

    /** A whole stage: launch it, then poll and sleep until it has drained or something failed. */
    method RunStage(ghost cs: Commands, f: Fates, i: nat, info: map<string, string>,
                    ghost c: int, ghost t0: seq<Event>, ghost s0: State)
      returns (culprit: Option<string>, ghost t: seq<Event>, ghost s: State)
      requires i < |cs| && info == cs[i]
      requires Reaches(cs, f, t0, s0) && s0 == EnterStage(cs, i, s0.open, s0.ticks)
      requires Counts(c, t0)
      modifies this`counter
      ensures t0 <= t && Reaches(cs, f, t, s)
      ensures culprit.Some? ==> s.phase == Aborted(culprit.value)
      ensures culprit.None? ==> s == EnterStage(cs, i + 1, s.open, s.ticks)
      ensures Counts(c, t)
    {
      var dict, fp;
      dict, fp, t, s := LaunchStage(cs, f, i, info, c, t0, s0);
      var round := 0;
      while true
        invariant Reaches(cs, f, t, s) && s.stage == i && s.round == round
        invariant t0 <= t
        invariant s.phase == Polling(dict.Keys) && Mirrors(i, s.running, dict, fp)
        invariant Counts(c, t)
        invariant round <= LastRound(f, i, info.Keys)
        decreases LastRound(f, i, info.Keys) - round
      {
        culprit, dict, fp, t, s := PollAndSleep(cs, f, i, round, dict, fp, c, t, s);
        if culprit.Some? || |dict| == 0 {
          return;
        }
        round := round + 1;
      }
    }

    /** One turn of the polling loop: a poll round and, when it has left something running, a sleep. */
    method PollAndSleep(ghost cs: Commands, f: Fates, i: nat, round: nat,
                        dict0: map<string, Process>, fp0: map<string, Log>,
                        ghost c: int, ghost t0: seq<Event>, ghost s0: State)
      returns (culprit: Option<string>, dict: map<string, Process>, fp: map<string, Log>,
               ghost t: seq<Event>, ghost s: State)
      requires i < |cs|
      requires Reaches(cs, f, t0, s0) && s0.stage == i && s0.round == round
      requires s0.phase == Polling(dict0.Keys) && Mirrors(i, s0.running, dict0, fp0)
      requires Counts(c, t0)
      modifies this`counter
      ensures t0 <= t && Reaches(cs, f, t, s)
      ensures culprit.Some? ==> s.phase == Aborted(culprit.value)
      ensures culprit.None? && dict == map[] ==> s == EnterStage(cs, i + 1, s.open, s.ticks)
      ensures culprit.None? && dict != map[] ==>
        && s.stage == i && s.round == round + 1 && round < LastRound(f, i, cs[i].Keys)
        && s.phase == Polling(dict.Keys) && Mirrors(i, s.running, dict, fp)
      ensures Counts(c, t)
    {
      culprit, dict, fp, t, s := PollRound(cs, f, i, round, dict0, fp0, c, t0, s0);
      if culprit.None? {
        t, s := Settle(cs, f, c, t, s);
        if |dict| > 0 {
          Sleep(1);
        }
      }
    }

    /** The whole deployment. Whatever orders and clock readings come up, what it does is a run of
        the transition system that obeys the fates and is over when the method is; it returns
        exactly when that run finished, and otherwise exits because of the run's culprit. */
    method Bootstrap(cs: Commands, f: Fates)
      returns (status: Status, ghost t: seq<Event>, ghost s: State)
      requires "TOTAL" in counter
      modifies this`counter
      ensures Reaches(cs, f, t, s) && Over(s)
      ensures status == if s.phase.Finished? then Returned else Exited(s.phase.culprit)
      ensures Counts(old(counter["TOTAL"]), t)
      ensures s.stage <= |cs|
      ensures !NamesTotal(cs, s.stage + 1) ==> counter["TOTAL"] == old(counter["TOTAL"]) + Seconds(cs, f, s)
    {
      ghost var c := counter["TOTAL"];
      t, s := [], EnterStage(cs, 0, {}, 0);
      for i := 0 to |cs|
        invariant Reaches(cs, f, t, s) && s == EnterStage(cs, i, s.open, s.ticks)
        invariant Counts(c, t)
      {
        var culprit;
        culprit, t, s := RunStage(cs, f, i, cs[i], c, t, s);
        if culprit.Some? {
          SecondsSpent(cs, f, t, s, c);
          return Exited(culprit.value), t, s;
        }
      }
      SecondsSpent(cs, f, t, s, c);
      return Returned, t, s;
    }
  }

  lemma SecondsSpent(cs: Commands, f: Fates, t: seq<Event>, s: State, c: int)
    requires Reaches(cs, f, t, s) && Over(s)
    ensures s.stage <= |cs| && (!NamesTotal(cs, s.stage + 1) ==> TotalAfter(c, t) == c + Seconds(cs, f, s))
  {
    ReachableInv(cs, t);
    if !NamesTotal(cs, s.stage + 1) {
      TotalOfDeployment(cs, f, t, s, c);
    }
  }

  /** The program's dictionaries show exactly the running processes of stage i and open logs. */
  ghost predicate Mirrors(i: nat, running: set<string>, dict: map<string, Process>, fp: map<string, Log>) {
    && dict.Keys == running
    && (forall h :: h in dict ==> dict[h] == Process(i, h))
    && (forall h :: h in dict <==> h in fp && fp[h].Opened?)
  }

  /** One more event that is enabled and agrees with the fates. */
  lemma Extend(cs: Commands, f: Fates, t: seq<Event>, s: State, e: Event)
    requires Reaches(cs, f, t, s)
    requires Next(cs, s, e).Some? && Answers(f, s, e)
    ensures Reaches(cs, f, t + [e], Next(cs, s, e).value)
  {
    assert (t + [e])[..|t|] == t;
  }

  lemma LaunchNext(cs: Commands, f: Fates, c: int, t: seq<Event>, s: State, host: string, now: int)
    returns (t': seq<Event>, s': State)
    requires Reaches(cs, f, t, s) && s.phase.Launching? && host in s.phase.todo
    ensures s.stage < |cs| && host in cs[s.stage] && t' == t + [Launch(s.stage, host, cs[s.stage][host], now)]
    ensures Reaches(cs, f, t', s')
    ensures s'.stage == s.stage && s'.phase == Launching(s.phase.todo - {host}) && s'.running == s.running + {host}
    ensures TotalAfter(c, t') == if host == "TOTAL" then now else TotalAfter(c, t)
  {
    ReachableInv(cs, t);
    var e := Launch(s.stage, host, cs[s.stage][host], now);
    Extend(cs, f, t, s, e);
    TotalSnoc(c, t, e);
    t', s' := t + [e], Next(cs, s, e).value;
  }

  lemma LaunchOver(cs: Commands, f: Fates, c: int, t: seq<Event>, s: State) returns (t': seq<Event>, s': State)
    requires Reaches(cs, f, t, s) && s.phase == Launching({})
    ensures t <= t' && Reaches(cs, f, t', s') && s' == s.(phase := Polling(s.running))
    ensures s.stage < |cs| && s.running == cs[s.stage].Keys && s.round == 0
    ensures TotalAfter(c, t') == TotalAfter(c, t)
  {
    ReachableInv(cs, t);
    Extend(cs, f, t, s, EndLaunch);
    TotalSnoc(c, t, EndLaunch);
    t', s' := t + [EndLaunch], Next(cs, s, EndLaunch).value;
  }

  lemma MirrorsLaunch(i: nat, running: set<string>, dict: map<string, Process>, fp: map<string, Log>, node: string)
    requires Mirrors(i, running, dict, fp)
    ensures Mirrors(i, running + {node}, dict[node := Process(i, node)], fp[node := Opened])
  {
  }

  /** After a complete poll round the stage ends when nothing runs and otherwise sleeps, and in the
      latter case the latest finish round is still ahead. */
  lemma Settle(cs: Commands, f: Fates, c: int, t: seq<Event>, s: State) returns (t': seq<Event>, s': State)
    requires Reaches(cs, f, t, s) && s.phase == Polling({})
    ensures t <= t' && Reaches(cs, f, t', s')
    ensures s.running == {} ==>
      s' == EnterStage(cs, s.stage + 1, s.open, s.ticks) && TotalAfter(c, t') == TotalAfter(c, t)
    ensures s.running != {} ==>
      && s' == s.(phase := Polling(s.running), round := s.round + 1, ticks := s.ticks + 1)
      && s.stage < |cs| && s.round < LastRound(f, s.stage, cs[s.stage].Keys)
      && TotalAfter(c, t') == TotalAfter(c, t) + 1
  {
    RunsOnTime(cs, f, t, s);
    var e := if s.running == {} then EndStage else Tick;
    if s.running != {} {
      TickLeavesRounds(cs, f, s);
    }
    Extend(cs, f, t, s, e);
    TotalSnoc(c, t, e);
    t', s' := t + [e], Next(cs, s, e).value;
  }
}
