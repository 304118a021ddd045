/** The staged deployment plan that XMLParser computes from a cluster description.

    The XML document is reduced to what the parser reads from it: for every `node` element the
    text of its first `host` and first `roles` element, the `sequence` attribute of `order`, and
    for every element name the text of the first element so named. A missing element or an
    element without text makes the Python code raise. */
module Planner {
  import opened Wrappers
  import opened Text
  import opened RoleLists

  datatype NodeElement = NodeElement(host: Option<string>, roles: Option<string>)

  datatype Config = Config(nodes: seq<NodeElement>, sequence: string, texts: map<string, string>)

  /** The element whose text was missing. */
  datatype Error = NoText(tag: string)

  /** One stage of the plan: the ordered roles each host receives in it. */
  type Stage = map<string, seq<string>>

  // ---------- the plan, defined without loops ----------

  predicate HostsReadable(c: Config) {
    forall k :: 0 <= k < |c.nodes| ==> c.nodes[k].host.Some?
  }

  predicate RolesReadable(c: Config) {
    forall k :: 0 <= k < |c.nodes| ==> c.nodes[k].roles.Some?
  }

  function StageNames(c: Config): seq<string> {
    ParseList(c.sequence)
  }

  predicate StagesReadable(c: Config) {
    forall k :: 0 <= k < |StageNames(c)| ==> StageNames(c)[k] in c.texts
  }

  /** The role list of every stage named by the order, in that order. */
  function StageRoles(c: Config): (stages: seq<seq<string>>)
    requires StagesReadable(c)
    ensures |stages| == |StageNames(c)|
  {
    seq(|StageNames(c)|, k requires 0 <= k < |StageNames(c)| => ParseList(c.texts[StageNames(c)[k]]))
  }

  predicate SomeStageHasRoles(c: Config)
    requires StagesReadable(c)
  {
    exists k :: 0 <= k < |StageNames(c)| && |StageRoles(c)[k]| > 0
  }

  /** The inputs on which the planner does not raise. Node roles are only read once some stage
      names a role. */
  predicate Readable(c: Config) {
    HostsReadable(c) && StagesReadable(c) && (SomeStageHasRoles(c) ==> RolesReadable(c))
  }

  /** host -> role list; a host listed twice keeps its last role list. */
  function HostRoles(nodes: seq<NodeElement>): map<string, seq<string>> {
    if nodes == [] then map[]
    else
      var n := |nodes| - 1;
      HostRoles(nodes[..n])[HostOf(nodes[n]) := ParseList(nodes[n].roles.GetOr(""))]
  }

  /** The roles of a stage that a host with these roles receives, in stage order. */
  function Assigned<R(==)>(stage: seq<R>, roles: seq<R>): seq<R> {
    if stage == [] then []
    else
      var n := |stage| - 1;
      Assigned(stage[..n], roles) + (if stage[n] in roles then [stage[n]] else [])
  }

  function StageMap<H, R(==)>(stage: seq<R>, hosts: map<H, seq<R>>): map<H, seq<R>> {
    map h | h in hosts && Assigned(stage, hosts[h]) != [] :: Assigned(stage, hosts[h])
  }

  function StageMaps(stages: seq<seq<string>>, hosts: map<string, seq<string>>): (maps: seq<Stage>)
    ensures |maps| == |stages|
  {
    seq(|stages|, k requires 0 <= k < |stages| => StageMap(stages[k], hosts))
  }

  /** The positions of the stages that give some host something to do. */
  function Kept(maps: seq<Stage>): (kept: seq<nat>)
    ensures forall p :: 0 <= p < |kept| ==> kept[p] < |maps|
  {
    if maps == [] then []
    else
      var n := |maps| - 1;
      Kept(maps[..n]) + (if maps[n] != map[] then [n] else [])
  }

  function Compact(maps: seq<Stage>): seq<Stage> {
    var kept := Kept(maps);
    seq(|kept|, p requires 0 <= p < |kept| => maps[kept[p]])
  }

  /** All stages, idle ones included. */
  function AllStages(c: Config): seq<Stage>
    requires StagesReadable(c)
  {
    StageMaps(StageRoles(c), HostRoles(c.nodes))
  }

  function Plan(c: Config): seq<Stage>
    requires Readable(c)
  {
    Compact(AllStages(c))
  }

  // ---------- what those definitions say ----------

  lemma {:induction false} AssignedMembers<R>(stage: seq<R>, roles: seq<R>)
    ensures forall x :: x in Assigned(stage, roles) <==> x in stage && x in roles
    ensures NoDuplicates(stage) ==> NoDuplicates(Assigned(stage, roles))
  {
    if stage == [] {
    } else {
      var n := |stage| - 1;
      AssignedMembers(stage[..n], roles);
      assert stage == stage[..n] + [stage[n]];
    }
  }

  lemma AssignedMeaning(stage: seq<string>, roles: seq<string>)
    ensures forall x :: x in Assigned(stage, roles) <==> x in stage && x in roles
    ensures NoDuplicates(stage) ==> NoDuplicates(Assigned(stage, roles))
    ensures TidyList(stage) ==> TidyList(Assigned(stage, roles))
  {
    AssignedMembers(stage, roles);
    var a := Assigned(stage, roles);
    forall k | 0 <= k < |a| ensures a[k] in stage {
      assert a[k] in a;
    }
  }

  /** A host receives its roles in the order in which the stage lists them. */
  lemma {:induction false} AssignedInOrder<R>(stage: seq<R>, roles: seq<R>, x: R, y: R)
    requires x in roles && y in roles
    ensures Before(Assigned(stage, roles), x, y) <==> Before(stage, x, y)
    ensures x in Assigned(stage, roles) <==> x in stage
  {
    if stage == [] {
    } else {
      var n := |stage| - 1;
      var before := stage[..n];
      assert stage == before + [stage[n]];
      AssignedInOrder(before, roles, x, y);
      BeforeSnoc(before, stage[n], x, y);
      if stage[n] in roles {
        BeforeSnoc(Assigned(before, roles), stage[n], x, y);
      } else {
        assert Assigned(stage, roles) == Assigned(before, roles);
      }
    }
  }

  function HostOf(node: NodeElement): string {
    node.host.GetOr("")
  }

  lemma HostRolesSnoc(nodes: seq<NodeElement>, i: nat)
    requires i < |nodes|
    ensures HostRoles(nodes[..i + 1]) ==
            HostRoles(nodes[..i])[HostOf(nodes[i]) := ParseList(nodes[i].roles.GetOr(""))]
  {
    assert nodes[..i + 1][..i] == nodes[..i];
  }

  /** The last node element that names host h, or -1. */
  ghost function LastNode(nodes: seq<NodeElement>, h: string): (k: int)
    ensures -1 <= k < |nodes|
    ensures k >= 0 ==> HostOf(nodes[k]) == h
    ensures forall m :: k < m < |nodes| ==> HostOf(nodes[m]) != h
  {
    if nodes == [] then -1
    else
      var n := |nodes| - 1;
      if HostOf(nodes[n]) == h then n else LastNode(nodes[..n], h)
  }

  /** The hosts are those the node elements name, each with the roles of its last element. */
  lemma {:induction false} HostRolesMeaning(nodes: seq<NodeElement>, h: string)
    ensures h in HostRoles(nodes) <==> LastNode(nodes, h) >= 0
    ensures h in HostRoles(nodes) ==>
      HostRoles(nodes)[h] == ParseList(nodes[LastNode(nodes, h)].roles.GetOr(""))
  {
    if nodes == [] {
    } else {
      HostRolesMeaning(nodes[..|nodes| - 1], h);
      HostRolesSnoc(nodes, |nodes| - 1);
      assert nodes[..|nodes|] == nodes;
    }
  }

  lemma {:induction false} KeptMeaning(maps: seq<Stage>)
    ensures forall p, q :: 0 <= p < q < |Kept(maps)| ==> Kept(maps)[p] < Kept(maps)[q]
    ensures forall i :: i in Kept(maps) <==> 0 <= i < |maps| && maps[i] != map[]
  {
    if maps == [] {
    } else {
      var n := |maps| - 1;
      KeptMeaning(maps[..n]);
    }
  }

  lemma KeptInOrder(maps: seq<Stage>, q: nat, p: nat)
    requires q < |Kept(maps)| && p < |Kept(maps)|
    requires Kept(maps)[q] < Kept(maps)[p]
    ensures q < p
  {
    KeptMeaning(maps);
  }

  /** The plan, stage by stage: plan entry p is original stage Kept[p]; an original stage is kept
      exactly when some host has one of its roles; a host is present exactly when it has one; and
      what it receives is a tidy list of exactly those roles. */
  lemma PlanMeaning(c: Config)
    requires Readable(c)
    ensures var kept := Kept(AllStages(c));
            && |Plan(c)| == |kept|
            && (forall p, q :: 0 <= p < q < |kept| ==> kept[p] < kept[q])
            && (forall p :: 0 <= p < |kept| ==> Plan(c)[p] == AllStages(c)[kept[p]] && Plan(c)[p] != map[])
    ensures forall i :: i in Kept(AllStages(c)) <==>
              0 <= i < |StageRoles(c)| && exists h :: h in AllStages(c)[i]
    ensures forall i, h :: 0 <= i < |StageRoles(c)| ==>
              (h in AllStages(c)[i] <==>
               h in HostRoles(c.nodes) && exists r :: r in StageRoles(c)[i] && r in HostRoles(c.nodes)[h])
    ensures forall i, h :: 0 <= i < |StageRoles(c)| && h in AllStages(c)[i] ==>
              && TidyList(AllStages(c)[i][h])
              && (forall r :: r in AllStages(c)[i][h] <==> r in StageRoles(c)[i] && r in HostRoles(c.nodes)[h])
  {
    var stages, hosts := AllStages(c), HostRoles(c.nodes);
    KeptMeaning(stages);
    forall p | 0 <= p < |Kept(stages)| ensures stages[Kept(stages)[p]] != map[] {
      assert Kept(stages)[p] in Kept(stages);
    }
    forall i | 0 <= i < |stages| ensures stages[i] != map[] <==> exists h :: h in stages[i] {
      if stages[i] != map[] {
        assert stages[i].Keys != {};
      }
    }
    forall i, h | 0 <= i < |stages| && h in hosts
      ensures h in stages[i] <==> exists r :: r in StageRoles(c)[i] && r in hosts[h]
      ensures h in stages[i] ==> TidyList(stages[i][h])
      ensures h in stages[i] ==> forall r :: r in stages[i][h] <==> r in StageRoles(c)[i] && r in hosts[h]
    {
      StageIsTidy(c, i);
      StageMapMeaning(StageRoles(c)[i], hosts, h);
    }
  }

  lemma StageMapMeaning(stage: seq<string>, hosts: map<string, seq<string>>, h: string)
    requires TidyList(stage) && h in hosts
    ensures h in StageMap(stage, hosts) <==> exists r :: r in stage && r in hosts[h]
    ensures h in StageMap(stage, hosts) ==> TidyList(StageMap(stage, hosts)[h])
    ensures h in StageMap(stage, hosts) ==> forall r :: r in StageMap(stage, hosts)[h] <==> r in stage && r in hosts[h]
  {
    AssignedNonEmpty(stage, hosts[h]);
  }

  lemma AssignedNonEmpty(stage: seq<string>, roles: seq<string>)
    requires TidyList(stage)
    ensures Assigned(stage, roles) != [] <==> exists r :: r in stage && r in roles
    ensures TidyList(Assigned(stage, roles))
    ensures forall x :: x in Assigned(stage, roles) <==> x in stage && x in roles
  {
    AssignedMeaning(stage, roles);
    var a := Assigned(stage, roles);
    if a != [] {
      assert a[0] in a;
    }
  }

  // ---------- the description, read from its texts ----------

  /** The names are those of the sequence in the order in which it first lists them, and each stage
      holds the items of the text of its name. */
  ghost predicate FollowsTexts(c: Config, names: seq<string>, stages: seq<seq<string>>) {
    && Represents(Split(c.sequence, ','), names) && |stages| == |names|
    && forall k :: 0 <= k < |names| ==> names[k] in c.texts && Represents(Split(c.texts[names[k]], ','), stages[k])
  }

  lemma StagesFollowTexts(c: Config)
    requires StagesReadable(c)
    ensures FollowsTexts(c, StageNames(c), StageRoles(c))
  {
    var names := StageNames(c);
    CleanedMeaning(Split(c.sequence, ','));
    forall k | 0 <= k < |names| ensures Represents(Split(c.texts[names[k]], ','), StageRoles(c)[k]) {
      CleanedMeaning(Split(c.texts[names[k]], ','));
    }
  }

  /** The texts leave no choice of the stages or of their order. */
  lemma StageRolesMeaning(c: Config, names: seq<string>, stages: seq<seq<string>>)
    requires StagesReadable(c)
    ensures FollowsTexts(c, names, stages) <==> names == StageNames(c) && stages == StageRoles(c)
  {
    StagesFollowTexts(c);
    if FollowsTexts(c, names, stages) {
      RepresentsUnique(Split(c.sequence, ','), names, StageNames(c));
      forall k | 0 <= k < |names| ensures stages[k] == StageRoles(c)[k] {
        RepresentsUnique(Split(c.texts[names[k]], ','), stages[k], StageRoles(c)[k]);
      }
    }
  }

  /** Element k is the last one with this host. */
  ghost predicate DecidesHost(c: Config, k: int, h: string) {
    && 0 <= k < |c.nodes| && c.nodes[k].host == Some(h)
    && forall m :: k < m < |c.nodes| ==> c.nodes[m].host != Some(h)
  }

  /** The last element with this host lists the role. */
  ghost predicate Carries(c: Config, h: string, r: string) {
    exists k :: DecidesHost(c, k, h) && c.nodes[k].roles.Some? && Lists(c.nodes[k].roles.value, r)
  }

  lemma CarriesMeaning(c: Config, h: string, r: string)
    requires HostsReadable(c)
    ensures Carries(c, h, r) <==> h in HostRoles(c.nodes) && r in HostRoles(c.nodes)[h]
  {
    HostRolesMeaning(c.nodes, h);
    var k := LastNode(c.nodes, h);
    if k >= 0 {
      assert DecidesHost(c, k, h);
      forall m | DecidesHost(c, m, h) ensures m == k {
        assert HostOf(c.nodes[m]) == h;
      }
      assert Split("", ',') == [""];
      EmptyList();
      ItemsOfText(c.nodes[k].roles.GetOr(""), r);
    } else {
      assert forall m :: 0 <= m < |c.nodes| ==> HostOf(c.nodes[m]) != h;
    }
  }

  lemma EmptyList()
    ensures ParseList("") == []
  {
    Reparse([]);
  }

  /** The planner does not raise exactly when every element has a host, every name in the sequence has
      a text, and, once one of those texts lists a role, every element has roles. */
  lemma ReadableMeaning(c: Config)
    ensures Readable(c) <==>
      && (forall k :: 0 <= k < |c.nodes| ==> c.nodes[k].host.Some?)
      && (forall n :: Lists(c.sequence, n) ==> n in c.texts)
      && ((exists n, r :: Lists(c.sequence, n) && n in c.texts && Lists(c.texts[n], r)) ==>
            forall k :: 0 <= k < |c.nodes| ==> c.nodes[k].roles.Some?)
  {
    var names := StageNames(c);
    forall n ensures Lists(c.sequence, n) <==> n in names {
      ItemsOfText(c.sequence, n);
    }
    assert StagesReadable(c) <==> forall n :: n in names ==> n in c.texts;
    if StagesReadable(c) {
      forall k | 0 <= k < |names|
        ensures |StageRoles(c)[k]| > 0 <==> exists r :: Lists(c.texts[names[k]], r)
      {
        NonEmptyList(c.texts[names[k]]);
      }
    }
  }

  lemma NonEmptyList(text: string)
    ensures |ParseList(text)| > 0 <==> exists r :: Lists(text, r)
  {
    if |ParseList(text)| > 0 {
      ItemsOfText(text, ParseList(text)[0]);
    }
    if r :| Lists(text, r) {
      ItemsOfText(text, r);
    }
  }

  // ---------- the parser's methods ----------

  method GetRoleSequences(c: Config) returns (r: Result<seq<seq<string>>, Error>)
    ensures r.Success? <==> StagesReadable(c)
    ensures r.Success? ==> r.value == StageRoles(c)
    ensures r.Success? ==> exists names :: FollowsTexts(c, names, r.value)
  {
    var list := [];
    var sequences := StringToList(c.sequence);
    for i := 0 to |sequences|
      invariant |list| == i
      invariant forall k :: 0 <= k < i ==> sequences[k] in c.texts && list[k] == ParseList(c.texts[sequences[k]])
    {
      if sequences[i] !in c.texts {
        assert sequences[i] == StageNames(c)[i];
        return Failure(NoText(sequences[i]));
      }
      var roles := StringToList(c.texts[sequences[i]]);
      list := list + [roles];
    }
    StagesFollowTexts(c);
    return Success(list);
  }

  method GetNodesNullDict(c: Config) returns (r: Result<map<string, seq<string>>, Error>)
    ensures r.Success? <==> HostsReadable(c)
    ensures r.Success? ==> r.value.Keys == HostRoles(c.nodes).Keys
                           && forall h :: h in r.value ==> r.value[h] == []
  {
    var dict: map<string, seq<string>> := map[];
    for i := 0 to |c.nodes|
      invariant forall k :: 0 <= k < i ==> c.nodes[k].host.Some?
      invariant dict.Keys == HostRoles(c.nodes[..i]).Keys
      invariant forall h :: h in dict ==> dict[h] == []
    {
      if c.nodes[i].host.None? {
        return Failure(NoText("host"));
      }
      HostRolesSnoc(c.nodes, i);
      dict := dict[c.nodes[i].host.value := []];
    }
    assert c.nodes[..|c.nodes|] == c.nodes;
    return Success(dict);
  }

  method GetNodeRoles(c: Config) returns (r: Result<map<string, seq<string>>, Error>)
    ensures r.Success? <==> HostsReadable(c) && RolesReadable(c)
    ensures r.Success? ==> r.value == HostRoles(c.nodes)
  {
    var dict: map<string, seq<string>> := map[];
    for i := 0 to |c.nodes|
      invariant forall k :: 0 <= k < i ==> c.nodes[k].host.Some? && c.nodes[k].roles.Some?
      invariant dict == HostRoles(c.nodes[..i])
    {
      if c.nodes[i].host.None? {
        return Failure(NoText("host"));
      }
      if c.nodes[i].roles.None? {
        return Failure(NoText("roles"));
      }
      HostRolesSnoc(c.nodes, i);
      var roles := StringToList(c.nodes[i].roles.value);
      dict := dict[c.nodes[i].host.value := roles];
    }
    assert c.nodes[..|c.nodes|] == c.nodes;
    return Success(dict);
  }

  /** The hosts carrying a role, in the arbitrary order in which `items()` enumerates them. */
  method GetNodesByRole(c: Config, role: string) returns (r: Result<seq<string>, Error>)
    ensures r.Success? <==> HostsReadable(c) && RolesReadable(c)
    ensures r.Success? ==> NoDuplicates(r.value)
    ensures r.Success? ==> forall h :: h in r.value <==> h in HostRoles(c.nodes) && role in HostRoles(c.nodes)[h]
  {
    var nodeRoles :- GetNodeRoles(c);
    var list := HostsWithRole(nodeRoles, role);
    return Success(list);
  }

  method HostsWithRole(nodeRoles: map<string, seq<string>>, role: string) returns (list: seq<string>)
    ensures NoDuplicates(list)
    ensures forall h :: h in list <==> h in nodeRoles && role in nodeRoles[h]
  {
    list := [];
    var pending := nodeRoles.Keys;
    while pending != {}
      invariant pending <= nodeRoles.Keys
      invariant NoDuplicates(list)
      invariant forall h :: h in list <==> h in nodeRoles && h !in pending && role in nodeRoles[h]
      decreases |pending|
    {
      var node :| node in pending;
      pending := pending - {node};
      if role in nodeRoles[node] && node !in list {
        list := list + [node];
      }
    }
  }

  /** After the first k roles of a stage: what every host has been given so far, and the entries
      the plan will keep. */
  ghost predicate StageProgress<H, R>(
    stage: seq<R>, hosts: map<H, seq<R>>, dict: map<H, seq<R>>, nodesDict: map<H, seq<R>>)
  {
    && dict.Keys == hosts.Keys
    && (forall h :: h in hosts ==> dict[h] == Assigned(stage, hosts[h]))
    && nodesDict == StageMap(stage, hosts)
  }

  /** The inner loop: one role handed to every host that carries it. Every lookup `dict[node]`
      succeeds, and copying the list changes nothing. */
  method AppendRole(
    ghost hosts: map<string, seq<string>>, ghost before: seq<string>, role: string, nodes: seq<string>,
    dict0: map<string, seq<string>>, nodesDict0: Stage)
    returns (dict: map<string, seq<string>>, nodesDict: Stage)
    requires TidyList(before + [role])
    requires NoDuplicates(nodes)
    requires forall h :: h in nodes <==> h in hosts && role in hosts[h]
    requires StageProgress(before, hosts, dict0, nodesDict0)
    ensures StageProgress(before + [role], hosts, dict, nodesDict)
  {
    dict, nodesDict := dict0, nodesDict0;
    ghost var done: set<string> := {};
    for i := 0 to |nodes|
      invariant forall k :: 0 <= k < |nodes| ==> (nodes[k] in done <==> k < i)
      invariant forall h :: h in done ==> h in hosts && role in hosts[h]
      invariant Handing(role, done, dict0, nodesDict0, dict, nodesDict)
    {
      var node := nodes[i];
      assert node in nodes;
      assert forall k :: 0 <= k < |nodes| && k != i ==> nodes[k] != node;
      HandedIsTidy(before, role, hosts[node]);
      HandNext(role, done, node, dict0, nodesDict0, dict, nodesDict);
      dict := dict[node := dict[node] + [role]];
      var copy := CopyList(dict[node]);
      nodesDict := nodesDict[node := copy];
      done := done + {node};
    }
    Handed(hosts, before, role, done, dict0, nodesDict0, dict, nodesDict);
  }

  /** The role has been appended for the hosts in `done` and for no others. */
  ghost predicate Handing<H, R>(
    role: R, done: set<H>, dict0: map<H, seq<R>>, nodesDict0: map<H, seq<R>>,
    dict: map<H, seq<R>>, nodesDict: map<H, seq<R>>)
  {
    && dict.Keys == dict0.Keys
    && done <= dict.Keys
    && (forall h :: h in dict ==> dict[h] == if h in done then dict0[h] + [role] else dict0[h])
    && nodesDict.Keys == nodesDict0.Keys + done
    && (forall h :: h in nodesDict ==> nodesDict[h] == if h in done then dict[h] else nodesDict0[h])
  }

  lemma HandNext<H, R>(
    role: R, done: set<H>, node: H, dict0: map<H, seq<R>>, nodesDict0: map<H, seq<R>>,
    dict: map<H, seq<R>>, nodesDict: map<H, seq<R>>)
    requires Handing(role, done, dict0, nodesDict0, dict, nodesDict)
    requires node in dict && node !in done
    ensures var list := dict[node] + [role];
            Handing(role, done + {node}, dict0, nodesDict0, dict[node := list], nodesDict[node := list])
  {
  }

  lemma Handed<H, R>(
    hosts: map<H, seq<R>>, before: seq<R>, role: R, done: set<H>,
    dict0: map<H, seq<R>>, nodesDict0: map<H, seq<R>>, dict: map<H, seq<R>>, nodesDict: map<H, seq<R>>)
    requires StageProgress(before, hosts, dict0, nodesDict0)
    requires Handing(role, done, dict0, nodesDict0, dict, nodesDict)
    requires forall h :: h in done <==> h in hosts && role in hosts[h]
    ensures StageProgress(before + [role], hosts, dict, nodesDict)
  {
    forall h | h in hosts
      ensures dict[h] == Assigned(before + [role], hosts[h])
      ensures h in nodesDict <==> dict[h] != []
      ensures h in nodesDict ==> nodesDict[h] == dict[h]
    {
      AssignedSnoc(before, role, hosts[h]);
      assert h in nodesDict0 <==> dict0[h] != [];
    }
    StageMapIs(before + [role], hosts, nodesDict);
  }

  lemma StageMapIs<H, R>(stage: seq<R>, hosts: map<H, seq<R>>, m: map<H, seq<R>>)
    requires m.Keys <= hosts.Keys
    requires forall h :: h in hosts ==> (h in m <==> Assigned(stage, hosts[h]) != [])
    requires forall h :: h in m ==> m[h] == Assigned(stage, hosts[h])
    ensures m == StageMap(stage, hosts)
  {
  }

  lemma AssignedSnoc<R>(before: seq<R>, role: R, roles: seq<R>)
    ensures Assigned(before + [role], roles) ==
            Assigned(before, roles) + (if role in roles then [role] else [])
  {
    assert (before + [role])[..|before|] == before;
  }

  lemma HandedIsTidy(before: seq<string>, role: string, roles: seq<string>)
    requires TidyList(before + [role]) && role in roles
    ensures Cleaned(Assigned(before, roles) + [role]) == Assigned(before, roles) + [role]
  {
    AssignedMeaning(before + [role], roles);
    AssignedSnoc(before, role, roles);
    CleanedIdentity(Assigned(before, roles) + [role]);
  }

  lemma NextPrefix(stage: seq<string>, k: nat)
    requires TidyList(stage) && k < |stage|
    ensures stage[..k + 1] == stage[..k] + [stage[k]] && TidyList(stage[..k] + [stage[k]])
  {
    assert stage[..k + 1] == stage[..k] + [stage[k]];
    TidyPrefix(stage, k + 1);
  }

  method PlanStage(c: Config, stage: seq<string>) returns (r: Result<Stage, Error>)
    requires TidyList(stage)
    ensures r.Success? <==> HostsReadable(c) && (|stage| > 0 ==> RolesReadable(c))
    ensures r.Success? ==> r.value == StageMap(stage, HostRoles(c.nodes))
  {
    var dict :- GetNodesNullDict(c);
    var nodesDict: Stage := map[];
    ghost var hosts := HostRoles(c.nodes);
    for k := 0 to |stage|
      invariant k > 0 ==> RolesReadable(c)
      invariant StageProgress(stage[..k], hosts, dict, nodesDict)
    {
      ghost var before := stage[..k];
      NextPrefix(stage, k);
      var nodes :- GetNodesByRole(c, stage[k]);
      dict, nodesDict := AppendRole(hosts, before, stage[k], nodes, dict, nodesDict);
    }
    assert stage[..|stage|] == stage;
    return Success(nodesDict);
  }

  lemma CompactSnoc(maps: seq<Stage>, m: Stage)
    ensures Compact(maps + [m]) == Compact(maps) + (if m != map[] then [m] else [])
  {
    assert (maps + [m])[..|maps|] == maps;
  }

  lemma CompactNext(stages: seq<seq<string>>, s: nat, hosts: map<string, seq<string>>)
    requires s < |stages|
    ensures Compact(StageMaps(stages[..s + 1], hosts)) ==
            if StageMap(stages[s], hosts) == map[] then Compact(StageMaps(stages[..s], hosts))
            else Compact(StageMaps(stages[..s], hosts)) + [StageMap(stages[s], hosts)]
  {
    assert StageMaps(stages[..s + 1], hosts) == StageMaps(stages[..s], hosts) + [StageMap(stages[s], hosts)];
    CompactSnoc(StageMaps(stages[..s], hosts), StageMap(stages[s], hosts));
  }

  ghost predicate IdleUpTo(stages: seq<seq<string>>, s: nat)
    requires s <= |stages|
  {
    s == 0 || (IdleUpTo(stages, s - 1) && |stages[s - 1]| == 0)
  }

  lemma {:induction false} IdleMeaning(stages: seq<seq<string>>, s: nat)
    requires s <= |stages|
    ensures IdleUpTo(stages, s) <==> forall k :: 0 <= k < s ==> |stages[k]| == 0
  {
    if s == 0 {
    } else {
      IdleMeaning(stages, s - 1);
    }
  }

  /** The nested loops build exactly the plan, and raise exactly on unreadable descriptions. */
  method GetNodeRolesSequence(c: Config) returns (r: Result<seq<Stage>, Error>)
    ensures r.Success? <==> Readable(c)
    ensures r.Success? ==> r.value == Plan(c)
  {
    var list := [];
    var dict :- GetNodesNullDict(c);
    var sequences :- GetRoleSequences(c);
    ghost var hosts := HostRoles(c.nodes);
    for s := 0 to |sequences|
      invariant list == Compact(StageMaps(sequences[..s], hosts))
      invariant IdleUpTo(sequences, s) || RolesReadable(c)
    {
      StageIsTidy(c, s);
      var nodesDict :- PlanStage(c, sequences[s]);
      CompactNext(sequences, s, hosts);
      ghost var next := Compact(StageMaps(sequences[..s + 1], hosts));
      if nodesDict != map[] {
        list := list + [nodesDict];
      }
      assert list == next;
    }
    assert sequences[..|sequences|] == sequences;
    IdleMeaning(sequences, |sequences|);
    return Success(list);
  }

  lemma StageIsTidy(c: Config, k: nat)
    requires StagesReadable(c) && k < |StageNames(c)|
    ensures TidyList(StageRoles(c)[k])
  {
    ParsedIsClean(c.texts[StageNames(c)[k]]);
  }
}
