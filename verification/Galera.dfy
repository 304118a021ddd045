/** The Galera recipe: which host a node names as its donor, the cluster address, and the
    flag-guarded resources as steps of many nodes whose runs interleave and may stop anywhere. */
module Galera {
  import opened Wrappers
  import opened Text

  // ---------- donor selection ----------

  /** The `begin … end while` loop, where `draw(i)` is the i-th random position. It is entered with at
      least one configured host and the install flag present. The answer is the first drawn host that is
      not this node; when the first |hosts| draws all were this node, the init host after one more. */
  method SelectSyncHost(
    flagExists: bool, hosts: Option<seq<string>>, myIp: string, initHost: string, draw: nat -> nat)
    returns (syncHost: string, draws: nat)
    requires hosts.Some? && |hosts.value| > 0 ==> forall i :: draw(i) < |hosts.value|
    ensures !(flagExists && hosts.Some? && |hosts.value| > 0) ==> draws == 0 && syncHost == initHost
    ensures flagExists && hosts.Some? && |hosts.value| > 0 ==>
      && 1 <= draws <= |hosts.value| + 1
      && (forall i :: 1 <= i < draws ==> hosts.value[draw(i)] == myIp)
      && (draws <= |hosts.value| ==> syncHost == hosts.value[draw(draws)] != myIp)
      && (draws == |hosts.value| + 1 ==> syncHost == initHost)
    ensures flagExists && hosts.Some? && |hosts.value| > 0 && syncHost == myIp ==> myIp == initHost
  {
    syncHost, draws := initHost, 0;
    if flagExists && hosts.Some? && |hosts.value| > 0 {
      var list := hosts.value;
      var again := true;
      while again
        invariant draws <= |list|
        invariant forall i :: 1 <= i < draws ==> list[draw(i)] == myIp
        invariant again ==> draws == 0 || list[draw(draws)] == myIp
        invariant !again ==> 1 <= draws && syncHost == list[draw(draws)] != myIp
        decreases again, |list| + 1 - draws
      {
        syncHost := list[draw(draws + 1)];
        draws := draws + 1;
        if draws > |list| {
          syncHost := initHost;
          break;
        }
        again := myIp == syncHost;
      }
    }
  }

  // ---------- cluster address ----------

  function Endpoints(hosts: seq<string>, port: string): (e: seq<string>)
    ensures |e| == |hosts|
    ensures forall k :: 0 <= k < |hosts| ==> e[k] == hosts[k] + ":" + port
  {
    seq(|hosts|, k requires 0 <= k < |hosts| => hosts[k] + ":" + port)
  }

  const PREFIX: string := "gcomm://"

  function ClusterAddress(hosts: Option<seq<string>>, port: string): string {
    PREFIX + Join(Endpoints(hosts.GetOr([]), port), ",")
  }

  lemma NextEndpoint(list: seq<string>, i: nat, port: string)
    requires i < |list|
    ensures PREFIX + Join(Endpoints(list[..i + 1], port), ",") + "," ==
            (if i == 0 then PREFIX else PREFIX + Join(Endpoints(list[..i], port), ",") + ",") + (list[i] + ":" + port + ",")
  {
    JoinSnoc(Endpoints(list[..i], port), list[i] + ":" + port, ",");
    assert Endpoints(list[..i + 1], port) == Endpoints(list[..i], port) + [list[i] + ":" + port];
  }

  /** Every host is appended with a trailing comma and the last character is cut off again. */
  method BuildClusterAddress(hosts: Option<seq<string>>, port: string) returns (address: string)
    ensures address == ClusterAddress(hosts, port)
  {
    address := "gcomm://";
    if hosts.Some? && |hosts.value| > 0 {
      var list := hosts.value;
      for i := 0 to |list|
        invariant i == 0 ==> address == PREFIX
        invariant i > 0 ==> address == PREFIX + Join(Endpoints(list[..i], port), ",") + ","
      {
        NextEndpoint(list, i, port);
        address := address + (list[i] + ":" + port + ",");
      }
      assert list[..|list|] == list;
      address := address[..|address| - 1];
    } else {
      assert Endpoints(hosts.GetOr([]), port) == [];
    }
  }

  /** Without hosts the address is the bare prefix. Otherwise, behind `gcomm://`, splitting at commas
      gives back one host:port per host, in order, exactly when no host and not the port holds a comma. */
  lemma AddressRoundTrip(hosts: Option<seq<string>>, port: string)
    ensures hosts.None? || hosts.value == [] ==> ClusterAddress(hosts, port) == "gcomm://"
    ensures "gcomm://" <= ClusterAddress(hosts, port)
    ensures hosts.Some? && hosts.value != [] ==>
      var parts := Split(ClusterAddress(hosts, port)[|"gcomm://"|..], ',');
      |parts| == |hosts.value| && (forall k :: 0 <= k < |parts| ==> parts[k] == hosts.value[k] + ":" + port)
      <==> AllFree(hosts.value, ',') && ',' !in port
  {
    var list := hosts.GetOr([]);
    var e := Endpoints(list, port);
    assert ClusterAddress(hosts, port)[|PREFIX|..] == Join(e, ",");
    if list != [] {
      SplitJoin(e, ',');
      SplitPiecesFree(Join(e, ","), ',');
      if AllFree(e, ',') {
        forall k | 0 <= k < |list| ensures ',' !in list[k] && ',' !in port {
          assert forall c :: c in list[k] || c in port ==> c in e[k];
        }
        assert ',' !in list[0] && ',' !in port;
      }
    }
  }

  // ---------- bring-up ----------

  /** The recipe's resources that touch the flag, the data directory or the server, in order. */
  datatype Resource =
    | Purge | SetupDatadir | SetupInitD | SetAddress | InitCluster | JoinCluster
    | WaitUntilSynced | Grants | Secure | TouchFlag

  const RECIPE: seq<Resource> := [
    Purge, SetupDatadir, SetupInitD, SetAddress, InitCluster, JoinCluster,
    WaitUntilSynced, Grants, Secure, TouchFlag
  ]

  datatype Config = Config(initNode: string, updateUrls: bool, mysqldump: bool, secure: bool)

  /** `pc` is the next resource of the run in progress, None between runs. */
  datatype Node = Node(flag: bool, populated: bool, up: bool, pc: Option<nat>)

  /** The guards `only_if` and `not_if`, evaluated when the resource is reached. */
  predicate Guard(c: Config, ip: string, n: Node, r: Resource) {
    match r
    case Purge => !n.flag
    case SetupDatadir => !n.populated
    case SetupInitD => !n.flag
    case SetAddress => c.updateUrls || !n.flag
    case InitCluster => ip == c.initNode && !n.flag
    case JoinCluster => ip != c.initNode && !n.flag
    case WaitUntilSynced => ip == c.initNode && !n.flag
    case Grants => ip == c.initNode && c.mysqldump && !n.flag
    case Secure => ip == c.initNode && c.secure && !n.flag
    case TouchFlag => !n.flag
  }

  function Effect(n: Node, r: Resource): Node {
    match r
    case Purge => n.(populated := false, up := false)
    case SetupDatadir => n.(populated := true)
    case InitCluster => n.(up := true)
    case JoinCluster => n.(up := true)
    case TouchFlag => n.(flag := true)
    case _ => n
  }

  /** A run begins; its next resource is performed or skipped by its guard; a run is cut short. */
  datatype Event = Begin(ip: string) | Perform(ip: string, r: Resource) | Skip(ip: string, r: Resource) | Halt(ip: string)

  /** All nodes, by address: distinct nodes have distinct addresses. */
  type Cluster = map<string, Node>

  function Advance(n: Node): Node
    requires n.pc.Some?
  {
    n.(pc := if n.pc.value + 1 < |RECIPE| then Some(n.pc.value + 1) else None)
  }

  predicate AtResource(n: Node, r: Resource) {
    n.pc.Some? && n.pc.value < |RECIPE| && RECIPE[n.pc.value] == r
  }

  function NextNode(c: Config, n: Node, e: Event): Option<Node> {
    match e
    case Begin(_) => if n.pc.None? then Some(n.(pc := Some(0))) else None
    case Perform(ip, r) => if AtResource(n, r) && Guard(c, ip, n, r) then Some(Advance(Effect(n, r))) else None
    case Skip(ip, r) => if AtResource(n, r) && !Guard(c, ip, n, r) then Some(Advance(n)) else None
    case Halt(_) => if n.pc.Some? then Some(n.(pc := None)) else None
  }

  function Next(c: Config, s: Cluster, e: Event): Option<Cluster> {
    if e.ip !in s then None
    else
      match NextNode(c, s[e.ip], e)
      case None => None
      case Some(n) => Some(s[e.ip := n])
  }

  function Run(c: Config, s0: Cluster, t: seq<Event>): Option<Cluster> {
    if t == [] then Some(s0)
    else
      match Run(c, s0, t[..|t| - 1])
      case None => None
      case Some(s) => Next(c, s, t[|t| - 1])
  }

  /** No node has been installed and no run is in progress; leftovers on the nodes are arbitrary. */
  ghost predicate Fresh(s: Cluster) {
    forall ip :: ip in s ==> !s[ip].flag && s[ip].pc.None?
  }

  // ---------- what every step of a node keeps ----------

  ghost predicate NodeInv(c: Config, ip: string, n: Node) {
    && (n.pc.Some? ==> n.pc.value < |RECIPE|)
    && (n.flag ==> n.populated)
    && (n.pc.Some? && n.pc.value >= 2 ==> n.populated)
    && (n.pc.Some? && 1 <= n.pc.value <= 5 && !n.flag && n.up ==> n.pc.value == 5 && ip == c.initNode)
  }

  lemma NextNodeKeepsInv(c: Config, n: Node, e: Event)
    requires NodeInv(c, e.ip, n) && NextNode(c, n, e).Some?
    ensures NodeInv(c, e.ip, NextNode(c, n, e).value)
    ensures n.flag ==> NextNode(c, n, e).value.flag
  {
  }

  lemma {:induction false} ReachableNode(c: Config, s0: Cluster, t: seq<Event>, ip: string)
    requires Fresh(s0) && ip in s0 && Run(c, s0, t).Some?
    ensures Run(c, s0, t).value.Keys == s0.Keys
    ensures NodeInv(c, ip, Run(c, s0, t).value[ip])
  {
    if t == [] {
    } else {
      var e := t[|t| - 1];
      ReachableNode(c, s0, t[..|t| - 1], ip);
      if e.ip == ip {
        NextNodeKeepsInv(c, Run(c, s0, t[..|t| - 1]).value[ip], e);
      }
    }
  }

  lemma {:induction false} RunPrefix(c: Config, s0: Cluster, t: seq<Event>, k: nat)
    requires Run(c, s0, t).Some? && k <= |t|
    ensures Run(c, s0, t[..k]).Some?
  {
    if k < |t| {
      RunPrefix(c, s0, t[..|t| - 1], k);
      assert t[..|t| - 1][..k] == t[..k];
    } else {
      assert t[..k] == t;
    }
  }

  lemma EventEnabled(c: Config, s0: Cluster, t: seq<Event>, k: nat)
    requires Fresh(s0) && Run(c, s0, t).Some? && k < |t|
    ensures Run(c, s0, t[..k]).Some? && t[k].ip in s0 && t[k].ip in Run(c, s0, t[..k]).value
    ensures NextNode(c, Run(c, s0, t[..k]).value[t[k].ip], t[k]).Some?
    ensures NodeInv(c, t[k].ip, Run(c, s0, t[..k]).value[t[k].ip])
  {
    RunPrefix(c, s0, t, k);
    RunPrefix(c, s0, t, k + 1);
    assert t[..k + 1][..k] == t[..k];
    SameNodes(c, s0, t[..k]);
    ReachableNode(c, s0, t[..k], t[k].ip);
  }

  lemma {:induction false} SameNodes(c: Config, s0: Cluster, t: seq<Event>)
    requires Run(c, s0, t).Some?
    ensures Run(c, s0, t).value.Keys == s0.Keys
  {
    if t == [] {
    } else {
      SameNodes(c, s0, t[..|t| - 1]);
    }
  }

  // ---------- safety over every interleaving ----------

  ghost predicate Flagged(c: Config, s0: Cluster, t: seq<Event>, ip: string)
    requires Run(c, s0, t).Some?
  {
    ip in Run(c, s0, t).value && Run(c, s0, t).value[ip].flag
  }

  /** An installed node has a populated data directory, however runs were cut short. */
  lemma FlagMeansPopulated(c: Config, s0: Cluster, t: seq<Event>, ip: string)
    requires Fresh(s0) && Run(c, s0, t).Some? && Flagged(c, s0, t, ip)
    ensures Run(c, s0, t).value[ip].populated
  {
    SameNodes(c, s0, t);
    ReachableNode(c, s0, t, ip);
  }

  lemma FlagKept(c: Config, s: Cluster, e: Event, ip: string)
    requires ip in s && s[ip].flag && Next(c, s, e).Some?
    ensures ip in Next(c, s, e).value && Next(c, s, e).value[ip].flag
  {
  }

  lemma {:induction false} FlagStays(c: Config, s0: Cluster, t: seq<Event>, k: nat, ip: string)
    requires Run(c, s0, t).Some? && k <= |t|
    requires Run(c, s0, t[..k]).Some? && Flagged(c, s0, t[..k], ip)
    ensures Flagged(c, s0, t, ip)
  {
    if k == |t| {
      assert t[..k] == t;
    } else {
      var before := t[..|t| - 1];
      assert before[..k] == t[..k];
      FlagStays(c, s0, before, k, ip);
      FlagKept(c, Run(c, s0, before).value, t[|t| - 1], ip);
    }
  }

  /** Once its install flag exists, a node is never again purged, set up, initialised, joined or
      reconfigured: the only thing later runs may still do is rewrite the cluster address, and that
      only when the configuration asks for it. */
  lemma InstalledIsLeftAlone(c: Config, s0: Cluster, t: seq<Event>, k: nat, m: nat)
    requires Fresh(s0) && Run(c, s0, t).Some? && k <= m < |t|
    requires Run(c, s0, t[..k]).Some? && Flagged(c, s0, t[..k], t[m].ip)
    ensures t[m].Perform? ==> t[m].r == SetAddress && c.updateUrls
  {
    EventEnabled(c, s0, t, m);
    assert t[..m][..k] == t[..k];
    FlagStays(c, s0, t[..m], k, t[m].ip);
  }

  /** A new cluster is only ever started on the init node, and every node that starts or joins one
      does so with its server stopped and its data directory populated. */
  lemma StartsAreClean(c: Config, s0: Cluster, t: seq<Event>, m: nat)
    requires Fresh(s0) && Run(c, s0, t).Some? && m < |t| && t[m].Perform?
    requires t[m].r == InitCluster || t[m].r == JoinCluster
    ensures t[m].r == InitCluster <==> t[m].ip == c.initNode
    ensures Run(c, s0, t[..m]).Some? && t[m].ip in Run(c, s0, t[..m]).value
    ensures var n := Run(c, s0, t[..m]).value[t[m].ip]; !n.up && n.populated && !n.flag
  {
    EventEnabled(c, s0, t, m);
  }

  // ---------- what a run that is not cut short achieves ----------

  /** The latest run of a node: whether the node was flagged when it began, what it has performed, and
      whether it was cut short. */
  datatype Progress = Progress(flagged: bool, done: seq<Resource>, cut: bool)

  function NextProgress(p: Option<Progress>, n: Node, e: Event): Option<Progress> {
    match e
    case Begin(_) => Some(Progress(n.flag, [], false))
    case Perform(_, r) => if p.Some? then Some(p.value.(done := p.value.done + [r])) else None
    case Skip(_, _) => p
    case Halt(_) => if p.Some? then Some(p.value.(cut := true)) else None
  }

  /** None before the first run of the node. */
  function LatestRun(c: Config, s0: Cluster, t: seq<Event>, ip: string): Option<Progress>
    requires Run(c, s0, t).Some?
  {
    if t == [] then None
    else
      var before, e := t[..|t| - 1], t[|t| - 1];
      var p := LatestRun(c, s0, before, ip);
      if e.ip == ip then NextProgress(p, Run(c, s0, before).value[ip], e) else p
  }

  /** What a run performs that is not cut short, for a node found installed or not. */
  function Work(c: Config, ip: string, flagged: bool): seq<Resource> {
    if flagged then (if c.updateUrls then [SetAddress] else [])
    else if ip != c.initNode then [Purge, SetupDatadir, SetupInitD, SetAddress, JoinCluster, TouchFlag]
    else [Purge, SetupDatadir, SetupInitD, SetAddress, InitCluster, WaitUntilSynced]
         + (if c.mysqldump then [Grants] else []) + (if c.secure then [Secure] else []) + [TouchFlag]
  }

  /** Some resource of the recipe is performed in such a run. */
  predicate Due(c: Config, ip: string, flagged: bool, r: Resource) {
    match r
    case Purge => !flagged
    case SetupDatadir => !flagged
    case SetupInitD => !flagged
    case SetAddress => !flagged || c.updateUrls
    case InitCluster => !flagged && ip == c.initNode
    case JoinCluster => !flagged && ip != c.initNode
    case WaitUntilSynced => !flagged && ip == c.initNode
    case Grants => !flagged && ip == c.initNode && c.mysqldump
    case Secure => !flagged && ip == c.initNode && c.secure
    case TouchFlag => !flagged
  }

  function DueUpTo(c: Config, ip: string, flagged: bool, k: nat): seq<Resource>
    requires k <= |RECIPE|
  {
    if k == 0 then []
    else DueUpTo(c, ip, flagged, k - 1) + (if Due(c, ip, flagged, RECIPE[k - 1]) then [RECIPE[k - 1]] else [])
  }

  lemma DueIsWork(c: Config, ip: string, flagged: bool)
    ensures DueUpTo(c, ip, flagged, |RECIPE|) == Work(c, ip, flagged)
  {
    if flagged {
      DueWhenInstalled(c, ip);
    } else {
      DueForSetup(c, ip);
      DueAfterStart(c, ip);
    }
  }

  lemma DueWhenInstalled(c: Config, ip: string)
    ensures DueUpTo(c, ip, true, |RECIPE|) == Work(c, ip, true)
  {
    assert DueUpTo(c, ip, true, 1) == [];
    assert DueUpTo(c, ip, true, 2) == [];
    assert DueUpTo(c, ip, true, 4) == Work(c, ip, true);
    assert DueUpTo(c, ip, true, 6) == Work(c, ip, true);
    assert DueUpTo(c, ip, true, 8) == Work(c, ip, true);
  }

  lemma DueForSetup(c: Config, ip: string)
    ensures DueUpTo(c, ip, false, 6) ==
            [Purge, SetupDatadir, SetupInitD, SetAddress, if ip == c.initNode then InitCluster else JoinCluster]
  {
    assert DueUpTo(c, ip, false, 1) == [Purge];
    assert DueUpTo(c, ip, false, 2) == [Purge, SetupDatadir];
    assert DueUpTo(c, ip, false, 4) == [Purge, SetupDatadir, SetupInitD, SetAddress];
  }

  lemma DueAfterStart(c: Config, ip: string)
    ensures DueUpTo(c, ip, false, |RECIPE|) == DueUpTo(c, ip, false, 6)
      + (if ip != c.initNode then []
         else [WaitUntilSynced] + (if c.mysqldump then [Grants] else []) + (if c.secure then [Secure] else []))
      + [TouchFlag]
  {
    assert DueUpTo(c, ip, false, 8) == DueUpTo(c, ip, false, 6)
      + if ip != c.initNode then [] else [WaitUntilSynced] + if c.mysqldump then [Grants] else [];
  }

  const JOINED: nat := 6

  /** How far the latest run of a node has got, and what that says about the node. */
  ghost predicate RunInv(c: Config, ip: string, n: Node, p: Option<Progress>) {
    && (n.flag ==> n.up)
    && (n.pc.Some? ==>
          && n.pc.value < |RECIPE| && p.Some? && !p.value.cut && n.flag == p.value.flagged
          && p.value.done == DueUpTo(c, ip, p.value.flagged, n.pc.value)
          && (n.pc.value >= JOINED || (n.pc.value == 5 && ip == c.initNode) ==> n.up)
          && (n.pc.value == 1 && !n.flag ==> !n.populated))
    && (n.pc.None? && p.Some? && !p.value.cut ==>
          n.flag && p.value.done == DueUpTo(c, ip, p.value.flagged, |RECIPE|))
  }

  lemma StepKeepsRunInv(c: Config, ip: string, n: Node, p: Option<Progress>, e: Event)
    requires NodeInv(c, ip, n) && RunInv(c, ip, n, p)
    requires e.ip == ip && NextNode(c, n, e).Some?
    ensures RunInv(c, ip, NextNode(c, n, e).value, NextProgress(p, n, e))
  {
    if n.pc.Some? {
      PerformedIffDue(c, ip, n, p, e);
    }
  }

  lemma PerformedIffDue(c: Config, ip: string, n: Node, p: Option<Progress>, e: Event)
    requires NodeInv(c, ip, n) && RunInv(c, ip, n, p) && n.pc.Some?
    requires e.ip == ip && NextNode(c, n, e).Some?
    ensures e.Perform? ==> e.r == RECIPE[n.pc.value] && Due(c, ip, n.flag, e.r)
    ensures e.Skip? ==> e.r == RECIPE[n.pc.value] && !Due(c, ip, n.flag, e.r)
  {
  }

  lemma {:induction false} ReachableRun(c: Config, s0: Cluster, t: seq<Event>, ip: string)
    requires Fresh(s0) && ip in s0 && Run(c, s0, t).Some?
    ensures ip in Run(c, s0, t).value
    ensures RunInv(c, ip, Run(c, s0, t).value[ip], LatestRun(c, s0, t, ip))
  {
    SameNodes(c, s0, t);
    if t == [] {
    } else {
      var before, e := t[..|t| - 1], t[|t| - 1];
      ReachableRun(c, s0, before, ip);
      if e.ip == ip {
        ReachableNode(c, s0, before, ip);
        StepKeepsRunInv(c, ip, Run(c, s0, before).value[ip], LatestRun(c, s0, before, ip), e);
      }
    }
  }

  /** A run that has come to its end without being cut short leaves its node installed, populated and
      up, in every interleaving; and what it performed is exactly known. On a node that was not yet
      installed that is the whole installation, with one start on the init node and one join
      elsewhere. */
  lemma CompleteRun(c: Config, s0: Cluster, t: seq<Event>, ip: string)
    requires Fresh(s0) && ip in s0 && Run(c, s0, t).Some?
    ensures ip in Run(c, s0, t).value
    ensures var n, p := Run(c, s0, t).value[ip], LatestRun(c, s0, t, ip);
      n.pc.None? && p.Some? && !p.value.cut ==>
      n.flag && n.populated && n.up && p.value.done == Work(c, ip, p.value.flagged)
  {
    ReachableRun(c, s0, t, ip);
    ReachableNode(c, s0, t, ip);
    var p := LatestRun(c, s0, t, ip);
    if p.Some? {
      DueIsWork(c, ip, p.value.flagged);
    }
  }

  /** From every reachable state the run in progress on a node can go on to its end by itself. */
  lemma {:induction false} RunCanFinish(c: Config, s0: Cluster, t: seq<Event>, ip: string) returns (t': seq<Event>)
    requires Fresh(s0) && ip in s0 && Run(c, s0, t).Some?
    requires ip in Run(c, s0, t).value && Run(c, s0, t).value[ip].pc.Some?
    ensures t <= t' && Run(c, s0, t').Some? && ip in Run(c, s0, t').value && Run(c, s0, t').value[ip].pc.None?
    ensures forall k :: |t| <= k < |t'| ==> t'[k].ip == ip && !t'[k].Halt?
    decreases |RECIPE| - Run(c, s0, t).value[ip].pc.value
  {
    ReachableNode(c, s0, t, ip);
    var n := Run(c, s0, t).value[ip];
    var r := RECIPE[n.pc.value];
    var e := if Guard(c, ip, n, r) then Perform(ip, r) else Skip(ip, r);
    t' := t + [e];
    assert t'[..|t|] == t;
    if Run(c, s0, t').value[ip].pc.Some? {
      t' := RunCanFinish(c, s0, t', ip);
    }
  }

  /** However runs were cut short so far, every node can still be installed, by events of its own. */
  lemma EveryNodeCanBeInstalled(c: Config, s0: Cluster, t: seq<Event>, ip: string) returns (t': seq<Event>)
    requires Fresh(s0) && ip in s0 && Run(c, s0, t).Some?
    ensures t <= t' && Run(c, s0, t').Some? && Flagged(c, s0, t', ip)
    ensures forall k :: |t| <= k < |t'| ==> t'[k].ip == ip
  {
    ReachableRun(c, s0, t, ip);
    t' := t;
    if Run(c, s0, t).value[ip].pc.None? {
      t' := t + [Begin(ip)];
      assert t'[..|t|] == t;
    }
    var t1 := t';
    t' := RunCanFinish(c, s0, t1, ip);
    assert t'[..|t1|] == t1;
    NotCut(c, s0, t', |t1|, ip);
    CompleteRun(c, s0, t', ip);
  }

  lemma {:induction false} NotCut(c: Config, s0: Cluster, t: seq<Event>, k: nat, ip: string)
    requires Fresh(s0) && ip in s0 && Run(c, s0, t).Some? && k <= |t|
    requires Run(c, s0, t[..k]).Some? && ip in Run(c, s0, t[..k]).value && Run(c, s0, t[..k]).value[ip].pc.Some?
    requires forall m :: k <= m < |t| ==> !t[m].Halt?
    ensures LatestRun(c, s0, t, ip).Some? && !LatestRun(c, s0, t, ip).value.cut
  {
    if k == |t| {
      assert t[..k] == t;
      ReachableRun(c, s0, t, ip);
    } else {
      var before := t[..|t| - 1];
      assert before[..k] == t[..k];
      NotCut(c, s0, before, k, ip);
    }
  }

  // ---------- how often a cluster is started ----------

  /** How often a new cluster was started. */
  function Starts(t: seq<Event>): nat {
    if t == [] then 0
    else
      var e := t[|t| - 1];
      Starts(t[..|t| - 1]) + (if e.Perform? && e.r == InitCluster then 1 else 0)
  }

  const START_POSITION: nat := 4

  /** The run in progress has passed the start of the cluster. */
  predicate PastStart(n: Node) {
    n.pc.Some? && n.pc.value > START_POSITION
  }

  /** How many runs of the init node were cut short after starting a cluster and before setting the
      install flag. */
  function LostStarts(c: Config, s0: Cluster, t: seq<Event>): nat {
    if t == [] then 0
    else
      var before := t[..|t| - 1];
      var s := Run(c, s0, before);
      LostStarts(c, s0, before) +
      (if t[|t| - 1] == Halt(c.initNode) && s.Some? && c.initNode in s.value
          && PastStart(s.value[c.initNode]) && !s.value[c.initNode].flag
       then 1 else 0)
  }

  /** Each start is accounted for: one for every run lost between start and flag, and one more when
      the init node is installed or a run has got past the start. So when no run is cut short in
      that window, a new cluster is started at most once overall. */
  lemma {:induction false} StartsAreCounted(c: Config, s0: Cluster, t: seq<Event>)
    requires Fresh(s0) && c.initNode in s0 && Run(c, s0, t).Some?
    ensures c.initNode in Run(c, s0, t).value
    ensures Starts(t) == LostStarts(c, s0, t) + Pending(Run(c, s0, t).value[c.initNode])
  {
    SameNodes(c, s0, t);
    if t == [] {
    } else {
      var before, e := t[..|t| - 1], t[|t| - 1];
      StartsAreCounted(c, s0, before);
      var s := Run(c, s0, before).value;
      ReachableNode(c, s0, before, c.initNode);
      StepIsCounted(c, s[e.ip], e);
    }
  }

  /** 1 when the start of the cluster is behind an installed node or behind the run in progress. */
  function Pending(n: Node): nat {
    if n.flag || PastStart(n) then 1 else 0
  }

  lemma StepIsCounted(c: Config, n: Node, e: Event)
    requires NextNode(c, n, e).Some?
    requires e.ip == c.initNode ==> NodeInv(c, e.ip, n)
    ensures e.ip != c.initNode ==> !(e.Perform? && e.r == InitCluster)
    ensures e.ip == c.initNode ==>
      Pending(NextNode(c, n, e).value) + (if e.Halt? && PastStart(n) && !n.flag then 1 else 0) ==
      Pending(n) + (if e.Perform? && e.r == InitCluster then 1 else 0)
  {
  }

  /** A second start really happens when a run is cut short in that window: the next run purges the
      node and starts another cluster. */
  lemma SecondStart(c: Config, s0: Cluster)
    requires Fresh(s0) && c.initNode in s0
    ensures exists t :: Run(c, s0, t).Some? && Starts(t) == 2
  {
    var t1, n1 := OneStart(c, s0, [], s0[c.initNode]);
    var t2, n2 := StepOnce(c, s0, t1, Halt(c.initNode), n1);
    var t3, n3 := OneStart(c, s0, t2, n2);
    assert Run(c, s0, t3).Some? && Starts(t3) == 2;
  }

  ghost predicate NodeAt(c: Config, s0: Cluster, t: seq<Event>, ip: string, n: Node) {
    Run(c, s0, t).Some? && ip in Run(c, s0, t).value && Run(c, s0, t).value[ip] == n
  }

  lemma StepOnce(c: Config, s0: Cluster, t: seq<Event>, e: Event, n: Node) returns (t': seq<Event>, n': Node)
    requires NodeAt(c, s0, t, e.ip, n) && NextNode(c, n, e).Some?
    ensures n' == NextNode(c, n, e).value && NodeAt(c, s0, t', e.ip, n')
    ensures Starts(t') == Starts(t) + if e.Perform? && e.r == InitCluster then 1 else 0
  {
    t', n' := t + [e], NextNode(c, n, e).value;
    assert t'[..|t|] == t;
  }

  /** A run of the init node up to and including the start of the cluster. */
  lemma OneStart(c: Config, s0: Cluster, t: seq<Event>, n: Node) returns (t': seq<Event>, n': Node)
    requires NodeAt(c, s0, t, c.initNode, n) && !n.flag && n.pc.None?
    ensures NodeAt(c, s0, t', c.initNode, n') && Starts(t') == Starts(t) + 1
    ensures n' == Node(false, true, true, Some(5))
  {
    StartPath(c, n.populated, n.up);
    SetupPath(c);
    t', n' := StepOnce(c, s0, t, Begin(c.initNode), n);
    t', n' := StepOnce(c, s0, t', Perform(c.initNode, Purge), n');
    t', n' := StepOnce(c, s0, t', Perform(c.initNode, SetupDatadir), n');
    t', n' := StepOnce(c, s0, t', Perform(c.initNode, SetupInitD), n');
    t', n' := StepOnce(c, s0, t', Perform(c.initNode, SetAddress), n');
    t', n' := StepOnce(c, s0, t', Perform(c.initNode, InitCluster), n');
  }

  lemma StartPath(c: Config, populated: bool, up: bool)
    ensures NextNode(c, Node(false, populated, up, None), Begin(c.initNode)) == Some(Node(false, populated, up, Some(0)))
    ensures NextNode(c, Node(false, populated, up, Some(0)), Perform(c.initNode, Purge))
            == Some(Node(false, false, false, Some(1)))
    ensures NextNode(c, Node(false, false, false, Some(1)), Perform(c.initNode, SetupDatadir))
            == Some(Node(false, true, false, Some(2)))
  {
  }

  lemma SetupPath(c: Config)
    ensures NextNode(c, Node(false, true, false, Some(2)), Perform(c.initNode, SetupInitD))
            == Some(Node(false, true, false, Some(3)))
    ensures NextNode(c, Node(false, true, false, Some(3)), Perform(c.initNode, SetAddress))
            == Some(Node(false, true, false, Some(4)))
    ensures NextNode(c, Node(false, true, false, Some(4)), Perform(c.initNode, InitCluster))
            == Some(Node(false, true, true, Some(5)))
  {
  }
}
