# Verified model of the OpenStack Chef deployment

This project models the parts of the repository that decide something: the staged deployment
script, the PrettyTable parser, the URI helpers, the server searches and the Galera bring-up. It
states what those parts promise and proves it with Dafny 4.11 (`dafny verify dfyconfig.toml`).

## What is modelled

- **The staged deployment** (`scripts/install_openstack.py`). `Planner` turns a cluster description
  into a list of stages, each a map from host to ordered role list; `ChefDriver` compiles the stages
  to commands and runs them. `Scheduler` describes `bootstrap` as a labelled transition system: a run
  is a sequence of launches, polls, reaps, one-second sleeps and stage ends. The order in which a
  dictionary is enumerated, the clock and the fate of every process are left open, so the theorems of
  `Scheduler` hold in every run, also while a process never finishes. `Timing` adds the fates (poll
  round and exit code of every process) and derives the exact outcome and running time. The method
  `Bootstrap` is proved to perform only runs of that system. `Deployment` joins planner and
  scheduler: the barrier between the stages of the *order*, although idle stages are dropped from
  the plan.
- **PrettyTable parsing and lookup** (`parse.rb`, `cli.rb`). `PrettyTable` is the parser, with Ruby's
  `split(/$/)`, `split('|')` and `strip` written out; `TableLayout` is a printer for the layout with
  arbitrary padding, borders and blank lines, and the round trip through it.
- **URI strings** (`uri.rb`), **server searches** (`search.rb`) and **Galera**
  (`galera/recipes/server.rb`), the last one as a step system of many nodes whose recipe runs
  interleave and may be cut short after any resource.

`Text` holds the string primitives the sources take from their standard libraries, `RoleLists` the
comma lists, `SlashAlgebra` what slashes at the ends of a string do when it is stripped and joined.
`UriGrouping` uses it to say when joined paths may be grouped.

## Reading the model

- The XML document is reduced to the text of the first `host` and `roles` element of every node, the
  `sequence` attribute, and the text of the first element of every name. A missing text is an error
  result; `Planner.Readable` says exactly when the script raises none.
- Iteration over a dictionary picks the next key arbitrarily, on a snapshot of the keys.
- `COUNTER` is a map, as in the script, shared by the count of seconds, `TOTAL`, and the start times
  of the script and of the hosts. A host named `TOTAL` therefore spoils the count.
  `ChefDriver.TotalIsRightIff` says exactly when the counter can be trusted, after a return, after an
  exit and while a stage is polled.
- `process.poll()` answers according to the fates, counted in poll rounds of the stage.
- Where the code falls short of a plausible reading the code is kept and the exact condition is
  proved: grouping of joined paths (`UriGrouping.AssociativeIff`, for a group at
  any place among the arguments), splitting of comma lists
  (`Galera.AddressRoundTrip`), the number of cluster starts (`Galera.StartsAreCounted`,
  `Galera.SecondStart`).

## Model

| member | source | states |
|---|---|---|
| `RoleLists.StringToList` | scripts/install_openstack.py:41-47 | the loop returns the normal form of the comma pieces |
| `RoleLists.CopyList` | scripts/install_openstack.py:49-55 | the copy is the normal form of the given list |
| `RoleLists.StripMeaning` | scripts/install_openstack.py:44-44 | stripping removes the Unicode blanks at both ends, all of them and nothing else; the result is the only such core |
| `RoleLists.CleanedMeaning` | scripts/install_openstack.py:41-55 | the normal form holds exactly the stripped non-blank items, once each, by first appearance |
| `RoleLists.RepresentsUnique` | scripts/install_openstack.py:41-55 | that description determines the list |
| `RoleLists.ParsedIsClean` | scripts/install_openstack.py:41-47 | every result is a clean list: distinct, non-blank, stripped, comma-free items |
| `RoleLists.ParsedMeaning` | scripts/install_openstack.py:41-47 | read from the text: which items the list has, and x stands before y iff the text first lists x before it first lists y |
| `RoleLists.Reparse` | scripts/install_openstack.py:41-47 | re-joining a clean list with commas and parsing it gives it back |
| `RoleLists.ListNormalForm` | scripts/install_openstack.py:41-55 | a list is a result of string_to_list iff it is clean; re-joining and re-parsing, and copying, leave it unchanged |
| `RoleLists.ListToString` | scripts/install_openstack.py:219-223 | accumulating and stripping commas yields the items joined by commas: one trailing comma goes, nothing else |
| `RoleLists.RunListRoundTrip` | scripts/install_openstack.py:219-223 | parsing a run list gives back role[r] for every role in order |
| `RoleLists.RunListInjective` | scripts/install_openstack.py:219-223 | distinct role lists have distinct run lists |
| `Planner.HostRolesMeaning` | scripts/install_openstack.py:109-116 | a host has the roles of the last node element that names it |
| `Planner.AssignedMeaning` | scripts/install_openstack.py:125-129 | a host receives exactly the stage's roles it carries, without repeats |
| `Planner.AssignedInOrder` | scripts/install_openstack.py:125-129 | it receives them in the order of the stage |
| `Planner.KeptMeaning` | scripts/install_openstack.py:130-131 | the kept stages are the non-empty ones, in order |
| `Planner.PlanMeaning` | scripts/install_openstack.py:118-132 | stage by stage: which stages and hosts are present and what each host gets |
| `Planner.CarriesMeaning` | scripts/install_openstack.py:109-116 | a host's role list has a role iff the text of the last element with that host lists it |
| `Planner.ReadableMeaning` | scripts/install_openstack.py:83-132 | no exception iff every element has a host, every listed name has a text and, once such a text lists a role, every element has roles |
| `Planner.GetRoleSequences` | scripts/install_openstack.py:83-91 | one role list per name of the sequence, in the order in which the sequence first lists the names, each with the items of the text of its name; fails iff a named stage has no text |
| `Planner.StageRolesMeaning` | scripts/install_openstack.py:83-91 | the texts leave no choice of the stages or of their order |
| `Planner.GetNodesNullDict` | scripts/install_openstack.py:93-99 | an empty list for exactly the hosts, failing iff a host is unreadable |
| `Planner.GetNodeRoles` | scripts/install_openstack.py:109-116 | the role lists by host, failing iff a node is unreadable |
| `Planner.GetNodesByRole` | scripts/install_openstack.py:101-107 | exactly the hosts carrying the role, once each, in any enumeration order |
| `Planner.HostsWithRole` | scripts/install_openstack.py:104-107 | the enumeration loop of that method |
| `Planner.AppendRole` | scripts/install_openstack.py:127-129 | one role appended for all its hosts; every dictionary lookup succeeds and copying changes nothing |
| `Planner.PlanStage` | scripts/install_openstack.py:123-129 | the stage's map of host to filtered role list |
| `Planner.GetNodeRolesSequence` | scripts/install_openstack.py:118-132 | the nested loops return exactly the plan, and fail iff the description is unreadable |
| `ChefDriver.Chef.constructor` | scripts/install_openstack.py:334-334 | no commands; the counter at zero beside the start time of the script |
| `ChefDriver.Chef.GetCommands` | scripts/install_openstack.py:225-242 | every plan entry compiled to the command spelled out with host, environment, user, credential and run list; exit 1 and nothing stored iff there is no non-empty key or password |
| `ChefDriver.Chef.StageCommands` | scripts/install_openstack.py:236-240 | the commands of one stage, whatever the enumeration order |
| `ChefDriver.CommandMeaning` | scripts/install_openstack.py:226-239 | the parts of a command and their order; the key is used whenever it is non-empty, the password otherwise |
| `ChefDriver.CommandTellsHost` | scripts/install_openstack.py:239-239 | for hosts without blanks, equal commands have equal hosts under any options, and equal role lists under the same options |
| `ChefDriver.CommandInjective` | scripts/install_openstack.py:239-239 | a host's command determines its role list |
| `ChefDriver.CommandsDeterminePlan` | scripts/install_openstack.py:225-242 | different plans compile to different commands |
| `ChefDriver.Chef.Sleep` | scripts/install_openstack.py:211-217 | raises TOTAL by the count, by nothing when it is not positive |
| `ChefDriver.Chef.LaunchStage` | scripts/install_openstack.py:256-263 | launches every command of the stage once, extending the given run of the transition system |
| `ChefDriver.Chef.LaunchHost` | scripts/install_openstack.py:259-263 | one launch: the clock reading goes into the shared counter, the log is opened, the run grows by that launch |
| `ChefDriver.Chef.PollRound` | scripts/install_openstack.py:266-287 | one pass over the snapshot, reaping and closing what has finished, up to the first failure; extends the given run |
| `ChefDriver.Chef.PollAndSleep` | scripts/install_openstack.py:265-291 | after a poll round the stage is over, has a culprit, or sleeps a second with a finish round still ahead |
| `ChefDriver.Chef.RunStage` | scripts/install_openstack.py:255-291 | a stage extends the given run until it is drained or has a culprit, and terminates |
| `ChefDriver.Chef.Bootstrap` | scripts/install_openstack.py:253-296 | whatever the orders and clock readings, a complete run of the transition system; result and elapsed seconds |
| `ChefDriver.TotalOfDeployment` | scripts/install_openstack.py:211-217 | when no stage that was entered has a host named TOTAL, the counter rises by the sum of the stages' latest finish rounds (plus the culprit's on failure) |
| `ChefDriver.TotalIsExactIff` | scripts/install_openstack.py:260-260 | for any trace: the counter counts seconds under every clock iff no host named TOTAL is launched |
| `ChefDriver.TotalIsRightIff` | scripts/install_openstack.py:253-296 | whenever a run is not in the middle of launching, so after a return and after an exit: iff no stage entered so far has a host named TOTAL |
| `Scheduler.ReachableInv` | scripts/install_openstack.py:255-291 | dictionary keys, open logs and control point agree in every reachable state |
| `Scheduler.HistoryOfCommand` | scripts/install_openstack.py:255-291 | the launches, reaps and successes of any command are fixed by the state: each 0 or 1 |
| `Scheduler.SchedulerInvariant` | scripts/install_openstack.py:255-291 | nothing is launched or reaped twice; unreaped processes, keys of dict and open logs coincide, all in the current stage |
| `Scheduler.NormalReturn` | scripts/install_openstack.py:255-296 | on return every command was launched once and exited 0, and no log is open |
| `Scheduler.FailFast` | scripts/install_openstack.py:278-287 | a non-zero exit is the last event; exactly the stages up to it were launched, earlier ones succeeded |
| `Scheduler.LaunchOfSuccess` | scripts/install_openstack.py:259-277 | whatever exits 0 was launched before, with the stage's command for that host |
| `Scheduler.StageBarrier` | scripts/install_openstack.py:255-291 | at a launch every command of every earlier stage has been launched and has exited 0 |
| `Timing.ExactOutcome` | scripts/install_openstack.py:253-291 | on success the ticks are the sum of the latest finish rounds; on failure the run stops in the first failing stage at the earliest failing round |
| `Timing.OrderIsIrrelevant` | scripts/install_openstack.py:259-266 | runs with the same fates end alike, whatever the enumeration orders |
| `Timing.Progress` | scripts/install_openstack.py:265-291 | a run that is not over can always go on |
| `Timing.RunsAreBounded` | scripts/install_openstack.py:265-291 | a bound on the length of every run with finite fates |
| `Timing.RunsComplete` | scripts/install_openstack.py:265-291 | every run can be continued to one that returns or exits |
| `Deployment.LaunchedWork` | scripts/install_openstack.py:118-132 | every launched command carries exactly the roles of one stage of the order for a host that has some |
| `Deployment.EndToEndBarrier` | scripts/install_openstack.py:118-291 | when a command of a stage is launched, every host with roles in an earlier stage of the order has finished that stage's command with exit 0 |
| `Deployment.CompleteDeployment` | scripts/install_openstack.py:118-296 | a deployment that returns has launched and completed all work the order lists |
| `Deployment.TextBarrier` | scripts/install_openstack.py:83-291 | the barrier from the texts: a launch gives a host its roles of some listed text in the order of the text, and all work of every text listed before has exited 0 |
| `Deployment.TextComplete` | scripts/install_openstack.py:83-296 | a deployment that returns has done the work of every text the sequence lists |
| `Deployment.CompiledDeterminesPlan` | scripts/install_openstack.py:118-242 | descriptions with the same commands have the same plan |
| `Deployment.Deploy` | scripts/install_openstack.py:313-330 | parse, compile and bootstrap, with its two ways to fail before anything is launched |
| `PrettyTable.PrettytableToArray` | cookbooks/openstack-common/libraries/parse.rb:29-57 | [] for nil, otherwise the loops compute the parse of the text |
| `PrettyTable.StripMeaning` | cookbooks/openstack-common/libraries/parse.rb:33-35 | stripping removes the blanks in front and the blanks and NULs behind, all of them and nothing else |
| `PrettyTable.LineMeaning` | cookbooks/openstack-common/libraries/parse.rb:34-44 | any line: blank ones and those beginning with +-- do nothing, the first other one gives the headers, later ones a row each |
| `PrettyTable.ColumnsMeaning` | cookbooks/openstack-common/libraries/parse.rb:35-36 | any line: its columns are the stripped pieces behind the first bar, up to the last non-empty piece |
| `PrettyTable.BuildRow` | cookbooks/openstack-common/libraries/parse.rb:41-42 | a row is keyed by the growing size of its own hash |
| `PrettyTable.LinesAgree` | cookbooks/openstack-common/libraries/parse.rb:33-34 | cutting at `$` reads the same table as splitting at newlines |
| `PrettyTable.RowObjectMeaning` | cookbooks/openstack-common/libraries/parse.rb:41-42 | rows of any width under any headers: the columns fill the headers up to the first repeated one; all surplus columns go to that repeated header, or to nil when none is repeated |
| `PrettyTable.FlattenedMeaning` | cookbooks/openstack-common/libraries/parse.rb:50-53 | any rows: each property has the value of the last row with it |
| `TableLayout.ColumnsOfRow` | cookbooks/openstack-common/libraries/parse.rb:35-36 | the columns of a printed row are its cell texts, empty cells included |
| `TableLayout.ParsedListing` | cookbooks/openstack-common/libraries/parse.rb:29-57 | a listing parses to what its rows say, whatever the borders, blank lines and padding |
| `TableLayout.RoundTrip` | cookbooks/openstack-common/libraries/parse.rb:29-57 | printing a table and parsing it gives the header-to-cell maps in row order |
| `TableLayout.PropertyValueFlattening` | cookbooks/openstack-common/libraries/parse.rb:47-56 | a Property/Value table gives one map, each property with the value of its last row |
| `TableLayout.NothingListed` | cookbooks/openstack-common/libraries/parse.rb:31-55 | [] without a table and for a listing without rows |
| `IdentityLookup.IdentityUuid` | cookbooks/openstack-common/libraries/cli.rb:79-89 | the uuid of the first matching hash, nil without one, and the wrapped error of a failed command |
| `IdentityLookup.FoundMeaning` | cookbooks/openstack-common/libraries/cli.rb:82-88 | on any hashes: the first one with the uuid field and the value decides, hashes without the field are passed over |
| `IdentityLookup.LookupInListing` | cookbooks/openstack-common/libraries/cli.rb:79-89 | on a printed listing, the uuid cell of the first row whose key cell equals the value, nil when no row has it |
| `IdentityLookup.LookupWithoutColumn` | cookbooks/openstack-common/libraries/cli.rb:79-89 | nil when the key or the uuid column is missing |
| `IdentityLookup.LookupInProperties` | cookbooks/openstack-common/libraries/cli.rb:79-89 | on a Property/Value listing, the value of the last row naming the uuid field, when the last row naming the key has the value |
| `UriPaths.UriJoinPaths` | cookbooks/openstack-common/libraries/uri.rb:53-59 | the arguments are replaced by their cores in place and joined between the outer slashes; nil without arguments |
| `UriPaths.CoreOfLine` | cookbooks/openstack-common/libraries/uri.rb:57-57 | on one line the two substitutions strip the outer slashes |
| `UriPaths.SubLeadingMeaning` | cookbooks/openstack-common/libraries/uri.rb:57-57 | on any text, the first run of slashes that starts a line goes, and nothing else |
| `UriPaths.SubTrailingMeaning` | cookbooks/openstack-common/libraries/uri.rb:57-57 | the same for the first run that ends a line |
| `UriPaths.JoinIsAssociative` | cookbooks/openstack-common/libraries/uri.rb:53-59 | joining a consecutive group first gives the same string |
| `UriPaths.SlashesOfJoin` | cookbooks/openstack-common/libraries/uri.rb:53-59 | the outer slashes of the result, and exactly when it has a double slash |
| `UriPaths.SegmentsOfJoin` | cookbooks/openstack-common/libraries/uri.rb:53-59 | split at its slashes, the result has the pieces of the arguments' cores, in order, between the outer slashes |
| `UriGrouping.AssociativeIff` | cookbooks/openstack-common/libraries/uri.rb:53-59 | for any group of one-line arguments, exactly when joining it first changes nothing: between, in front of, behind other arguments, or alone |
| `UriPaths.GsubKeepsTheRest` | cookbooks/openstack-common/libraries/uri.rb:71-71 | input and output are the same pieces with the old and the new version between them |
| `UriPaths.EveryOccurrenceReplaced` | cookbooks/openstack-common/libraries/uri.rb:71-71 | the pieces hold no occurrence, and the length drops by two for each occurrence |
| `UriPaths.V3NormalForm` | cookbooks/openstack-common/libraries/uri.rb:61-73 | the v3.0 result is free of /v2.0, is a fixed point, and equals the input iff that was free of it |
| `UriPaths.VersionsMeaning` | cookbooks/openstack-common/libraries/uri.rb:61-73 | nil exactly for other versions, unchanged under v2.0, changed under v3.0 exactly when /v2.0 occurs |
| `ServerSearch.SearchLoop` | cookbooks/openstack-common/libraries/search.rb:30-38 | for any limit: first non-nil answer or [], the number of searches, 2^(k+1) - 2 seconds slept after k nils |
| `ServerSearch.SearchFor` | cookbooks/openstack-common/libraries/search.rb:26-39 | with the library's limit at most 6 searches and 126 seconds, with the exact seconds for every number of searches |
| `ServerSearch.PowerLaw` | cookbooks/openstack-common/libraries/search.rb:35-35 | the pauses are the powers of two |
| `ServerSearch.LeMeaning` | cookbooks/openstack-common/libraries/search.rb:54-54 | the string order: a prefix first, otherwise the smaller character at the first difference |
| `ServerSearch.SortMeaning` | cookbooks/openstack-common/libraries/search.rb:54-54 | sorting puts the strings in dictionary order and keeps their multiplicities |
| `ServerSearch.SortedUnique` | cookbooks/openstack-common/libraries/search.rb:54-54 | a list has one sorted permutation |
| `ServerSearch.CanonicalMemcached` | cookbooks/openstack-common/libraries/search.rb:47-62 | the list does not depend on the order of the search response and keeps every endpoint |
| `ServerSearch.CanonicalRabbit` | cookbooks/openstack-common/libraries/search.rb:70-88 | the same for the comma list, and when it splits back into the endpoints |
| `ServerSearch.MemcachedMeaning` | cookbooks/openstack-common/libraries/search.rb:47-62 | a configured list comes back as it is; otherwise the sorted address:port list, 11211 by default |
| `ServerSearch.RabbitMeaning` | cookbooks/openstack-common/libraries/search.rb:70-88 | both branches: address:port with the right port, configured order or sorted, and when the string splits back into them |
| `Galera.SelectSyncHost` | cookbooks/galera/recipes/server.rb:188-206 | the first drawn host that is not this node; the init host, after one more draw, when as many draws as there are hosts were all this node |
| `Galera.BuildClusterAddress` | cookbooks/galera/recipes/server.rb:208-214 | appending with trailing commas and cutting the last one joins the endpoints |
| `Galera.AddressRoundTrip` | cookbooks/galera/recipes/server.rb:208-214 | the bare prefix without hosts; otherwise the address splits back into host:port for each host iff no host and not the port holds a comma |
| `Galera.FlagStays` | cookbooks/galera/recipes/server.rb:296-300 | no later step of any interleaving removes the flag |
| `Galera.ReachableNode` | cookbooks/galera/recipes/server.rb:99-300 | what every interleaving keeps about one node: flag, data directory, server and position in the recipe |
| `Galera.FlagMeansPopulated` | cookbooks/galera/recipes/server.rb:169-300 | an installed node has a populated data directory |
| `Galera.InstalledIsLeftAlone` | cookbooks/galera/recipes/server.rb:99-300 | once flagged, a node is never purged, set up, initialised or joined again |
| `Galera.CompleteRun` | cookbooks/galera/recipes/server.rb:99-300 | a run that ends without being cut short leaves the node installed, populated and up, in every interleaving, and performed exactly the listed resources in order: one start on the init node, one join elsewhere |
| `Galera.RunCanFinish` | cookbooks/galera/recipes/server.rb:99-300 | a run in progress can go on to its end by itself |
| `Galera.EveryNodeCanBeInstalled` | cookbooks/galera/recipes/server.rb:99-300 | however runs were cut short, every node can still be installed |
| `Galera.StartsAreClean` | cookbooks/galera/recipes/server.rb:232-253 | clusters start only on the init node; starts and joins find a stopped server and a populated directory |
| `Galera.StartsAreCounted` | cookbooks/galera/recipes/server.rb:232-300 | one start per run lost between start and flag, and one for the installation; at most one overall when none is lost |
| `Galera.SecondStart` | cookbooks/galera/recipes/server.rb:232-300 | from any fresh cluster two starts are possible when a run is cut short in that window |

## Left out

- XML DOM access, option parsing, `knife`, `subprocess.Popen`, log texts and wall-clock messages: foreign code or output; only element texts, process fates and clock readings appear, as parameters or open choices.
- A `host` element whose first child is itself an element: the script then uses None as a dictionary key; here it counts as unreadable.
- The time costs computed from `COUNTER['timestart']` and from the per-host start times: they only reach printed messages.
- `get_environment_content` and `get_key_pair`: the result depends on dictionary order and on a template file that is not part of this model.
- `dry_run` and the upload steps of `run`: they print or call external programs.
- `openstack_command` and `openstack_command_env`: the command is an oracle that returns text or raises.
- The search query text and the node attributes behind `search_for`: the answers to the attempts are a parameter.
- UriGrouping.AssociativeIff: groups holding a line break are left open, because `^` and `$` then also strip inside an argument; `UriPaths.UriJoinPaths` covers such arguments.
- `uri_from_hash`: a selection over Ruby's URI library.
- Galera resources that touch neither the flag, the data directory nor the server (packages, directories, templates), and the removal of `/root/` followed by the flag's own absolute path during a purge, which names another file than the flag.
- Resources that stop half-way: a recipe run is cut short between resources, not inside one.
- Roles, metadata, attributes and all other recipes: data or declarations without control flow.
