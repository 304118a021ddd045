/** Openstack#uri_join_paths and Openstack#auth_uri_transform. */
module UriPaths {
  import opened Wrappers
  import opened Text
  import opened SlashAlgebra

  /** `sub(/^\/+/, '')`: in Ruby `^` is the start of any line; the first slash run there goes. */
  function SubLeading(s: string): string
    decreases |s|
  {
    if s != "" && s[0] == '/' then TrimLeft(s, SLASH)
    else
      var e := LineEnd(s, 0);
      if e == |s| then s else s[..e + 1] + SubLeading(s[e + 1..])
  }

  /** `sub(/\/+$/, '')`: `$` is the end of any line; the first slash run before one goes. */
  function SubTrailing(s: string): string
    decreases |s|
  {
    var e := LineEnd(s, 0);
    if e > 0 && s[e - 1] == '/' then TrimRight(s[..e], SLASH) + s[e..]
    else if e == |s| then s
    else s[..e + 1] + SubTrailing(s[e + 1..])
  }

  function Core(path: string): string {
    SubTrailing(SubLeading(path))
  }

  function Cores(paths: seq<string>): (r: seq<string>)
    ensures |r| == |paths|
    ensures forall k :: 0 <= k < |paths| ==> r[k] == Core(paths[k])
  {
    seq(|paths|, k requires 0 <= k < |paths| => Core(paths[k]))
  }

  function Joined(paths: seq<string>): string
    requires paths != []
  {
    SlashIf(StartsWithSlash(paths[0])) + Join(Cores(paths), "/") + SlashIf(EndsWithSlash(paths[|paths| - 1]))
  }

  /** The argument array is rewritten in place before it is joined. */
  method UriJoinPaths(paths: array<string>) returns (r: Option<string>)
    modifies paths
    ensures paths.Length == 0 ==> r == None
    ensures paths.Length > 0 ==> r == Some(Joined(old(paths[..])))
    ensures paths[..] == Cores(old(paths[..]))
  {
    if paths.Length == 0 {
      return None;
    }
    var leadingslash := if StartsWithSlash(paths[0]) then "/" else "";
    var trailingslash := if EndsWithSlash(paths[paths.Length - 1]) then "/" else "";
    for i := 0 to paths.Length
      invariant forall k :: 0 <= k < i ==> paths[k] == Core(old(paths[k]))
      invariant forall k :: i <= k < paths.Length ==> paths[k] == old(paths[k])
    {
      paths[i] := SubTrailing(SubLeading(paths[i]));
    }
    assert paths[..] == Cores(old(paths[..]));
    return Some(leadingslash + Join(paths[..], "/") + trailingslash);
  }

  // ---------- single paths ----------

  /** On one line, the two substitutions strip the slashes at the two ends. */
  lemma CoreOfLine(path: string)
    requires '\n' !in path
    ensures Core(path) == Trim(path, SLASH, SLASH)
    ensures Trimmed(Core(path), SLASH, SLASH) && '\n' !in Core(path)
  {
    var l, r := TrimDecomposes(path, SLASH, SLASH);
    assert forall c :: c in Trim(path, SLASH, SLASH) ==> c in l + Trim(path, SLASH, SLASH) + r;
    TrimLeftSuffix(path, SLASH);
    var m := TrimLeft(path, SLASH);
    assert LineEnd(path, 0) == |path|;
    assert SubLeading(path) == m;
    assert LineEnd(m, 0) == |m|;
    assert m[..|m|] == m;
  }

  lemma CoreOfPadded(lead: bool, core: string, trail: bool)
    requires '\n' !in core && Trimmed(core, SLASH, SLASH)
    ensures Core(SlashIf(lead) + core + SlashIf(trail)) == core
  {
    CoreOfLine(SlashIf(lead) + core + SlashIf(trail));
    TrimPadded(SlashIf(lead), core, SlashIf(trail), SLASH, SLASH);
  }

  // ---------- paths of several lines ----------

  /** A line of s begins at k. */
  predicate LineStartsAt(s: string, k: int) {
    0 <= k <= |s| && (k == 0 || s[k - 1] == '\n')
  }

  predicate LineEndsAt(s: string, k: int) {
    0 <= k <= |s| && (k == |s| || s[k] == '\n')
  }

  /** The run of slashes s[i..j] at the start of a line, and no earlier line starts with a slash. */
  ghost predicate FirstLeadingRun(s: string, i: int, j: int) {
    && 0 <= i < j <= |s| && LineStartsAt(s, i)
    && (forall k :: i <= k < j ==> s[k] == '/') && (j < |s| ==> s[j] != '/')
    && forall k :: 0 <= k < i && LineStartsAt(s, k) ==> s[k] != '/'
  }

  /** The run of slashes s[i..j] at the end of a line, and no earlier line ends with a slash. */
  ghost predicate FirstTrailingRun(s: string, i: int, j: int) {
    && 0 <= i < j <= |s| && LineEndsAt(s, j)
    && (forall k :: i <= k < j ==> s[k] == '/') && (i > 0 ==> s[i - 1] != '/')
    && forall k :: 0 < k < j && LineEndsAt(s, k) ==> s[k - 1] != '/'
  }

  lemma CutBehind(s: string, n: nat, i: nat, j: nat)
    requires n <= i <= j <= |s|
    ensures s[..n] + (s[n..][..i - n] + s[n..][j - n..]) == s[..i] + s[j..]
  {
  }

  lemma LeadingRunBehind(s: string, n: nat, i: nat, j: nat)
    requires FirstLeadingRun(s, i, j) && 0 < n <= i && s[n - 1] == '\n'
    ensures FirstLeadingRun(s[n..], i - n, j - n)
  {
    forall k | 0 <= k < i - n && LineStartsAt(s[n..], k) ensures s[n..][k] != '/' {
      assert LineStartsAt(s, k + n);
    }
  }

  lemma TrailingRunBehind(s: string, n: nat, i: nat, j: nat)
    requires FirstTrailingRun(s, i, j) && 0 < n <= i && s[n - 1] == '\n'
    ensures FirstTrailingRun(s[n..], i - n, j - n)
  {
    forall k | 0 < k < j - n && LineEndsAt(s[n..], k) ensures s[n..][k - 1] != '/' {
      assert LineEndsAt(s, k + n);
    }
  }

  /** Removing the leading slashes removes the first such run and nothing else. */
  lemma {:induction false} SubLeadingMeaning(s: string, i: nat, j: nat)
    requires FirstLeadingRun(s, i, j)
    ensures SubLeading(s) == s[..i] + s[j..]
    decreases |s|
  {
    if s[0] == '/' {
      assert LineStartsAt(s, 0);
      assert s == s[..j] + s[j..];
      TrimLeftSkips(s[..j], s[j..], SLASH);
    } else {
      var e := LineEnd(s, 0);
      assert i > e;
      LeadingRunBehind(s, e + 1, i, j);
      SubLeadingMeaning(s[e + 1..], i - e - 1, j - e - 1);
      CutBehind(s, e + 1, i, j);
    }
  }

  lemma {:induction false} NoLeadingRun(s: string)
    requires forall k :: 0 <= k < |s| && LineStartsAt(s, k) ==> s[k] != '/'
    ensures SubLeading(s) == s
    decreases |s|
  {
    assert s != "" ==> LineStartsAt(s, 0);
    var e := LineEnd(s, 0);
    if e < |s| {
      var rest := s[e + 1..];
      forall k | 0 <= k < |rest| && LineStartsAt(rest, k) ensures rest[k] != '/' {
        assert LineStartsAt(s, k + e + 1);
      }
      NoLeadingRun(rest);
    }
  }

  lemma EndOfRun(a: string, run: string)
    requires Only(run, SLASH) && (a != "" ==> a[|a| - 1] != '/')
    ensures TrimRight(a + run, SLASH) == a
  {
    TrimRightSkips(a, run, SLASH);
  }

  lemma RunInFurtherLine(s: string, e: nat, i: nat, j: nat)
    requires e == LineEnd(s, 0) < i <= j <= |s| && (e > 0 ==> s[e - 1] != '/')
    requires SubTrailing(s[e + 1..]) == s[e + 1..][..i - e - 1] + s[e + 1..][j - e - 1..]
    ensures SubTrailing(s) == s[..i] + s[j..]
  {
    CutBehind(s, e + 1, i, j);
  }

  lemma RunInFirstLine(s: string, e: nat, i: nat)
    requires e == LineEnd(s, 0) && FirstTrailingRun(s, i, e)
    ensures SubTrailing(s) == s[..i] + s[e..]
  {
    EndOfRun(s[..i], s[i..e]);
    assert s[..e] == s[..i] + s[i..e];
  }

  /** The first run ends in the first line exactly when that line ends with a slash. */
  lemma WhereRunEnds(s: string, e: nat, i: nat, j: nat)
    requires e == LineEnd(s, 0) && FirstTrailingRun(s, i, j)
    ensures if e > 0 && s[e - 1] == '/' then j == e else e < i && s[e] == '\n'
  {
    assert LineEndsAt(s, e);
    assert forall k :: 0 <= k < e ==> s[k] != '\n';
  }

  /** The same at the ends of lines. */
  lemma {:induction false} SubTrailingMeaning(s: string, i: nat, j: nat)
    requires FirstTrailingRun(s, i, j)
    ensures SubTrailing(s) == s[..i] + s[j..]
    decreases |s|
  {
    var e := LineEnd(s, 0);
    WhereRunEnds(s, e, i, j);
    if j == e {
      RunInFirstLine(s, e, i);
    } else {
      TrailingRunBehind(s, e + 1, i, j);
      SubTrailingMeaning(s[e + 1..], i - e - 1, j - e - 1);
      RunInFurtherLine(s, e, i, j);
    }
  }

  lemma {:induction false} NoTrailingRun(s: string)
    requires forall k :: 0 < k <= |s| && LineEndsAt(s, k) ==> s[k - 1] != '/'
    ensures SubTrailing(s) == s
    decreases |s|
  {
    var e := LineEnd(s, 0);
    assert LineEndsAt(s, e);
    if e < |s| {
      var rest := s[e + 1..];
      forall k | 0 < k <= |rest| && LineEndsAt(rest, k) ensures rest[k - 1] != '/' {
        assert LineEndsAt(s, k + e + 1);
      }
      NoTrailingRun(rest);
    }
  }

  // ---------- joining a group first ----------

  ghost predicate OneLine(paths: seq<string>) {
    AllFree(paths, '\n')
  }

  /** The group's first and last arguments hold something besides slashes, or it has one argument. */
  predicate Groupable(group: seq<string>) {
    group != [] && (|group| == 1 || (Core(group[0]) != "" && Core(group[|group| - 1]) != ""))
  }

  lemma {:induction false} JoinNoNewline(parts: seq<string>)
    requires AllFree(parts, '\n')
    ensures '\n' !in Join(parts, "/")
  {
    if |parts| <= 1 {
    } else {
      JoinNoNewline(parts[1..]);
    }
  }

  lemma CoresOneLine(paths: seq<string>)
    requires OneLine(paths)
    ensures AllFree(Cores(paths), '\n') && '\n' !in Join(Cores(paths), "/")
    ensures forall k :: 0 <= k < |paths| ==> Trimmed(Core(paths[k]), SLASH, SLASH)
  {
    forall k | 0 <= k < |paths| ensures '\n' !in Core(paths[k]) && Trimmed(Core(paths[k]), SLASH, SLASH) {
      CoreOfLine(paths[k]);
    }
    JoinNoNewline(Cores(paths));
  }

  /** A groupable group, joined, behaves like one argument: its core is the join of the cores, and
      its outer slashes are those of its outer arguments. */
  lemma GroupAsArgument(group: seq<string>)
    requires OneLine(group) && Groupable(group)
    ensures Core(Joined(group)) == Join(Cores(group), "/")
    ensures StartsWithSlash(Joined(group)) == StartsWithSlash(group[0])
    ensures EndsWithSlash(Joined(group)) == EndsWithSlash(group[|group| - 1])
  {
    var j := Join(Cores(group), "/");
    var lead, trail := StartsWithSlash(group[0]), EndsWithSlash(group[|group| - 1]);
    GroupCore(group);
    CoreOfPadded(lead, j, trail);
    if j == "" {
      AllSlashes(group[0]);
      assert SlashIf(lead) + "" + SlashIf(trail) == SlashIf(lead) + SlashIf(trail);
    } else {
      OuterSlashes(lead, j, trail);
    }
  }

  lemma GroupCore(group: seq<string>)
    requires OneLine(group) && Groupable(group)
    ensures var j := Join(Cores(group), "/");
      '\n' !in j && Trimmed(j, SLASH, SLASH) && (j == "" ==> |group| == 1 && Core(group[0]) == "")
  {
    CoresOneLine(group);
    JoinEnds(Cores(group));
  }

  lemma AllSlashes(path: string)
    requires '\n' !in path && Core(path) == ""
    ensures path != "" ==> StartsWithSlash(path) && EndsWithSlash(path)
  {
    CoreOfLine(path);
    var l, r := TrimDecomposes(path, SLASH, SLASH);
    assert path == l + r;
    if path != "" {
      assert path[0] in SLASH && path[|path| - 1] in SLASH;
    }
  }

  lemma CoresConcat(a: seq<string>, g: seq<string>, b: seq<string>)
    ensures Cores(a + g + b) == Cores(a) + Cores(g) + Cores(b)
  {
  }

  /** Joining a consecutive group first and then the rest gives the same string as joining all at
      once, for any arguments before and after the group. */
  lemma JoinIsAssociative(a: seq<string>, group: seq<string>, b: seq<string>)
    requires OneLine(group) && Groupable(group)
    ensures Joined(a + [Joined(group)] + b) == Joined(a + group + b)
  {
    GroupAsArgument(group);
    CoresConcat(a, [Joined(group)], b);
    CoresConcat(a, group, b);
    assert Cores([Joined(group)]) == [Join(Cores(group), "/")];
    JoinNested(Cores(a), Cores(group), Cores(b), "/");
    SameEnds(a, Joined(group), group, b);
  }

  lemma SameEnds(a: seq<string>, one: string, group: seq<string>, b: seq<string>)
    requires group != []
    requires StartsWithSlash(one) == StartsWithSlash(group[0])
    requires EndsWithSlash(one) == EndsWithSlash(group[|group| - 1])
    ensures var x, y := a + [one] + b, a + group + b;
      StartsWithSlash(x[0]) == StartsWithSlash(y[0]) && EndsWithSlash(x[|x| - 1]) == EndsWithSlash(y[|y| - 1])
  {
  }

  // ---------- the slashes of the result ----------

  /** For arguments that all hold something besides slashes, the result starts and ends with a slash
      exactly when the first and the last argument do, and it contains a double slash exactly when
      some argument has one between its own ends. */
  lemma SlashesOfJoin(paths: seq<string>)
    requires paths != [] && OneLine(paths)
    requires forall k :: 0 <= k < |paths| ==> Core(paths[k]) != ""
    ensures StartsWithSlash(Joined(paths)) == StartsWithSlash(paths[0])
    ensures EndsWithSlash(Joined(paths)) == EndsWithSlash(paths[|paths| - 1])
    ensures HasDouble(Joined(paths)) <==> exists k :: 0 <= k < |paths| && HasDouble(Core(paths[k]))
  {
    CoresOneLine(paths);
    JoinEnds(Cores(paths));
    DoubleInJoin(Cores(paths));
    OuterSlashes(StartsWithSlash(paths[0]), Join(Cores(paths), "/"), EndsWithSlash(paths[|paths| - 1]));
    forall k | 0 <= k < |paths| ensures HasDouble(Core(paths[k])) <==> HasDouble(Cores(paths)[k]) {
    }
  }

  // ---------- the segments of the result ----------

  function AllPieces(paths: seq<string>): seq<string> {
    if paths == [] then [] else Split(paths[0], '/') + AllPieces(paths[1..])
  }

  lemma {:induction false} PiecesOfJoin(parts: seq<string>)
    requires parts != []
    ensures Split(Join(parts, "/"), '/') == AllPieces(parts)
  {
    if |parts| == 1 {
      assert AllPieces(parts[1..]) == [];
    } else {
      PiecesOfJoin(parts[1..]);
      SplitConcat(parts[0], Join(parts[1..], "/"), '/');
    }
  }

  lemma OuterPieces(lead: bool, j: string, trail: bool)
    ensures Split(SlashIf(lead) + j + SlashIf(trail), '/')
            == (if lead then [""] else []) + Split(j, '/') + (if trail then [""] else [])
  {
    var w := SlashIf(lead) + j;
    if lead {
      assert w == ['/'] + j;
      SplitCons('/', j, '/');
    } else {
      assert w == j;
    }
    if trail {
      assert w + SlashIf(trail) == w + ['/'] + "";
      SplitConcat(w, "", '/');
    } else {
      assert w + SlashIf(trail) == w;
    }
  }

  /** Split at its slashes, the result consists of the pieces of the arguments' cores, in order, between
      an empty piece for a leading and one for a trailing slash. */
  lemma SegmentsOfJoin(paths: seq<string>)
    requires paths != []
    ensures Split(Joined(paths), '/') ==
            (if "/" <= paths[0] then [""] else []) + AllPieces(Cores(paths))
            + (if EndsWithSlash(paths[|paths| - 1]) then [""] else [])
  {
    PiecesOfJoin(Cores(paths));
    OuterPieces(StartsWithSlash(paths[0]), Join(Cores(paths), "/"), EndsWithSlash(paths[|paths| - 1]));
  }

  // ---------- auth_uri_transform ----------

  const OLD: string := "/v2.0"
  const NEW: string := "/v3"

  /** `gsub('/v2.0', '/v3')`: occurrences from left to right, not overlapping. */
  function Gsub(s: string): string {
    if |s| < 5 then s
    else if s[..5] == OLD then NEW + Gsub(s[5..])
    else [s[0]] + Gsub(s[1..])
  }

  /** nil for any version but the two. */
  function AuthUriTransform(uri: string, version: string): Option<string> {
    match version
    case "v2.0" => Some(uri)
    case "v3.0" => Some(Gsub(uri))
    case _ => None
  }

  predicate OccursAt(s: string, k: int) {
    0 <= k && k + 5 <= |s| && s[k..k + 5] == "/v2.0"
  }

  ghost predicate Occurs(s: string) {
    exists k :: OccursAt(s, k)
  }

  /** The text around the replaced occurrences. */
  ghost function Around(s: string): (parts: seq<string>)
    ensures parts != []
  {
    if |s| < 5 then [s]
    else if s[..5] == OLD then [""] + Around(s[5..])
    else
      var rest := Around(s[1..]);
      [[s[0]] + rest[0]] + rest[1..]
  }

  lemma JoinHead(x: string, parts: seq<string>, sep: string)
    requires parts != []
    ensures Join([x + parts[0]] + parts[1..], sep) == x + Join(parts, sep)
  {
    var p := [x + parts[0]] + parts[1..];
    assert p[1..] == parts[1..];
    if |parts| > 1 {
      assert x + parts[0] + sep + Join(parts[1..], sep) == x + (parts[0] + sep + Join(parts[1..], sep));
    }
  }

  lemma JoinEmptyHead(parts: seq<string>, sep: string)
    requires parts != []
    ensures Join([""] + parts, sep) == sep + Join(parts, sep)
  {
    assert ([""] + parts)[1..] == parts;
    assert "" + sep + Join(parts, sep) == sep + Join(parts, sep);
  }

  /** The input is the surrounding pieces with `/v2.0` between them, the output is the same pieces
      in the same order with `/v3` there instead; so the output is shorter by two characters for
      each occurrence replaced. */
  lemma {:induction false} GsubKeepsTheRest(s: string)
    ensures Join(Around(s), "/v2.0") == s
    ensures Join(Around(s), "/v3") == Gsub(s)
    ensures |Gsub(s)| == |s| - 2 * (|Around(s)| - 1)
  {
    if |s| < 5 {
    } else {
      if s[..5] == OLD {
        GsubKeepsTheRest(s[5..]);
        JoinEmptyHead(Around(s[5..]), OLD);
        JoinEmptyHead(Around(s[5..]), NEW);
        assert s == OLD + s[5..];
      } else {
        GsubKeepsTheRest(s[1..]);
        JoinHead([s[0]], Around(s[1..]), OLD);
        JoinHead([s[0]], Around(s[1..]), NEW);
        assert s == [s[0]] + s[1..];
      }
    }
  }

  lemma OldChars(s: string, k: int)
    requires OccursAt(s, k)
    ensures s[k] == '/' && s[k + 1] == 'v' && s[k + 2] == '2' && s[k + 3] == '.' && s[k + 4] == '0'
  {
    var o := s[k..k + 5];
    assert o[0] == s[k] && o[1] == s[k + 1] && o[2] == s[k + 2] && o[3] == s[k + 3] && o[4] == s[k + 4];
  }

  lemma OccursShifted(a: string, b: string, k: int)
    requires OccursAt(a + b, k) && k >= |a|
    ensures OccursAt(b, k - |a|)
  {
    assert (a + b)[k..k + 5] == b[k - |a|..k - |a| + 5];
  }

  /** What stands in front of a rewritten text, when no occurrence of `/v2.0` starts there, is
      told by the text before rewriting. */
  lemma {:induction false} GsubStart(s: string, p: string)
    requires |p| <= 4 && p <= Gsub(s) && '/' !in p
    ensures p <= s
    decreases |p|
  {
    if p == "" || |s| < 5 {
    } else {
      assert p[0] == Gsub(s)[0];
      if s[..5] != OLD {
        assert Gsub(s)[1..] == Gsub(s[1..]);
        assert p[1..] <= Gsub(s[1..]) by {
          assert p == Gsub(s)[..|p|];
        }
        GsubStart(s[1..], p[1..]);
        assert p == [p[0]] + p[1..] && s == [s[0]] + s[1..];
      }
    }
  }

  /** At how many places `/v2.0` occurs, overlapping or not. */
  function Occurrences(s: string): nat {
    if s == "" then 0 else (if OccursAt(s, 0) then 1 else 0) + Occurrences(s[1..])
  }

  lemma NoSlashNoOccurrence(x: char, s: string)
    requires x != '/'
    ensures Occurrences([x] + s) == Occurrences(s)
  {
    var w := [x] + s;
    assert w[1..] == s;
    if OccursAt(w, 0) {
      OldChars(w, 0);
    }
  }

  lemma OccurrencesBehind(s: string)
    requires |s| >= 5 && s[..5] == OLD
    ensures Occurrences(s) == 1 + Occurrences(s[5..])
  {
    var r := s[5..];
    OldChars(s, 0);
    assert s[1..] == ['v'] + (['2'] + (['.'] + (['0'] + r)));
    NoSlashNoOccurrence('v', ['2'] + (['.'] + (['0'] + r)));
    NoSlashNoOccurrence('2', ['.'] + (['0'] + r));
    NoSlashNoOccurrence('.', ['0'] + r);
    NoSlashNoOccurrence('0', r);
  }

  /** Every occurrence is replaced: the rewritten text is shorter by exactly two characters for each
      place at which `/v2.0` occurred, and the pieces kept hold none. */
  lemma {:induction false} EveryOccurrenceReplaced(s: string)
    ensures |Gsub(s)| == |s| - 2 * Occurrences(s)
    ensures forall k :: 0 <= k < |Around(s)| ==> !Occurs(Around(s)[k])
    decreases |s|
  {
    if |s| < 5 {
      NoneInShort(s);
    } else if s[..5] == OLD {
      EveryOccurrenceReplaced(s[5..]);
      OccurrencesBehind(s);
    } else {
      EveryOccurrenceReplaced(s[1..]);
      var rest := Around(s[1..]);
      GsubKeepsTheRest(s[1..]);
      FirstPiece(rest);
      OldAtHead(s, rest[0]);
      forall k ensures !OccursAt([s[0]] + rest[0], k) {
        if k > 0 && OccursAt([s[0]] + rest[0], k) {
          OccursShifted([s[0]], rest[0], k);
        }
      }
    }
  }

  lemma OldAtHead(s: string, p: string)
    requires s != "" && p <= s[1..]
    ensures OccursAt([s[0]] + p, 0) ==> |s| >= 5 && s[..5] == OLD
  {
    if OccursAt([s[0]] + p, 0) {
      assert s[..5] == ([s[0]] + p)[..5];
    }
  }

  lemma {:induction false} NoneInShort(s: string)
    requires |s| < 5
    ensures Occurrences(s) == 0 && !Occurs(s)
  {
    if s == "" {
    } else {
      NoneInShort(s[1..]);
    }
  }

  lemma FirstPiece(parts: seq<string>)
    requires parts != []
    ensures parts[0] <= Join(parts, OLD)
  {
  }

  /** An occurrence at the head of the rewritten text was there before. */
  lemma NoNewHead(s: string)
    requires |s| >= 5
    ensures OccursAt([s[0]] + Gsub(s[1..]), 0) ==> s[..5] == OLD
  {
    var g := [s[0]] + Gsub(s[1..]);
    if OccursAt(g, 0) {
      OldChars(g, 0);
      assert g[1..5] == "v2.0" && Gsub(s[1..])[..4] == g[1..5];
      GsubStart(s[1..], "v2.0");
      assert s[..5] == [s[0]] + s[1..][..4];
    }
  }

  /** Rewriting leaves no `/v2.0` behind: none survives and none is created. */
  lemma {:induction false} GsubIsClean(s: string)
    ensures !Occurs(Gsub(s))
  {
    if |s| >= 5 && s[..5] == OLD {
      GsubIsClean(s[5..]);
      var g := NEW + Gsub(s[5..]);
      assert g[0] == '/' && g[1] == 'v' && g[2] == '3';
      forall k ensures !OccursAt(g, k) {
        if OccursAt(g, k) {
          OldChars(g, k);
          if k >= 3 {
            OccursShifted(NEW, Gsub(s[5..]), k);
          }
        }
      }
    } else if |s| >= 5 {
      GsubIsClean(s[1..]);
      NoNewHead(s);
      var g := [s[0]] + Gsub(s[1..]);
      forall k ensures !OccursAt(g, k) {
        if k > 0 && OccursAt(g, k) {
          OccursShifted([s[0]], Gsub(s[1..]), k);
        }
      }
    }
  }

  lemma {:induction false} GsubWithoutOccurrence(s: string)
    ensures Gsub(s) == s <==> !Occurs(s)
  {
    if |s| >= 5 {
      if s[..5] == OLD {
        assert OccursAt(s, 0);
        GsubKeepsTheRest(s);
      } else {
        GsubWithoutOccurrence(s[1..]);
        assert s == [s[0]] + s[1..];
        if k :| OccursAt(s[1..], k) {
          assert s[1..][k..k + 5] == s[k + 1..k + 6];
          assert OccursAt(s, k + 1);
        }
        if k :| OccursAt(s, k) {
          assert k > 0;
          OccursShifted([s[0]], s[1..], k);
        }
      }
    } else {
      assert forall k :: !OccursAt(s, k);
    }
  }

  /** The v3.0 form is a normal form: free of `/v2.0`, reached in one application, and equal to the
      input exactly when the input was free of it. */
  lemma V3NormalForm(uri: string)
    ensures AuthUriTransform(uri, "v3.0") == Some(Join(Around(uri), "/v3"))
    ensures var r := AuthUriTransform(uri, "v3.0");
      && r.Some? && !Occurs(r.value)
      && AuthUriTransform(r.value, "v3.0") == r
      && (r.value == uri <==> !Occurs(uri))
  {
    GsubKeepsTheRest(uri);
    GsubIsClean(uri);
    GsubWithoutOccurrence(uri);
    GsubWithoutOccurrence(Gsub(uri));
  }

  /** The result differs from the input only under v3.0, and then exactly when `/v2.0` occurs; it is
      nil exactly for the other versions. */
  lemma VersionsMeaning(uri: string, version: string)
    ensures AuthUriTransform(uri, version) == None <==> version != "v2.0" && version != "v3.0"
    ensures version == "v2.0" ==> AuthUriTransform(uri, version) == Some(uri)
    ensures version == "v3.0" ==> (AuthUriTransform(uri, version) == Some(uri) <==> !Occurs(uri))
  {
    GsubWithoutOccurrence(uri);
  }
}
