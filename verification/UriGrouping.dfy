/** Exactly when joining a group of neighbouring path arguments first makes no difference. */
module UriGrouping {
  import opened Text
  import opened SlashAlgebra
  import opened UriPaths

  // ---------- the conditions ----------

  /** A group at the front may also begin with an empty argument that nothing but its slash follows. */
  predicate GroupableFirst(group: seq<string>)
    requires group != []
  {
    Groupable(group) ||
    (group[0] == "" && (|group| == 2 || (|group| > 2 && Core(group[1]) != "" && Core(group[|group| - 1]) != "")))
  }

  /** The mirror image for a group at the back. */
  predicate GroupableLast(group: seq<string>)
    requires group != []
  {
    Groupable(group) ||
    (group[|group| - 1] == "" && (|group| == 2 || (|group| > 2 && Core(group[|group| - 2]) != "" && Core(group[0]) != "")))
  }

  /** The front shows no slashes that a second join would merge. */
  predicate OpenFront(group: seq<string>)
    requires |group| >= 2
  {
    Core(group[0]) != "" || (group[0] == "" && Core(group[1]) != "")
  }

  predicate OpenBack(group: seq<string>)
    requires |group| >= 2
  {
    Core(group[|group| - 1]) != "" || (group[|group| - 1] == "" && Core(group[|group| - 2]) != "")
  }

  /** Only slashes, and exactly two of them when joined. */
  predicate TwoSlashes(group: seq<string>)
    requires |group| >= 2
  {
    (forall k :: 0 <= k < |group| ==> Core(group[k]) == "") &&
    ((|group| == 2 && (group[0] == "") != (group[1] == "")) || (|group| == 3 && group[0] == "" && group[2] == ""))
  }

  /** A group that is all there is: joining its join once more changes nothing. */
  predicate GroupableAlone(group: seq<string>)
    requires group != []
  {
    |group| == 1 || (OpenFront(group) && OpenBack(group)) || TwoSlashes(group)
  }

  /** The condition for a group between a and b, either of which may be empty. */
  predicate GroupableIn(a: seq<string>, group: seq<string>, b: seq<string>)
    requires group != []
  {
    if a != [] && b != [] then Groupable(group)
    else if b != [] then GroupableFirst(group)
    else if a != [] then GroupableLast(group)
    else GroupableAlone(group)
  }

  // ---------- arguments ----------

  /** What stands in front of and behind the middle of a join. */
  function FrontText(a: seq<string>): string
    requires a != []
  {
    SlashIf(StartsWithSlash(a[0])) + Join(Cores(a), "/") + "/"
  }

  function BackText(b: seq<string>): string
    requires b != []
  {
    "/" + Join(Cores(b), "/") + SlashIf(EndsWithSlash(b[|b| - 1]))
  }

  lemma CoresOfTwo(a: seq<string>, b: seq<string>)
    ensures Cores(a + b) == Cores(a) + Cores(b)
  {
  }

  lemma JoinedFront(g: seq<string>, b: seq<string>)
    requires g != [] && b != []
    ensures Joined(g + b) == SlashIf(StartsWithSlash(g[0])) + Join(Cores(g), "/") + BackText(b)
  {
    CoresOfTwo(g, b);
    JoinConcat(Cores(g), Cores(b), "/");
    Regroup(SlashIf(StartsWithSlash(g[0])), Join(Cores(g), "/"), "/", Join(Cores(b), "/"),
            SlashIf(EndsWithSlash(b[|b| - 1])));
  }

  lemma JoinedBack(a: seq<string>, g: seq<string>)
    requires g != [] && a != []
    ensures Joined(a + g) == FrontText(a) + Join(Cores(g), "/") + SlashIf(EndsWithSlash(g[|g| - 1]))
  {
    CoresOfTwo(a, g);
    JoinConcat(Cores(a), Cores(g), "/");
    Regroup(SlashIf(StartsWithSlash(a[0])), Join(Cores(a), "/"), "/", Join(Cores(g), "/"),
            SlashIf(EndsWithSlash(g[|g| - 1])));
  }

  lemma JoinedMiddle(a: seq<string>, g: seq<string>, b: seq<string>)
    requires a != [] && g != [] && b != []
    ensures |Joined(a + g + b)| == |FrontText(a)| + |Join(Cores(g), "/")| + |BackText(b)|
  {
    JoinedBack(a, g + b);
    assert a + g + b == a + (g + b);
    CoresOfTwo(g, b);
    JoinConcat(Cores(g), Cores(b), "/");
  }

  /** A one-line argument without a core is empty exactly when it does not start, or end, with a slash. */
  lemma CorelessArgument(path: string)
    requires '\n' !in path
    ensures Core(path) == "" ==> (StartsWithSlash(path) <==> path != "") && (EndsWithSlash(path) <==> path != "")
    ensures path == "" ==> Core(path) == ""
  {
    CoreOfLine(path);
    if Core(path) == "" {
      AllSlashes(path);
    }
  }

  lemma PlainGroup(group: seq<string>)
    requires OneLine(group) && group != []
    ensures AllTrimmed(Cores(group)) && Core(Joined(group)) == Bare(Joined(group))
    ensures Joined(group) == Outer(StartsWithSlash(group[0]), Cores(group), EndsWithSlash(group[|group| - 1]))
  {
    CoresOneLine(group);
    CoreOfLine(Joined(group));
  }

  // ---------- the four positions ----------

  lemma InnerIff(a: seq<string>, group: seq<string>, b: seq<string>)
    requires a != [] && b != [] && group != [] && OneLine(group) && !Groupable(group)
    ensures Joined(a + [Joined(group)] + b) != Joined(a + group + b)
  {
    PlainGroup(group);
    JoinEnds(Cores(group));
    BareLoses(SlashIf(StartsWithSlash(group[0])), Join(Cores(group), "/"), SlashIf(EndsWithSlash(group[|group| - 1])));
    JoinedMiddle(a, [Joined(group)], b);
    CoreOfOne(Joined(group));
    JoinedMiddle(a, group, b);
  }

  lemma CoreOfOne(w: string)
    ensures Join(Cores([w]), "/") == Core(w)
  {
    assert Cores([w]) == [Core(w)];
  }

  /** At the front only the left part and the core of the join matter. */
  lemma FirstReduces(group: seq<string>, b: seq<string>)
    requires group != [] && b != [] && OneLine(group)
    ensures var w := Outer(StartsWithSlash(group[0]), Cores(group), EndsWithSlash(group[|group| - 1]));
      Joined([Joined(group)] + b) == Joined(group + b) <==>
      SlashIf(StartsWithSlash(w)) + Bare(w) == SlashIf(StartsWithSlash(group[0])) + Join(Cores(group), "/")
  {
    var w := Joined(group);
    PlainGroup(group);
    JoinedFront([w], b);
    CoreOfOne(w);
    JoinedFront(group, b);
    SameSuffix(SlashIf(StartsWithSlash(w)) + Core(w), SlashIf(StartsWithSlash(group[0])) + Join(Cores(group), "/"),
               BackText(b));
  }

  lemma LastReduces(a: seq<string>, group: seq<string>)
    requires group != [] && a != [] && OneLine(group)
    ensures var w := Outer(StartsWithSlash(group[0]), Cores(group), EndsWithSlash(group[|group| - 1]));
      Joined(a + [Joined(group)]) == Joined(a + group) <==>
      Bare(w) + SlashIf(EndsWithSlash(w)) == Join(Cores(group), "/") + SlashIf(EndsWithSlash(group[|group| - 1]))
  {
    PlainGroup(group);
    var w, l := Joined(group), FrontText(a);
    JoinedBack(a, [w]);
    CoreOfOne(w);
    JoinedBack(a, group);
    SameFront(l, Core(w), SlashIf(EndsWithSlash(w)), Join(Cores(group), "/"), SlashIf(EndsWithSlash(group[|group| - 1])));
  }

  // ---------- the conditions in terms of cores and outer slashes ----------

  lemma FirstCondition(group: seq<string>)
    requires OneLine(group) && |group| >= 2
    ensures GroupableFirst(group) == FrontKept(StartsWithSlash(group[0]), Cores(group))
  {
    var n, parts := |group|, Cores(group);
    assert parts[n - 1] == Core(group[n - 1]) && parts[1] == Core(group[1]) && parts[0] == Core(group[0]);
    CorelessArgument(group[0]);
  }

  lemma LastCondition(group: seq<string>)
    requires OneLine(group) && |group| >= 2
    ensures GroupableLast(group) == BackKept(Cores(group), EndsWithSlash(group[|group| - 1]))
  {
    var n, parts := |group|, Cores(group);
    var last := group[n - 1];
    assert parts[n - 1] == Core(last) && parts[n - 2] == Core(group[n - 2]) && parts[0] == Core(group[0]);
    CorelessArgument(last);
  }

  lemma AloneCondition(group: seq<string>)
    requires OneLine(group) && |group| >= 2
    ensures var lead, trail, parts := StartsWithSlash(group[0]), EndsWithSlash(group[|group| - 1]), Cores(group);
      GroupableAlone(group) <==>
      if AllEmpty(parts) then (|parts| == 2 && lead != trail) || (|parts| == 3 && !lead && !trail)
      else !CloggedFront(lead, parts) && !CloggedBack(parts, trail)
  {
    var parts := Cores(group);
    CorelessArgument(group[0]);
    CorelessArgument(group[|group| - 1]);
    if AllEmpty(parts) {
      assert forall k :: 0 <= k < |group| ==> Core(group[k]) == parts[k];
    } else {
      var k :| 0 <= k < |parts| && parts[k] != "";
      assert Core(group[k]) != "";
    }
  }

  // ---------- the groups at the ends ----------

  lemma FirstNormal(group: seq<string>)
    requires OneLine(group) && |group| >= 2
    ensures var lead, parts := StartsWithSlash(group[0]), Cores(group);
      var w := Outer(lead, parts, EndsWithSlash(group[|group| - 1]));
      (SlashIf(StartsWithSlash(w)) + Bare(w) == SlashIf(lead) + Join(parts, "/")) == GroupableFirst(group)
  {
    PlainGroup(group);
    FrontIsNormal(StartsWithSlash(group[0]), Cores(group), EndsWithSlash(group[|group| - 1]));
    FirstCondition(group);
  }

  lemma FirstIff(group: seq<string>, b: seq<string>)
    requires b != [] && OneLine(group) && |group| >= 2
    ensures Joined([Joined(group)] + b) == Joined(group + b) <==> GroupableFirst(group)
  {
    FirstReduces(group, b);
    FirstNormal(group);
  }

  lemma LastNormal(group: seq<string>)
    requires OneLine(group) && |group| >= 2
    ensures var parts, trail := Cores(group), EndsWithSlash(group[|group| - 1]);
      var w := Outer(StartsWithSlash(group[0]), parts, trail);
      (Bare(w) + SlashIf(EndsWithSlash(w)) == Join(parts, "/") + SlashIf(trail)) == GroupableLast(group)
  {
    PlainGroup(group);
    BackIsNormal(StartsWithSlash(group[0]), Cores(group), EndsWithSlash(group[|group| - 1]));
    LastCondition(group);
  }

  lemma LastIff(a: seq<string>, group: seq<string>)
    requires a != [] && OneLine(group) && |group| >= 2
    ensures Joined(a + [Joined(group)]) == Joined(a + group) <==> GroupableLast(group)
  {
    LastReduces(a, group);
    LastNormal(group);
  }

  lemma AloneIff(group: seq<string>)
    requires OneLine(group) && |group| >= 2
    ensures Joined([Joined(group)]) == Joined(group) <==> GroupableAlone(group)
  {
    PlainGroup(group);
    CoreOfOne(Joined(group));
    BothIsNormal(StartsWithSlash(group[0]), Cores(group), EndsWithSlash(group[|group| - 1]));
    AloneCondition(group);
  }

  /** Joining a group first gives the same string as joining all at once exactly under the condition
      for the group's place: between other arguments, in front of them, behind them, or alone. */
  lemma AssociativeIff(a: seq<string>, group: seq<string>, b: seq<string>)
    requires group != [] && OneLine(group)
    ensures Joined(a + [Joined(group)] + b) == Joined(a + group + b) <==> GroupableIn(a, group, b)
  {
    var w := Joined(group);
    if Groupable(group) {
      JoinIsAssociative(a, group, b);
    } else if a != [] && b != [] {
      InnerIff(a, group, b);
    } else if b != [] {
      assert a + [w] + b == [w] + b && a + group + b == group + b;
      FirstIff(group, b);
    } else if a != [] {
      assert a + [w] + b == a + [w] && a + group + b == a + group;
      LastIff(a, group);
    } else {
      assert a + [w] + b == [w] && a + group + b == group;
      AloneIff(group);
    }
  }
}
