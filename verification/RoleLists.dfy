/** Comma lists of the deployment description and the run lists compiled from them
    (XMLParser.string_to_list, XMLParser.copy_list and Chef.list_to_string). */
module RoleLists {
  import opened Text

  /** What `strip()` removes: the DOM delivers unicode text, so the whole Unicode blank class. */
  const SPACE: set<char> := {
    '\t', '\n', '\U{0B}', '\U{0C}', '\r', '\U{1C}', '\U{1D}', '\U{1E}', '\U{1F}', ' ',
    '\U{85}', '\U{A0}', '\U{1680}', '\U{180E}',
    '\U{2000}', '\U{2001}', '\U{2002}', '\U{2003}', '\U{2004}', '\U{2005}', '\U{2006}',
    '\U{2007}', '\U{2008}', '\U{2009}', '\U{200A}',
    '\U{2028}', '\U{2029}', '\U{202F}', '\U{205F}', '\U{3000}'
  }

  function Strip(s: string): string {
    Trim(s, SPACE, SPACE)
  }

  /** The blanks of Unicode, as Python's `isspace` knows them. */
  predicate IsSpace(c: char) {
    || '\t' <= c <= '\r' || '\U{1C}' <= c <= ' ' || c == '\U{85}' || c == '\U{A0}' || c == '\U{1680}'
    || c == '\U{180E}' || '\U{2000}' <= c <= '\U{200A}' || c == '\U{2028}' || c == '\U{2029}'
    || c == '\U{202F}' || c == '\U{205F}' || c == '\U{3000}'
  }

  ghost predicate AllSpace(s: string) {
    forall k :: 0 <= k < |s| ==> IsSpace(s[k])
  }

  /** core is what is left of s between blanks, and has none at its own ends. */
  ghost predicate IsCore(s: string, core: string) {
    && (exists l, r :: s == l + core + r && AllSpace(l) && AllSpace(r))
    && (core != "" ==> !IsSpace(core[0]) && !IsSpace(core[|core| - 1]))
  }

  lemma SpacesAgree(s: string)
    ensures Only(s, SPACE) <==> AllSpace(s)
    ensures Trimmed(s, SPACE, SPACE) <==> s == "" || (!IsSpace(s[0]) && !IsSpace(s[|s| - 1]))
  {
  }

  /** Stripping removes the blanks at the two ends, all of them, and nothing else. */
  lemma StripMeaning(s: string, core: string)
    ensures Strip(s) == core <==> IsCore(s, core)
  {
    var l, r := TrimDecomposes(s, SPACE, SPACE);
    SpacesAgree(l);
    SpacesAgree(r);
    SpacesAgree(Strip(s));
    SpacesAgree(core);
    if IsCore(s, core) {
      var l', r' :| s == l' + core + r' && AllSpace(l') && AllSpace(r');
      SpacesAgree(l');
      SpacesAgree(r');
      TrimPadded(l', core, r', SPACE, SPACE);
    }
  }

  /** The stripped items that are not blank, in order. */
  function Pieces(items: seq<string>): seq<string> {
    if items == [] then []
    else
      var n := |items| - 1;
      var item := Strip(items[n]);
      Pieces(items[..n]) + (if item == "" then [] else [item])
  }

  /** First occurrences only. */
  function Distinct(items: seq<string>): seq<string> {
    if items == [] then []
    else
      var n := |items| - 1;
      var before := Distinct(items[..n]);
      if items[n] in before then before else before + [items[n]]
  }

  function Cleaned(items: seq<string>): seq<string> {
    Distinct(Pieces(items))
  }

  function ParseList(s: string): seq<string> {
    Cleaned(Split(s, ','))
  }

  lemma CleanedSnoc(items: seq<string>, item: string)
    ensures Cleaned(items + [item]) ==
            if Strip(item) == "" || Strip(item) in Cleaned(items) then Cleaned(items)
            else Cleaned(items) + [Strip(item)]
  {
    assert (items + [item])[..|items|] == items;
    if Strip(item) != "" {
      var p := Pieces(items);
      assert (p + [Strip(item)])[..|p|] == p;
    } else {
      assert Pieces(items) + [] == Pieces(items);
    }
  }

  lemma CleanedNext(items: seq<string>, i: nat)
    requires i < |items|
    ensures Cleaned(items[..i + 1]) ==
            if Strip(items[i]) == "" || Strip(items[i]) in Cleaned(items[..i]) then Cleaned(items[..i])
            else Cleaned(items[..i]) + [Strip(items[i])]
  {
    CleanedSnoc(items[..i], items[i]);
    assert items[..i + 1] == items[..i] + [items[i]];
  }

  // ---------- the two loops ----------

  method StringToList(s: string) returns (list: seq<string>)
    ensures list == ParseList(s)
  {
    list := [];
    var parts := Split(s, ',');
    for i := 0 to |parts|
      invariant list == Cleaned(parts[..i])
    {
      var item := Strip(parts[i]);
      CleanedNext(parts, i);
      if item !in list && item != "" {
        list := list + [item];
      }
    }
    assert parts[..|parts|] == parts;
  }

  method CopyList(items: seq<string>) returns (copy: seq<string>)
    ensures copy == Cleaned(items)
  {
    copy := [];
    for i := 0 to |items|
      invariant copy == Cleaned(items[..i])
    {
      var item := Strip(items[i]);
      CleanedNext(items, i);
      if item !in copy && item != "" {
        copy := copy + [item];
      }
    }
    assert items[..|items|] == items;
  }

  // ---------- what they return ----------

  /** Where the first item that strips to x stands, or |items| when there is none. */
  ghost function FirstIndex(items: seq<string>, x: string): (k: nat)
    ensures k <= |items|
    ensures k < |items| ==> Strip(items[k]) == x
    ensures forall m :: 0 <= m < k ==> Strip(items[m]) != x
  {
    if items == [] then 0
    else
      var n := |items| - 1;
      var before := FirstIndex(items[..n], x);
      if before < n then before else if Strip(items[n]) == x then n else n + 1
  }

  ghost predicate TidyList(list: seq<string>) {
    && NoDuplicates(list)
    && forall k :: 0 <= k < |list| ==> list[k] != "" && Trimmed(list[k], SPACE, SPACE)
  }

  /** The results of `string_to_list`: see ListNormalForm. */
  ghost predicate CleanList(list: seq<string>) {
    TidyList(list) && AllFree(list, ',')
  }

  /** The list holds exactly the stripped non-blank items, once each, by order of first appearance. */
  ghost predicate Represents(items: seq<string>, list: seq<string>) {
    && TidyList(list)
    && (forall x :: x in list <==> x != "" && FirstIndex(items, x) < |items|)
    && (forall i, j :: 0 <= i < j < |list| ==> FirstIndex(items, list[i]) < FirstIndex(items, list[j]))
  }

  lemma FirstIndexSnoc(items: seq<string>, item: string, x: string)
    ensures FirstIndex(items + [item], x) ==
            if FirstIndex(items, x) < |items| then FirstIndex(items, x)
            else if Strip(item) == x then |items| else |items| + 1
  {
    assert (items + [item])[..|items|] == items;
  }

  lemma RepresentsSkip(items: seq<string>, list: seq<string>, item: string)
    requires Represents(items, list)
    requires Strip(item) == "" || Strip(item) in list
    ensures Represents(items + [item], list)
  {
    forall x ensures x in list <==> x != "" && FirstIndex(items + [item], x) < |items| + 1 {
      FirstIndexSnoc(items, item, x);
    }
    forall i, j | 0 <= i < j < |list|
      ensures FirstIndex(items + [item], list[i]) < FirstIndex(items + [item], list[j])
    {
      FirstIndexSnoc(items, item, list[i]);
      FirstIndexSnoc(items, item, list[j]);
    }
  }

  lemma MembersAdd(items: seq<string>, list: seq<string>, item: string)
    requires forall x :: x in list <==> x != "" && FirstIndex(items, x) < |items|
    requires Strip(item) != ""
    ensures forall x :: x in list + [Strip(item)] <==> x != "" && FirstIndex(items + [item], x) < |items| + 1
  {
    forall x ensures x in list + [Strip(item)] <==> x != "" && FirstIndex(items + [item], x) < |items| + 1 {
      FirstIndexSnoc(items, item, x);
    }
  }

  lemma FirstIndexKept(items: seq<string>, list: seq<string>, item: string, i: nat)
    requires Represents(items, list) && i < |list|
    ensures FirstIndex(items + [item], list[i]) == FirstIndex(items, list[i]) < |items|
  {
    assert list[i] in list;
    FirstIndexSnoc(items, item, list[i]);
  }

  lemma OrderAdd(items: seq<string>, list: seq<string>, item: string, i: nat, j: nat)
    requires Represents(items, list) && Strip(item) != "" && Strip(item) !in list
    requires i < j <= |list|
    ensures var longer := list + [Strip(item)];
      FirstIndex(items + [item], longer[i]) < FirstIndex(items + [item], longer[j])
  {
    FirstIndexKept(items, list, item, i);
    if j < |list| {
      FirstIndexKept(items, list, item, j);
    } else {
      FirstIndexSnoc(items, item, Strip(item));
    }
  }

  lemma RepresentsAdd(items: seq<string>, list: seq<string>, item: string)
    requires Represents(items, list)
    requires Strip(item) != "" && Strip(item) !in list
    ensures Represents(items + [item], list + [Strip(item)])
  {
    var l, r := TrimDecomposes(item, SPACE, SPACE);
    MembersAdd(items, list, item);
    var longer := list + [Strip(item)];
    forall i, j | 0 <= i < j < |longer|
      ensures FirstIndex(items + [item], longer[i]) < FirstIndex(items + [item], longer[j])
    {
      OrderAdd(items, list, item, i, j);
    }
  }

  /** Lists with the same members in the order of one and the same key are equal. */
  lemma {:induction false} IncreasingUnique(key: string -> nat, a: seq<string>, b: seq<string>)
    requires forall i, j :: 0 <= i < j < |a| ==> key(a[i]) < key(a[j])
    requires forall i, j :: 0 <= i < j < |b| ==> key(b[i]) < key(b[j])
    requires forall x :: x in a <==> x in b
    ensures a == b
  {
    assert b != [] ==> b[0] in b;
    if a == [] {
    } else {
      assert a[0] in a && a[0] in b;
      assert b[0] in b && b[0] in a;
      assert a[0] == b[0];
      forall x ensures x in a[1..] <==> x in b[1..] {
        assert x in a[1..] ==> x in a && x != a[0];
        assert x in b[1..] ==> x in b && x != b[0];
      }
      IncreasingUnique(key, a[1..], b[1..]);
      assert a == [a[0]] + a[1..] && b == [b[0]] + b[1..];
    }
  }

  /** That description leaves no choice. */
  lemma RepresentsUnique(items: seq<string>, a: seq<string>, b: seq<string>)
    requires Represents(items, a) && Represents(items, b)
    ensures a == b
  {
    IncreasingUnique(x => FirstIndex(items, x), a, b);
  }

  lemma {:induction false} CleanedMeaning(items: seq<string>)
    ensures Represents(items, Cleaned(items))
  {
    if items == [] {
    } else {
      var n := |items| - 1;
      var before := items[..n];
      CleanedMeaning(before);
      assert items == before + [items[n]];
      CleanedSnoc(before, items[n]);
      if Strip(items[n]) == "" || Strip(items[n]) in Cleaned(before) {
        RepresentsSkip(before, Cleaned(before), items[n]);
      } else {
        RepresentsAdd(before, Cleaned(before), items[n]);
      }
    }
  }

  lemma TidyPrefix(list: seq<string>, k: nat)
    requires TidyList(list) && k <= |list|
    ensures TidyList(list[..k])
    ensures k < |list| ==> list[k] !in list[..k]
  {
  }

  /** `copy_list` leaves a tidy list alone. */
  lemma {:induction false} CleanedIdentity(list: seq<string>)
    requires TidyList(list)
    ensures Cleaned(list) == list
  {
    if list == [] {
    } else {
      var n := |list| - 1;
      var before := list[..n];
      assert list == before + [list[n]];
      TidyPrefix(list, n);
      CleanedIdentity(before);
      TrimTrimmed(list[n], SPACE, SPACE);
      CleanedSnoc(before, list[n]);
    }
  }

  lemma ParsedIsClean(s: string)
    ensures CleanList(ParseList(s))
  {
    var parts := Split(s, ',');
    CleanedMeaning(parts);
    SplitPiecesFree(s, ',');
    var list := Cleaned(parts);
    forall i | 0 <= i < |list| ensures ',' !in list[i] {
      assert list[i] in list;
      var k := FirstIndex(parts, list[i]);
      var l, r := TrimDecomposes(parts[k], SPACE, SPACE);
      assert forall c :: c in list[i] ==> c in l + list[i] + r;
    }
  }

  lemma Reparse(list: seq<string>)
    requires CleanList(list)
    ensures ParseList(Join(list, ",")) == list
  {
    if list == [] {
      assert Split("", ',') == [""];
      assert Pieces([""]) == Pieces([""][..0]) + [];
    } else {
      SplitJoin(list, ',');
      CleanedIdentity(list);
    }
  }

  /** A list is a possible result of `string_to_list` exactly when it is clean; re-joining such a
      list with commas and parsing again gives it back, and `copy_list` does not change it. */
  lemma ListNormalForm(list: seq<string>)
    ensures CleanList(list) <==> exists s :: ParseList(s) == list
    ensures CleanList(list) ==> ParseList(Join(list, ",")) == list && Cleaned(list) == list
  {
    if CleanList(list) {
      Reparse(list);
      CleanedIdentity(list);
    }
    if s :| ParseList(s) == list {
      ParsedIsClean(s);
    }
  }

  // ---------- lists as texts ----------

  /** Piece k of the comma list is x with blanks around it. */
  ghost predicate ItemAt(text: string, k: int, x: string) {
    0 <= k < |Split(text, ',')| && x != "" && IsCore(Split(text, ',')[k], x)
  }

  ghost predicate Lists(text: string, x: string) {
    exists k :: ItemAt(text, k, x)
  }

  /** The text lists both, and x for the first time before y. */
  ghost predicate ListsBefore(text: string, x: string, y: string) {
    Lists(text, y) && exists k :: ItemAt(text, k, x) && forall m :: ItemAt(text, m, y) ==> k < m
  }

  lemma ItemsOfText(text: string, x: string)
    ensures Lists(text, x) <==> x in ParseList(text)
    ensures var k := FirstIndex(Split(text, ','), x);
      x in ParseList(text) ==> ItemAt(text, k, x) && forall m :: ItemAt(text, m, x) ==> k <= m
  {
    var parts := Split(text, ',');
    CleanedMeaning(parts);
    forall k | 0 <= k < |parts| && x != "" ensures ItemAt(text, k, x) <==> Strip(parts[k]) == x {
      StripMeaning(parts[k], x);
    }
  }

  /** Parsing a comma list yields the items that its text lists, once each, by first appearance. */
  lemma ParsedMeaning(text: string, x: string, y: string)
    ensures NoDuplicates(ParseList(text))
    ensures x in ParseList(text) <==> Lists(text, x)
    ensures Before(ParseList(text), x, y) <==> ListsBefore(text, x, y)
  {
    var list, parts := ParseList(text), Split(text, ',');
    CleanedMeaning(parts);
    ItemsOfText(text, x);
    ItemsOfText(text, y);
    if x in list && y in list {
      var i :| 0 <= i < |list| && list[i] == x;
      var j :| 0 <= j < |list| && list[j] == y;
      assert Before(list, x, y) <==> i < j;
      assert i < j <==> FirstIndex(parts, x) < FirstIndex(parts, y);
    }
  }

  // ---------- run lists ----------

  function Wrapped(list: seq<string>): (w: seq<string>)
    ensures |w| == |list|
    ensures forall k :: 0 <= k < |list| ==> w[k] == "role[" + list[k] + "]"
  {
    seq(|list|, k requires 0 <= k < |list| => "role[" + list[k] + "]")
  }

  /** The run list `role[a],role[b],…`. */
  function RunList(list: seq<string>): string {
    Join(Wrapped(list), ",")
  }

  /** `strip(',')` after the accumulation removes the one comma it left behind and nothing else. */
  method ListToString(list: seq<string>) returns (r: string)
    ensures r == RunList(list)
  {
    var s := "";
    for i := 0 to |list|
      invariant i == 0 ==> s == ""
      invariant i > 0 ==> s == RunList(list[..i]) + ","
    {
      JoinSnoc(Wrapped(list[..i]), "role[" + list[i] + "]", ",");
      assert Wrapped(list[..i + 1]) == Wrapped(list[..i]) + ["role[" + list[i] + "]"];
      s := s + "role[" + list[i] + "],";
      assert s == RunList(list[..i + 1]) + ",";
    }
    assert list[..|list|] == list;
    if list != [] {
      RunListEnds(list);
      TrimPadded("", RunList(list), ",", {','}, {','});
      assert s == "" + RunList(list) + ",";
    } else {
      assert RunList(list) == "";
    }
    r := Trim(s, {','}, {','});
  }

  lemma {:induction false} RunListEnds(list: seq<string>)
    requires list != []
    ensures RunList(list) != "" && RunList(list)[0] == 'r' && RunList(list)[|RunList(list)| - 1] == ']'
  {
    var w := Wrapped(list);
    if |list| == 1 {
    } else {
      RunListEnds(list[1..]);
      assert Wrapped(list[1..]) == w[1..];
    }
  }

  /** Parsing a compiled run list gives back one `role[r]` per role, in order. */
  lemma RunListRoundTrip(list: seq<string>)
    requires CleanList(list)
    ensures ParseList(RunList(list)) == Wrapped(list)
  {
    var w := Wrapped(list);
    forall k | 0 <= k < |w| ensures w[k] != "" && Trimmed(w[k], SPACE, SPACE) && ',' !in w[k] {
      assert w[k][0] == 'r' && w[k][|w[k]| - 1] == ']';
    }
    forall i, j | 0 <= i < j < |w| ensures w[i] != w[j] {
      WrapInjective(list[i], list[j]);
    }
    Reparse(w);
  }

  lemma WrapInjective(a: string, b: string)
    ensures "role[" + a + "]" == "role[" + b + "]" ==> a == b
  {
    var u, v := "role[" + a + "]", "role[" + b + "]";
    assert a == u[5..|u| - 1] && b == v[5..|v| - 1];
  }

  /** Distinct role lists compile to distinct run lists. */
  lemma RunListInjective(a: seq<string>, b: seq<string>)
    requires CleanList(a) && CleanList(b)
    requires RunList(a) == RunList(b)
    ensures a == b
  {
    RunListRoundTrip(a);
    RunListRoundTrip(b);
    forall k | 0 <= k < |a| ensures a[k] == b[k] {
      assert Wrapped(a)[k] == Wrapped(b)[k];
      WrapInjective(a[k], b[k]);
    }
  }
}
