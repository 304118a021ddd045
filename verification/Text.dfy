/** String primitives that the Python and Ruby sources take from their standard libraries:
    splitting on one character, joining, and stripping a set of characters. */
module Text {

  /** No two positions hold the same item. */
  ghost predicate NoDuplicates<T>(list: seq<T>) {
    forall i, j :: 0 <= i < j < |list| ==> list[i] != list[j]
  }

  /** x stands somewhere before y. */
  ghost predicate Before<R>(list: seq<R>, x: R, y: R) {
    exists i, j :: 0 <= i < j < |list| && list[i] == x && list[j] == y
  }

  lemma BeforeSnoc<R>(list: seq<R>, z: R, x: R, y: R)
    ensures Before(list + [z], x, y) <==> Before(list, x, y) || (x in list && y == z)
  {
    var longer := list + [z];
    if Before(longer, x, y) {
      var i, j :| 0 <= i < j < |longer| && longer[i] == x && longer[j] == y;
      assert list[i] == x;
      assert j < |list| ==> list[j] == y;
    }
    if Before(list, x, y) {
      var i, j :| 0 <= i < j < |list| && list[i] == x && list[j] == y;
      assert longer[i] == x && longer[j] == y;
    }
    if x in list && y == z {
      var i :| 0 <= i < |list| && list[i] == x;
      assert longer[i] == x && longer[|list|] == y;
    }
  }

  // ---------- stripping ----------

  ghost predicate Only(s: string, cs: set<char>) {
    forall k :: 0 <= k < |s| ==> s[k] in cs
  }

  function TrimLeft(s: string, cs: set<char>): string {
    if s != "" && s[0] in cs then TrimLeft(s[1..], cs) else s
  }

  function TrimRight(s: string, cs: set<char>): string {
    if s != "" && s[|s| - 1] in cs then TrimRight(s[..|s| - 1], cs) else s
  }

  /** Strips `left` characters from the front, then `right` characters from the back. */
  function Trim(s: string, left: set<char>, right: set<char>): string {
    TrimRight(TrimLeft(s, left), right)
  }

  predicate Trimmed(s: string, left: set<char>, right: set<char>) {
    s == "" || (s[0] !in left && s[|s| - 1] !in right)
  }

  lemma {:induction false} TrimLeftSkips(l: string, s: string, cs: set<char>)
    requires Only(l, cs)
    ensures TrimLeft(l + s, cs) == TrimLeft(s, cs)
  {
    if l == "" {
      assert l + s == s;
    } else {
      assert (l + s)[1..] == l[1..] + s;
      TrimLeftSkips(l[1..], s, cs);
    }
  }

  lemma {:induction false} TrimRightSkips(s: string, r: string, cs: set<char>)
    requires Only(r, cs)
    ensures TrimRight(s + r, cs) == TrimRight(s, cs)
  {
    if r == "" {
      assert s + r == s;
    } else {
      assert (s + r)[..|s + r| - 1] == s + r[..|r| - 1];
      TrimRightSkips(s, r[..|r| - 1], cs);
    }
  }

  /** Stripping undoes padding: whatever blanks surround a trimmed core, the core comes back. */
  lemma TrimPadded(l: string, core: string, r: string, left: set<char>, right: set<char>)
    requires Only(l, left) && Only(r, right) && left <= right
    requires Trimmed(core, left, right)
    ensures Trim(l + core + r, left, right) == core
  {
    assert l + core + r == l + (core + r);
    TrimLeftSkips(l, core + r, left);
    if core == "" {
      assert core + r == r == r + "";
      var rest := TrimLeft(r, left);
      TrimLeftSuffix(r, left);
      assert Only(rest, right);
      assert "" + rest == rest;
      TrimRightSkips("", rest, right);
    } else {
      TrimRightSkips(core, r, right);
    }
  }

  lemma {:induction false} TrimLeftSuffix(s: string, cs: set<char>)
    ensures var r := TrimLeft(s, cs);
            |r| <= |s| && r == s[|s| - |r|..] && Only(s[..|s| - |r|], cs)
            && (r != "" ==> r[0] !in cs)
  {
    if s == "" || s[0] !in cs {
    } else {
      TrimLeftSuffix(s[1..], cs);
      var r := TrimLeft(s[1..], cs);
      assert s[1..][|s| - 1 - |r|..] == s[|s| - |r|..];
      assert s[..|s| - |r|] == [s[0]] + s[1..][..|s| - 1 - |r|];
    }
  }

  lemma {:induction false} TrimRightPrefix(s: string, cs: set<char>)
    ensures var r := TrimRight(s, cs);
            |r| <= |s| && r == s[..|r|] && Only(s[|r|..], cs)
            && (r != "" ==> r[|r| - 1] !in cs)
  {
    if s == "" || s[|s| - 1] !in cs {
    } else {
      var n := |s| - 1;
      TrimRightPrefix(s[..n], cs);
      var r := TrimRight(s[..n], cs);
      assert s[..n][..|r|] == s[..|r|];
      assert s[|r|..] == s[..n][|r|..] + [s[n]];
    }
  }

  /** Stripping removes nothing but strippable characters at the two ends, and all of those. */
  lemma TrimDecomposes(s: string, left: set<char>, right: set<char>) returns (l: string, r: string)
    ensures s == l + Trim(s, left, right) + r
    ensures Only(l, left) && Only(r, right)
    ensures Trimmed(Trim(s, left, right), left, right)
  {
    var m := TrimLeft(s, left);
    var core := TrimRight(m, right);
    TrimLeftSuffix(s, left);
    TrimRightPrefix(m, right);
    assert core != "" ==> core[0] == m[0];
    l, r := s[..|s| - |m|], m[|core|..];
    ThreeParts(s, m, core);
  }

  lemma ThreeParts(s: string, m: string, core: string)
    requires |core| <= |m| <= |s|
    requires m == s[|s| - |m|..] && core == m[..|core|]
    ensures s == s[..|s| - |m|] + core + m[|core|..]
  {
    assert s == s[..|s| - |m|] + m;
    assert m == core + m[|core|..];
  }

  lemma TrimTrimmed(s: string, left: set<char>, right: set<char>)
    requires Trimmed(s, left, right)
    ensures Trim(s, left, right) == s
  {
  }

  // ---------- splitting and joining ----------

  /** The first newline at or after k, or the end of the text. */
  function LineEnd(s: string, k: nat): (e: nat)
    requires k <= |s|
    ensures k <= e <= |s|
    ensures forall m :: k <= m < e ==> s[m] != '\n'
    ensures e < |s| ==> s[e] == '\n'
    decreases |s| - k
  {
    if k == |s| || s[k] == '\n' then k else LineEnd(s, k + 1)
  }

  /** All pieces between separators, empty ones included: Python's `split`. */
  function Split(s: string, sep: char): (parts: seq<string>)
    ensures |parts| >= 1
  {
    if s == "" then [""]
    else
      var rest := Split(s[1..], sep);
      if s[0] == sep then [""] + rest
      else [[s[0]] + rest[0]] + rest[1..]
  }

  function Join(parts: seq<string>, sep: string): string {
    if parts == [] then ""
    else if |parts| == 1 then parts[0]
    else parts[0] + sep + Join(parts[1..], sep)
  }

  ghost predicate AllFree(parts: seq<string>, c: char) {
    forall k :: 0 <= k < |parts| ==> c !in parts[k]
  }

  lemma {:induction false} SplitFree(s: string, sep: char)
    requires sep !in s
    ensures Split(s, sep) == [s]
  {
    if s == "" {
    } else {
      SplitFree(s[1..], sep);
      assert [s[0]] + s[1..] == s;
    }
  }

  function Prepend(x: char, parts: seq<string>, sep: char): (r: seq<string>)
    requires |parts| >= 1
  {
    if x == sep then [""] + parts else [[x] + parts[0]] + parts[1..]
  }

  lemma SplitCons(x: char, s: string, sep: char)
    ensures Split([x] + s, sep) == Prepend(x, Split(s, sep), sep)
  {
    assert ([x] + s)[1..] == s;
  }

  lemma PrependConcat(x: char, a: seq<string>, b: seq<string>, sep: char)
    requires |a| >= 1
    ensures Prepend(x, a + b, sep) == Prepend(x, a, sep) + b
  {
    assert (a + b)[1..] == a[1..] + b;
  }

  lemma {:induction false} SplitConcat(a: string, b: string, sep: char)
    ensures Split(a + [sep] + b, sep) == Split(a, sep) + Split(b, sep)
  {
    if a == "" {
      assert a + [sep] + b == [sep] + b;
      SplitCons(sep, b, sep);
    } else {
      var x, tail := a[0], a[1..];
      assert a == [x] + tail;
      assert a + [sep] + b == [x] + (tail + [sep] + b);
      SplitConcat(tail, b, sep);
      SplitCons(x, tail + [sep] + b, sep);
      SplitCons(x, tail, sep);
      PrependConcat(x, Split(tail, sep), Split(b, sep), sep);
    }
  }

  lemma {:induction false} SplitPiecesFree(s: string, sep: char)
    ensures AllFree(Split(s, sep), sep)
  {
    if s == "" {
    } else {
      SplitPiecesFree(s[1..], sep);
    }
  }

  /** Splitting recovers exactly the joined pieces, precisely when no piece holds the separator. */
  lemma {:induction false} SplitJoin(parts: seq<string>, sep: char)
    requires parts != []
    ensures Split(Join(parts, [sep]), sep) == parts <==> AllFree(parts, sep)
  {
    SplitPiecesFree(Join(parts, [sep]), sep);
    if AllFree(parts, sep) {
      SplitFree(parts[0], sep);
      if |parts| == 1 {
      } else {
        assert AllFree(parts[1..], sep);
        SplitJoin(parts[1..], sep);
        SplitConcat(parts[0], Join(parts[1..], [sep]), sep);
        assert parts == [parts[0]] + parts[1..];
      }
    }
  }

  lemma {:induction false} JoinConcat(a: seq<string>, b: seq<string>, sep: string)
    requires a != [] && b != []
    ensures Join(a + b, sep) == Join(a, sep) + sep + Join(b, sep)
  {
    if |a| == 1 {
      assert (a + b)[1..] == b;
    } else {
      assert (a + b)[1..] == a[1..] + b;
      JoinConcat(a[1..], b, sep);
      var ta, tb := Join(a[1..], sep), Join(b, sep);
      assert a[0] + sep + (ta + sep + tb) == (a[0] + sep + ta) + sep + tb;
    }
  }

  lemma JoinSnoc(parts: seq<string>, last: string, sep: string)
    ensures Join(parts + [last], sep) == if parts == [] then last else Join(parts, sep) + sep + last
  {
    if parts != [] {
      JoinConcat(parts, [last], sep);
    } else {
      assert parts + [last] == [last];
    }
  }
}
