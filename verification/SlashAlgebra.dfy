/** Strings with slashes at their ends: what stripping, joining and re-adding slashes do to them. */
module SlashAlgebra {
  import opened Text

  const SLASH: set<char> := {'/'}

  predicate StartsWithSlash(s: string) {
    s != "" && s[0] == '/'
  }

  predicate EndsWithSlash(s: string) {
    s != "" && s[|s| - 1] == '/'
  }

  function SlashIf(b: bool): string {
    if b then "/" else ""
  }

  // ---------- ends of a join ----------

  lemma {:induction false} JoinEnds(parts: seq<string>)
    requires parts != []
    ensures parts[0] != "" ==> Join(parts, "/") != "" && Join(parts, "/")[0] == parts[0][0]
    ensures parts[0] == "" && |parts| > 1 ==> Join(parts, "/") != "" && Join(parts, "/")[0] == '/'
    ensures var last := parts[|parts| - 1]; var j := Join(parts, "/");
      && (last != "" ==> j != "" && j[|j| - 1] == last[|last| - 1])
      && (last == "" && |parts| > 1 ==> j != "" && j[|j| - 1] == '/')
  {
    if |parts| <= 1 {
    } else {
      JoinEnds(parts[1..]);
    }
  }

  lemma JoinNested(a: seq<string>, g: seq<string>, b: seq<string>, sep: string)
    requires g != []
    ensures Join(a + [Join(g, sep)] + b, sep) == Join(a + g + b, sep)
  {
    var one := [Join(g, sep)];
    if a != [] {
      JoinConcat(a, one, sep);
      JoinConcat(a, g, sep);
    } else {
      assert a + one == one && a + g == g;
    }
    if b != [] {
      JoinConcat(a + one, b, sep);
      JoinConcat(a + g, b, sep);
    } else {
      assert a + one + b == a + one && a + g + b == a + g;
    }
  }

  // ---------- double slashes ----------

  ghost predicate HasDouble(s: string) {
    exists k :: 0 < k < |s| && s[k - 1] == '/' && s[k] == '/'
  }

  lemma DoubleConcat(a: string, b: string)
    ensures HasDouble(a + b) <==> HasDouble(a) || HasDouble(b) || (EndsWithSlash(a) && StartsWithSlash(b))
  {
    var s := a + b;
    if HasDouble(s) {
      var k :| 0 < k < |s| && s[k - 1] == '/' && s[k] == '/';
      if k < |a| {
        assert a[k - 1] == '/' && a[k] == '/';
      } else if k > |a| {
        assert b[k - |a| - 1] == '/' && b[k - |a|] == '/';
      }
    }
    if HasDouble(a) {
      var k :| 0 < k < |a| && a[k - 1] == '/' && a[k] == '/';
      assert s[k - 1] == '/' && s[k] == '/';
    }
    if HasDouble(b) {
      var k :| 0 < k < |b| && b[k - 1] == '/' && b[k] == '/';
      assert s[|a| + k - 1] == '/' && s[|a| + k] == '/';
    }
    if EndsWithSlash(a) && StartsWithSlash(b) {
      assert s[|a| - 1] == '/' && s[|a|] == '/';
    }
  }

  lemma {:induction false} DoubleInJoin(parts: seq<string>)
    requires parts != []
    requires forall k :: 0 <= k < |parts| ==> parts[k] != "" && Trimmed(parts[k], SLASH, SLASH)
    ensures HasDouble(Join(parts, "/")) <==> exists k :: 0 <= k < |parts| && HasDouble(parts[k])
    ensures !StartsWithSlash(Join(parts, "/")) && !EndsWithSlash(Join(parts, "/"))
  {
    JoinEnds(parts);
    if |parts| <= 1 {
    } else {
      var tail := parts[1..];
      DoubleInJoin(tail);
      DoubleConcat(parts[0] + "/", Join(tail, "/"));
      DoubleConcat(parts[0], "/");
      assert Join(parts, "/") == parts[0] + "/" + Join(tail, "/");
      if k :| 0 <= k < |parts| && HasDouble(parts[k]) {
        assert k > 0 ==> HasDouble(tail[k - 1]);
      }
      if k :| 0 <= k < |tail| && HasDouble(tail[k]) {
        assert HasDouble(parts[k + 1]);
      }
    }
  }

  lemma OuterSlashes(lead: bool, j: string, trail: bool)
    requires j != "" && !StartsWithSlash(j) && !EndsWithSlash(j)
    ensures var w := SlashIf(lead) + j + SlashIf(trail);
      StartsWithSlash(w) == lead && EndsWithSlash(w) == trail && (HasDouble(w) <==> HasDouble(j))
  {
    DoubleConcat(SlashIf(lead), j);
    DoubleConcat(SlashIf(lead) + j, SlashIf(trail));
  }

  predicate StartsDouble(s: string) {
    |s| >= 2 && s[0] == '/' && s[1] == '/'
  }

  predicate EndsDouble(s: string) {
    |s| >= 2 && s[|s| - 1] == '/' && s[|s| - 2] == '/'
  }

  function Bare(s: string): string {
    Trim(s, SLASH, SLASH)
  }

  lemma BareTrimmed(s: string)
    ensures Trimmed(Bare(s), SLASH, SLASH)
    ensures Bare(s) == "" <==> Only(s, SLASH)
  {
    var l, r := TrimDecomposes(s, SLASH, SLASH);
    OnlyParts(l, Bare(s), r);
  }

  lemma OnlyParts(a: string, b: string, c: string)
    ensures Only(a + b + c, SLASH) <==> Only(a, SLASH) && Only(b, SLASH) && Only(c, SLASH)
  {
    var w := a + b + c;
    assert forall k :: 0 <= k < |a| ==> w[k] == a[k];
    assert forall k :: 0 <= k < |b| ==> w[|a| + k] == b[k];
    assert forall k :: 0 <= k < |c| ==> w[|a| + |b| + k] == c[k];
  }

  /** What a second join makes of a text at the front of the arguments, whose trailing slash is lost. */
  lemma FrontNormal(y: string, trail: bool)
    requires y != ""
    ensures var w := y + SlashIf(trail);
      SlashIf(StartsWithSlash(w)) + Bare(w) == y <==> y == "/" || (!EndsWithSlash(y) && !StartsDouble(y))
  {
    var w := y + SlashIf(trail);
    BareTrimmed(w);
    if y == "/" {
      assert Only(w, SLASH);
    } else if Bare(w) != "" {
      NormalHasNoDouble(StartsWithSlash(w), Bare(w), false);
      assert SlashIf(StartsWithSlash(w)) + Bare(w) + "" == SlashIf(StartsWithSlash(w)) + Bare(w);
    }
    if !EndsWithSlash(y) && !StartsDouble(y) {
      FrontStays(y, trail);
    }
  }

  lemma FrontStays(y: string, trail: bool)
    requires y != "" && !EndsWithSlash(y) && !StartsDouble(y)
    ensures var w := y + SlashIf(trail); SlashIf(StartsWithSlash(w)) + Bare(w) == y
  {
    var lead := SlashIf(StartsWithSlash(y));
    var core := y[|lead|..];
    assert y == lead + core;
    TrimPadded(lead, core, SlashIf(trail), SLASH, SLASH);
  }

  lemma BackNormal(lead: bool, z: string)
    requires z != ""
    ensures var w := SlashIf(lead) + z;
      Bare(w) + SlashIf(EndsWithSlash(w)) == z <==> z == "/" || (!StartsWithSlash(z) && !EndsDouble(z))
  {
    var w := SlashIf(lead) + z;
    var x := Bare(w) + SlashIf(EndsWithSlash(w));
    BareTrimmed(w);
    if z == "/" {
      assert Only(w, SLASH);
    } else if !StartsWithSlash(z) && !EndsDouble(z) {
      var n := |z| - 1;
      if z[n] == '/' {
        assert z == z[..n] + "/";
        assert w == SlashIf(lead) + z[..n] + "/";
        TrimPadded(SlashIf(lead), z[..n], "/", SLASH, SLASH);
      } else {
        assert w == SlashIf(lead) + z + "";
        TrimPadded(SlashIf(lead), z, "", SLASH, SLASH);
      }
    }
    if Bare(w) != "" {
      assert x[0] == Bare(w)[0];
      assert x[|Bare(w)| - 1] == Bare(w)[|Bare(w)| - 1];
    }
  }

  lemma BothNormal(w: string)
    requires w != ""
    ensures SlashIf(StartsWithSlash(w)) + Bare(w) + SlashIf(EndsWithSlash(w)) == w
            <==> w == "//" || (Bare(w) != "" && !StartsDouble(w) && !EndsDouble(w))
  {
    var lead, trail := StartsWithSlash(w), EndsWithSlash(w);
    BareTrimmed(w);
    BareTrimmed("//");
    if Bare(w) == "" {
      assert w[0] in SLASH && w[|w| - 1] in SLASH;
      assert SlashIf(lead) + Bare(w) + SlashIf(trail) == "//";
    } else {
      NormalHasNoDouble(lead, Bare(w), trail);
      if !StartsDouble(w) && !EndsDouble(w) {
        InnerOfNormal(w);
      }
    }
  }

  lemma NormalHasNoDouble(lead: bool, core: string, trail: bool)
    requires core != "" && Trimmed(core, SLASH, SLASH)
    ensures var x := SlashIf(lead) + core + SlashIf(trail);
      !StartsDouble(x) && !EndsDouble(x) && EndsWithSlash(x) == trail && StartsWithSlash(x) == lead
  {
    var x, k := SlashIf(lead) + core + SlashIf(trail), |SlashIf(lead)|;
    assert x[k] == core[0] && x[k + |core| - 1] == core[|core| - 1];
  }

  lemma InnerOfNormal(w: string)
    requires w != "" && Bare(w) != "" && !StartsDouble(w) && !EndsDouble(w)
    ensures SlashIf(StartsWithSlash(w)) + Bare(w) + SlashIf(EndsWithSlash(w)) == w
  {
    BareTrimmed(w);
    assert |w| == 1 ==> !StartsWithSlash(w);
    var lead, trail := StartsWithSlash(w), EndsWithSlash(w);
    var l, r := SlashIf(lead), SlashIf(trail);
    assert |l| + |r| < |w|;
    var inner := w[|l|..|w| - |r|];
    assert inner[0] == w[|l|] != '/';
    assert inner[|inner| - 1] == w[|w| - |r| - 1] != '/';
    PaddedInner(lead, inner, trail);
    assert w == l + inner + r;
  }

  lemma PaddedInner(lead: bool, inner: string, trail: bool)
    requires Trimmed(inner, SLASH, SLASH)
    ensures Bare(SlashIf(lead) + inner + SlashIf(trail)) == inner
  {
    TrimPadded(SlashIf(lead), inner, SlashIf(trail), SLASH, SLASH);
  }

  // ---------- the join of trimmed parts ----------

  ghost predicate AllTrimmed(parts: seq<string>) {
    forall k :: 0 <= k < |parts| ==> Trimmed(parts[k], SLASH, SLASH)
  }

  lemma JoinFront(parts: seq<string>)
    requires |parts| >= 2 && AllTrimmed(parts)
    ensures var j := Join(parts, "/");
      && j != "" && (StartsWithSlash(j) <==> parts[0] == "")
      && (StartsDouble(j) <==> parts[0] == "" && parts[1] == "" && |parts| > 2)
      && (j == "/" <==> |parts| == 2 && parts[0] == "" && parts[1] == "")
  {
    var tail := Join(parts[1..], "/");
    JoinEnds(parts);
    JoinEnds(parts[1..]);
    assert Join(parts, "/") == parts[0] + "/" + tail;
    if parts[0] != "" && |parts[0]| >= 2 {
      assert Join(parts, "/")[0] == parts[0][0];
    }
  }

  lemma EndOfJoin(parts: seq<string>)
    requires parts != [] && AllTrimmed(parts)
    ensures EndsWithSlash(Join(parts, "/")) <==> parts[|parts| - 1] == "" && |parts| > 1
  {
    JoinEnds(parts);
  }

  lemma JoinBack(parts: seq<string>)
    requires |parts| >= 2 && AllTrimmed(parts)
    ensures var j, n := Join(parts, "/"), |parts|;
      && (EndsWithSlash(j) <==> parts[n - 1] == "")
      && (EndsDouble(j) <==> parts[n - 1] == "" && parts[n - 2] == "" && n > 2)
  {
    var init, last := parts[..|parts| - 1], parts[|parts| - 1];
    assert parts == init + [last];
    SnocBack(init, last);
  }

  lemma SnocBack(init: seq<string>, last: string)
    requires init != [] && AllTrimmed(init) && Trimmed(last, SLASH, SLASH)
    ensures var j := Join(init + [last], "/");
      && (EndsWithSlash(j) <==> last == "")
      && (EndsDouble(j) <==> last == "" && init[|init| - 1] == "" && |init| > 1)
  {
    EndOfJoin(init);
    JoinSnoc(init, last, "/");
    EndsBehind(Join(init, "/"), last);
  }

  lemma EndsBehind(head: string, last: string)
    requires Trimmed(last, SLASH, SLASH)
    ensures var j := head + "/" + last;
      (EndsWithSlash(j) <==> last == "") && (EndsDouble(j) <==> last == "" && EndsWithSlash(head))
  {
    var j := head + "/" + last;
    assert last != "" ==> j[|j| - 1] == last[|last| - 1];
    assert last == "" ==> j == head + "/";
  }

  /** A join consists of slashes only when all its parts are empty, and then it counts them. */
  lemma {:induction false} JoinOfNothing(parts: seq<string>)
    requires parts != [] && AllTrimmed(parts)
    ensures Only(Join(parts, "/"), SLASH) <==> forall k :: 0 <= k < |parts| ==> parts[k] == ""
    ensures (forall k :: 0 <= k < |parts| ==> parts[k] == "") ==> |Join(parts, "/")| == |parts| - 1
  {
    var j := Join(parts, "/");
    if parts[0] != "" {
      JoinEnds(parts);
      assert j[0] !in SLASH;
    } else if |parts| == 1 {
    } else {
      var tail := parts[1..];
      JoinOfNothing(tail);
      assert j == "/" + Join(tail, "/");
      assert Only(j, SLASH) <==> Only(Join(tail, "/"), SLASH) by {
        assert forall k :: 0 <= k < |Join(tail, "/")| ==> j[k + 1] == Join(tail, "/")[k];
        assert forall k :: 1 <= k < |j| ==> j[k] == Join(tail, "/")[k - 1];
      }
      assert forall k :: 1 <= k < |parts| ==> parts[k] == tail[k - 1];
    }
  }

  lemma BareLoses(lead: string, j: string, trail: string)
    requires Only(lead, SLASH) && Only(trail, SLASH)
    requires StartsWithSlash(j) || EndsWithSlash(j)
    ensures |Bare(lead + j + trail)| < |j|
  {
    var w := lead + j + trail;
    var core := Bare(w);
    var l, r := TrimDecomposes(w, SLASH, SLASH);
    assert forall k :: 0 <= k < |lead| ==> w[k] in SLASH;
    assert forall k :: |lead| + |j| <= k < |w| ==> w[k] in SLASH;
    if core != "" {
      var first, last := |l|, |l| + |core| - 1;
      assert w[first] == core[0] && w[last] == core[|core| - 1];
      assert w[|lead|] == j[0] && w[|lead| + |j| - 1] == j[|j| - 1];
    }
  }

  lemma SlashInFront(lead: bool, j: string)
    requires j != ""
    ensures var y := SlashIf(lead) + j;
      && y != "" && (y == "/" <==> !lead && j == "/") && EndsWithSlash(y) == EndsWithSlash(j)
      && (StartsDouble(y) <==> if lead then StartsWithSlash(j) else StartsDouble(j))
  {
  }

  lemma SlashBehind(j: string, trail: bool)
    requires j != ""
    ensures var z := j + SlashIf(trail);
      && z != "" && (z == "/" <==> !trail && j == "/") && StartsWithSlash(z) == StartsWithSlash(j)
      && (EndsDouble(z) <==> if trail then EndsWithSlash(j) else EndsDouble(j))
  {
  }

  lemma FrontOfParts(lead: bool, parts: seq<string>)
    requires |parts| >= 2 && AllTrimmed(parts)
    ensures var y := SlashIf(lead) + Join(parts, "/");
      && y != "" && (y == "/" <==> !lead && |parts| == 2 && parts[0] == "" && parts[1] == "")
      && (EndsWithSlash(y) <==> parts[|parts| - 1] == "")
      && (StartsDouble(y) <==> parts[0] == "" && (lead || (parts[1] == "" && |parts| > 2)))
  {
    JoinFront(parts);
    JoinBack(parts);
    SlashInFront(lead, Join(parts, "/"));
  }

  lemma BackOfParts(parts: seq<string>, trail: bool)
    requires |parts| >= 2 && AllTrimmed(parts)
    ensures var z, n := Join(parts, "/") + SlashIf(trail), |parts|;
      && z != "" && (z == "/" <==> !trail && n == 2 && parts[0] == "" && parts[1] == "")
      && (StartsWithSlash(z) <==> parts[0] == "")
      && (EndsDouble(z) <==> parts[n - 1] == "" && (trail || (parts[n - 2] == "" && n > 2)))
  {
    JoinFront(parts);
    JoinBack(parts);
    SlashBehind(Join(parts, "/"), trail);
  }

  lemma DoublesSeparate(lead: bool, j: string, trail: bool)
    requires |j| >= 2
    ensures StartsDouble(SlashIf(lead) + j + SlashIf(trail)) <==> StartsDouble(SlashIf(lead) + j)
    ensures EndsDouble(SlashIf(lead) + j + SlashIf(trail)) <==> EndsDouble(j + SlashIf(trail))
  {
  }

  lemma SameSuffix(x: string, y: string, s: string)
    ensures x + s == y + s <==> x == y
  {
    assert x == (x + s)[..|x + s| - |s|] && y == (y + s)[..|y + s| - |s|];
  }

  lemma SameFront(p: string, u: string, x: string, v: string, y: string)
    ensures p + u + x == p + v + y <==> u + x == v + y
  {
    assert p + u + x == p + (u + x) && p + v + y == p + (v + y);
    assert u + x == (p + u + x)[|p|..] && v + y == (p + v + y)[|p|..];
  }

  lemma Regroup(lead: string, x: string, sep: string, y: string, trail: string)
    ensures lead + (x + sep + y) + trail == lead + x + (sep + y + trail)
    ensures lead + (x + sep + y) + trail == (lead + x + sep) + y + trail
  {
  }

  // ---------- joining a join again ----------

  function Outer(lead: bool, parts: seq<string>, trail: bool): string {
    SlashIf(lead) + Join(parts, "/") + SlashIf(trail)
  }

  /** Stripping would take more than the leading slash off the front. */
  predicate CloggedFront(lead: bool, parts: seq<string>)
    requires |parts| >= 2
  {
    parts[0] == "" && (lead || (parts[1] == "" && |parts| > 2))
  }

  predicate CloggedBack(parts: seq<string>, trail: bool)
    requires |parts| >= 2
  {
    parts[|parts| - 1] == "" && (trail || (parts[|parts| - 2] == "" && |parts| > 2))
  }

  predicate LoneSlash(parts: seq<string>)
    requires |parts| >= 2
  {
    |parts| == 2 && parts[0] == "" && parts[1] == ""
  }

  /** Joining again keeps the front, or the back, as it is. */
  predicate FrontKept(lead: bool, parts: seq<string>)
    requires |parts| >= 2
  {
    (!lead && LoneSlash(parts)) || (parts[|parts| - 1] != "" && !CloggedFront(lead, parts))
  }

  predicate BackKept(parts: seq<string>, trail: bool)
    requires |parts| >= 2
  {
    (!trail && LoneSlash(parts)) || (parts[0] != "" && !CloggedBack(parts, trail))
  }

  lemma FrontIsNormal(lead: bool, parts: seq<string>, trail: bool)
    requires |parts| >= 2 && AllTrimmed(parts)
    ensures var w := Outer(lead, parts, trail);
      (SlashIf(StartsWithSlash(w)) + Bare(w) == SlashIf(lead) + Join(parts, "/")) == FrontKept(lead, parts)
  {
    FrontOfParts(lead, parts);
    FrontNormal(SlashIf(lead) + Join(parts, "/"), trail);
  }

  lemma BackIsNormal(lead: bool, parts: seq<string>, trail: bool)
    requires |parts| >= 2 && AllTrimmed(parts)
    ensures var w := Outer(lead, parts, trail);
      (Bare(w) + SlashIf(EndsWithSlash(w)) == Join(parts, "/") + SlashIf(trail)) == BackKept(parts, trail)
  {
    var z := Join(parts, "/") + SlashIf(trail);
    BackOfParts(parts, trail);
    BackNormal(lead, z);
    assert Outer(lead, parts, trail) == SlashIf(lead) + z;
  }

  ghost predicate AllEmpty(parts: seq<string>) {
    forall k :: 0 <= k < |parts| ==> parts[k] == ""
  }

  lemma OuterOfNothing(lead: bool, parts: seq<string>, trail: bool)
    requires |parts| >= 2 && AllTrimmed(parts)
    ensures var w := Outer(lead, parts, trail);
      && (Bare(w) == "" <==> AllEmpty(parts))
      && (w == "//" <==> AllEmpty(parts) && ((|parts| == 2 && lead != trail) || (|parts| == 3 && !lead && !trail)))
  {
    var w := Outer(lead, parts, trail);
    BareTrimmed(w);
    JoinOfNothing(parts);
    OnlyParts(SlashIf(lead), Join(parts, "/"), SlashIf(trail));
    OnlyOfTwo(w);
  }

  lemma OnlyOfTwo(w: string)
    ensures w == "//" <==> Only(w, SLASH) && |w| == 2
  {
  }

  lemma BothIsNormal(lead: bool, parts: seq<string>, trail: bool)
    requires |parts| >= 2 && AllTrimmed(parts)
    ensures var w := Outer(lead, parts, trail);
      SlashIf(StartsWithSlash(w)) + Bare(w) + SlashIf(EndsWithSlash(w)) == w <==>
      if AllEmpty(parts) then (|parts| == 2 && lead != trail) || (|parts| == 3 && !lead && !trail)
      else !CloggedFront(lead, parts) && !CloggedBack(parts, trail)
  {
    var w := Outer(lead, parts, trail);
    JoinFront(parts);
    OuterOfNothing(lead, parts, trail);
    BothNormal(w);
    if !AllEmpty(parts) {
      DoublesOfOuter(lead, parts, trail);
    }
  }

  lemma DoublesOfOuter(lead: bool, parts: seq<string>, trail: bool)
    requires |parts| >= 2 && AllTrimmed(parts) && !AllEmpty(parts)
    ensures StartsDouble(Outer(lead, parts, trail)) <==> CloggedFront(lead, parts)
    ensures EndsDouble(Outer(lead, parts, trail)) <==> CloggedBack(parts, trail)
  {
    FrontOfParts(lead, parts);
    BackOfParts(parts, trail);
    JoinFront(parts);
    JoinOfNothing(parts);
    DoublesSeparate(lead, Join(parts, "/"), trail);
  }
}
