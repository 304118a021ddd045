/** Openstack#prettytable_to_array: PrettyTable text to an array of hashes. */
module PrettyTable {
  import opened Wrappers
  import opened Text

  /** What Ruby's `strip` removes in front; behind, it removes NUL as well. */
  const BLANKS: set<char> := {' ', '\t', '\n', '\U{0B}', '\U{0C}', '\r'}
  const BLANKS_AND_NUL: set<char> := {' ', '\t', '\n', '\U{0B}', '\U{0C}', '\r', '\0'}

  function Strip(s: string): string {
    Trim(s, BLANKS, BLANKS_AND_NUL)
  }

  /** A Ruby hash with nil among its possible keys and values. */
  type Hash = map<Option<string>, Option<string>>

  /** `x[key]`: nil when the key is missing. */
  function Fetch(x: Hash, key: string): Option<string> {
    if Some(key) in x then x[Some(key)] else None
  }

  // ---------- splitting ----------

  /** `split(/$/)`: the text is cut in front of every newline but a leading one, so every piece but
      the first starts with its newline, and no piece is empty. */
  function SplitAtLineEnds(s: string): seq<string>
    decreases |s|
  {
    if s == "" then []
    else
      var k := LineEnd(s, 1);
      [s[..k]] + SplitAtLineEnds(s[k..])
  }

  /** `split` drops trailing empty pieces. */
  function DropTrailingEmpty(parts: seq<string>): seq<string> {
    if parts != [] && parts[|parts| - 1] == "" then DropTrailingEmpty(parts[..|parts| - 1]) else parts
  }

  function StripAll(parts: seq<string>): (r: seq<string>)
    ensures |r| == |parts|
    ensures forall k :: 0 <= k < |parts| ==> r[k] == Strip(parts[k])
  {
    seq(|parts|, k requires 0 <= k < |parts| => Strip(parts[k]))
  }

  /** The stripped columns of a line, without the piece in front of the first bar. */
  function Columns(line: string): seq<string> {
    var cols := StripAll(DropTrailingEmpty(Split(line, '|')));
    if cols == [] then [] else cols[1..]
  }

  // ---------- rows ----------

  function KeyAt(indicies: seq<string>, n: nat): Option<string> {
    if n < |indicies| then Some(indicies[n]) else None
  }

  /** Each value goes under the index that the hash's own size selects. */
  function RowObject(indicies: seq<string>, cols: seq<string>): Hash {
    if cols == [] then map[]
    else
      var n := |cols| - 1;
      var newobj := RowObject(indicies, cols[..n]);
      newobj[KeyAt(indicies, |newobj|) := Some(cols[n])]
  }

  datatype Table = Table(indicies: seq<string>, ret: seq<Hash>)

  predicate Skipped(line: string) {
    "+--" <= line || line == ""
  }

  /** What one stripped line does to the table read so far. */
  function Step(t: Table, line: string): Table {
    if Skipped(line) then t
    else if t.indicies == [] then t.(indicies := Columns(line))
    else t.(ret := t.ret + [RowObject(t.indicies, Columns(line))])
  }

  function Scan(t: Table, lines: seq<string>): Table
    decreases |lines|
  {
    if lines == [] then t else Scan(Step(t, Strip(lines[0])), lines[1..])
  }

  const PROPERTY_VALUE: seq<string> := ["Property", "Value"]

  function Flattened(rows: seq<Hash>): Hash {
    if rows == [] then map[]
    else
      var n := |rows| - 1;
      Flattened(rows[..n])[Fetch(rows[n], "Property") := Fetch(rows[n], "Value")]
  }

  function Finish(t: Table): seq<Hash> {
    if t.indicies == PROPERTY_VALUE then [Flattened(t.ret)] else t.ret
  }

  function Parsed(table: Option<string>): seq<Hash> {
    if table.None? then [] else Finish(Scan(Table([], []), SplitAtLineEnds(table.value)))
  }

  // ---------- the method ----------

  method BuildRow(indicies: seq<string>, cols: seq<string>) returns (newobj: Hash)
    ensures newobj == RowObject(indicies, cols)
  {
    newobj := map[];
    for i := 0 to |cols|
      invariant newobj == RowObject(indicies, cols[..i])
    {
      assert cols[..i + 1][..i] == cols[..i];
      newobj := newobj[KeyAt(indicies, |newobj|) := Some(cols[i])];
    }
    assert cols[..|cols|] == cols;
  }

  method PrettytableToArray(table: Option<string>) returns (result: seq<Hash>)
    ensures table.None? ==> result == []
    ensures result == Parsed(table)
  {
    var ret: seq<Hash> := [];
    if table.None? {
      return ret;
    }
    var indicies: seq<string> := [];
    var lines := SplitAtLineEnds(table.value);
    for i := 0 to |lines|
      invariant Scan(Table(indicies, ret), lines[i..]) == Scan(Table([], []), lines)
    {
      var line := Strip(lines[i]);
      assert lines[i..][1..] == lines[i + 1..];
      if !("+--" <= line || line == "") {
        var cols := Columns(line);
        if indicies == [] {
          indicies := cols;
          continue;
        }
        var newobj := BuildRow(indicies, cols);
        ret := ret + [newobj];
      }
    }
    if indicies == ["Property", "Value"] {
      var newobj: Hash := map[];
      for i := 0 to |ret|
        invariant newobj == Flattened(ret[..i])
      {
        assert ret[..i + 1][..i] == ret[..i];
        newobj := newobj[Fetch(ret[i], "Property") := Fetch(ret[i], "Value")];
      }
      assert ret[..|ret|] == ret;
      return [newobj];
    } else {
      return ret;
    }
  }

  // ---------- what parsing depends on ----------

  lemma {:induction false} ScanConcat(t: Table, a: seq<string>, b: seq<string>)
    ensures Scan(t, a + b) == Scan(Scan(t, a), b)
    decreases |a|
  {
    if a == [] {
      assert a + b == b;
    } else {
      assert (a + b)[1..] == a[1..] + b;
      ScanConcat(Step(t, Strip(a[0])), a[1..], b);
    }
  }

  lemma StripNewline(s: string)
    ensures Strip(['\n'] + s) == Strip(s)
  {
    TrimLeftSkips(['\n'], s, BLANKS);
  }

  /** A piece without inner newlines is one line, with or without a newline in front of it. */
  lemma ScanPiece(t: Table, s: string)
    requires s != "" && LineEnd(s, 1) == |s|
    ensures Scan(t, Split(s, '\n')) == Step(t, Strip(s))
  {
    if s[0] == '\n' {
      assert s == ['\n'] + s[1..];
      SplitFree(s[1..], '\n');
      SplitCons('\n', s[1..], '\n');
      StripNewline(s[1..]);
      ScanOne(t, s[1..]);
      assert Split(s, '\n') == [""] + [s[1..]];
      assert ([""] + [s[1..]])[1..] == [s[1..]];
      assert Step(t, Strip("")) == t;
    } else {
      SplitFree(s, '\n');
      ScanOne(t, s);
    }
  }

  lemma ScanOne(t: Table, line: string)
    ensures Scan(t, [line]) == Step(t, Strip(line))
  {
    assert [line][1..] == [];
  }

  /** Cutting at `$` and splitting at newlines make no difference to the table read. */
  lemma {:induction false} LinesAgree(t: Table, s: string)
    ensures Scan(t, SplitAtLineEnds(s)) == Scan(t, Split(s, '\n'))
    decreases |s|
  {
    if s == "" {
      assert Step(t, Strip("")) == t;
    } else {
      var k := LineEnd(s, 1);
      var line, rest := s[..k], s[k..];
      assert LineEnd(line, 1) == k;
      ScanPiece(t, line);
      var t' := Step(t, Strip(line));
      assert SplitAtLineEnds(s)[1..] == SplitAtLineEnds(rest);
      LinesAgree(t', rest);
      if k < |s| {
        var tail := s[k + 1..];
        assert rest == ['\n'] + tail;
        assert s == line + ['\n'] + tail;
        SplitCons('\n', tail, '\n');
        SplitConcat(line, tail, '\n');
        ScanConcat(t, Split(line, '\n'), Split(tail, '\n'));
        assert ([""] + Split(tail, '\n'))[1..] == Split(tail, '\n');
        assert Step(t', Strip("")) == t';
      } else {
        assert s == line;
        assert Step(t', Strip("")) == t';
      }
    }
  }

  lemma ParsedByLines(text: string)
    ensures Parsed(Some(text)) == Finish(Scan(Table([], []), Split(text, '\n')))
  {
    LinesAgree(Table([], []), text);
  }

  // ---------- any line ----------

  predicate IsBlank(c: char) {
    c == ' ' || '\t' <= c <= '\r'
  }

  ghost predicate BlankFront(s: string) {
    forall k :: 0 <= k < |s| ==> IsBlank(s[k])
  }

  ghost predicate BlankBack(s: string) {
    forall k :: 0 <= k < |s| ==> IsBlank(s[k]) || s[k] == '\0'
  }

  /** core is what stripping leaves: no blank in front, and neither a blank nor NUL behind. */
  ghost predicate IsCore(s: string, core: string) {
    && (exists l, r :: s == l + core + r && BlankFront(l) && BlankBack(r))
    && (core != "" ==> !IsBlank(core[0]) && !IsBlank(core[|core| - 1]) && core[|core| - 1] != '\0')
  }

  lemma BlanksAgree(l: string, core: string, r: string)
    ensures Only(l, BLANKS) <==> BlankFront(l)
    ensures Only(r, BLANKS_AND_NUL) <==> BlankBack(r)
    ensures Trimmed(core, BLANKS, BLANKS_AND_NUL) <==>
            core == "" || (!IsBlank(core[0]) && !IsBlank(core[|core| - 1]) && core[|core| - 1] != '\0')
  {
  }

  lemma StripMeaning(s: string, core: string)
    ensures Strip(s) == core <==> IsCore(s, core)
  {
    var l, r := TrimDecomposes(s, BLANKS, BLANKS_AND_NUL);
    BlanksAgree(l, Strip(s), r);
    if IsCore(s, core) {
      var l', r' :| s == l' + core + r' && BlankFront(l') && BlankBack(r');
      BlanksAgree(l', core, r');
      TrimPadded(l', core, r', BLANKS, BLANKS_AND_NUL);
    }
  }

  /** A line that is blank or begins with `+--`, blanks aside, changes nothing; the first other line
      gives the headers, and every later one a row. */
  lemma LineMeaning(t: Table, line: string, core: string)
    requires IsCore(line, core)
    ensures core == "" || "+--" <= core ==> Scan(t, [line]) == t
    ensures core != "" && !("+--" <= core) ==>
      Scan(t, [line]) == if t.indicies == [] then Table(Columns(core), t.ret)
                         else Table(t.indicies, t.ret + [RowObject(t.indicies, Columns(core))])
  {
    StripMeaning(line, core);
    ScanOne(t, line);
  }

  lemma {:induction false} DropMeaning(parts: seq<string>) returns (n: nat)
    ensures n <= |parts| && DropTrailingEmpty(parts) == parts[..n]
    ensures n > 0 ==> parts[n - 1] != ""
    ensures forall k :: n <= k < |parts| ==> parts[k] == ""
  {
    if parts == [] || parts[|parts| - 1] != "" {
      n := |parts|;
    } else {
      n := DropMeaning(parts[..|parts| - 1]);
      assert parts[..|parts| - 1][..n] == parts[..n];
    }
  }

  /** The columns of a line are the cores of the pieces between its bars, up to the last piece that is
      not empty, without the first one. */
  lemma ColumnsMeaning(line: string) returns (n: nat)
    ensures n <= |Split(line, '|')|
    ensures n > 0 ==> Split(line, '|')[n - 1] != ""
    ensures forall k :: n <= k < |Split(line, '|')| ==> Split(line, '|')[k] == ""
    ensures |Columns(line)| == if n == 0 then 0 else n - 1
    ensures forall k :: 0 <= k < |Columns(line)| ==> IsCore(Split(line, '|')[k + 1], Columns(line)[k])
  {
    n := DropMeaning(Split(line, '|'));
    forall k | 0 <= k < |Columns(line)| ensures IsCore(Split(line, '|')[k + 1], Columns(line)[k]) {
      StripMeaning(Split(line, '|')[k + 1], Columns(line)[k]);
    }
  }

  // ---------- any row ----------

  /** The first d headers are distinct, and the next one, if any, repeats one of them. */
  ghost predicate DistinctUpTo(headers: seq<string>, d: nat) {
    d <= |headers| && NoDuplicates(headers[..d]) && (d < |headers| ==> headers[d] in headers[..d])
  }

  /** Where all columns from the d-th on end up: under the repeated header, or under nil. */
  function Surplus(headers: seq<string>, d: nat): Option<string> {
    if d < |headers| then Some(headers[d]) else None
  }

  /** A row of any width: the first d columns go to the first d headers in order; whatever lies beyond
      goes to one and the same key, the last such column winning. */
  ghost predicate RowMeans(o: Hash, headers: seq<string>, d: nat, cols: seq<string>)
    requires d <= |headers|
  {
    && |o| == (if |cols| <= d then |cols| else if d < |headers| then d else d + 1)
    && (forall i :: 0 <= i < d ==> (Some(headers[i]) in o <==> i < |cols|))
    && (None in o <==> |cols| > d == |headers|)
    && (forall k :: k in o && k.Some? ==> k.value in headers[..d])
    && (|cols| > d ==> Surplus(headers, d) in o && o[Surplus(headers, d)] == Some(cols[|cols| - 1]))
    && (forall i :: 0 <= i < d && i < |cols| && (|cols| > d ==> Surplus(headers, d) != Some(headers[i])) ==>
          o[Some(headers[i])] == Some(cols[i]))
  }

  lemma NextColumn(o: Hash, headers: seq<string>, d: nat, cols: seq<string>, val: string)
    requires DistinctUpTo(headers, d) && RowMeans(o, headers, d, cols) && |cols| < d
    ensures RowMeans(o[Some(headers[|cols|]) := Some(val)], headers, d, cols + [val])
  {
    var n, longer := |cols|, cols + [val];
    assert headers[..d][n] == headers[n];
    forall i | 0 <= i < d && i != n ensures headers[i] != headers[n] {
      assert headers[..d][i] == headers[i];
    }
  }

  lemma RepeatedColumn(o: Hash, headers: seq<string>, d: nat, i: nat, cols: seq<string>, val: string)
    requires i < d < |headers| && headers[i] == headers[d]
    requires RowMeans(o, headers, d, cols) && |cols| >= d
    ensures RowMeans(o[Some(headers[d]) := Some(val)], headers, d, cols + [val])
  {
    var key := Some(headers[i]);
    var o' := o[key := Some(val)];
    assert key in o && o'.Keys == o.Keys && |o'| == |o|;
    assert None in o' <==> None in o;
  }

  lemma NilColumn(o: Hash, headers: seq<string>, cols: seq<string>, val: string)
    requires RowMeans(o, headers, |headers|, cols) && |cols| >= |headers|
    ensures RowMeans(o[None := Some(val)], headers, |headers|, cols + [val])
  {
  }

  lemma SurplusColumn(o: Hash, headers: seq<string>, d: nat, cols: seq<string>, val: string)
    requires DistinctUpTo(headers, d) && RowMeans(o, headers, d, cols) && |cols| >= d
    ensures RowMeans(o[Surplus(headers, d) := Some(val)], headers, d, cols + [val])
  {
    if d < |headers| {
      var i: nat :| i < d && headers[..d][i] == headers[d];
      RepeatedColumn(o, headers, d, i, cols, val);
    } else {
      NilColumn(o, headers, cols, val);
    }
  }

  lemma {:induction false} RowObjectMeaning(headers: seq<string>, d: nat, cols: seq<string>)
    requires DistinctUpTo(headers, d)
    ensures RowMeans(RowObject(headers, cols), headers, d, cols)
  {
    if cols == [] {
    } else {
      var n := |cols| - 1;
      var before := cols[..n];
      assert cols == before + [cols[n]];
      RowObjectMeaning(headers, d, before);
      if n < d {
        NextColumn(RowObject(headers, before), headers, d, before, cols[n]);
      } else {
        SurplusColumn(RowObject(headers, before), headers, d, before, cols[n]);
      }
    }
  }

  // ---------- any Property/Value table ----------

  /** Row m is the last one with this property. */
  ghost predicate LastWith(rows: seq<Hash>, m: int, p: Option<string>) {
    0 <= m < |rows| && Fetch(rows[m], "Property") == p
    && forall k :: m < k < |rows| ==> Fetch(rows[k], "Property") != p
  }

  /** Flattening keeps, for every property of a row, the value of the last row with it; a row without
      a property counts under nil. */
  lemma {:induction false} FlattenedMeaning(rows: seq<Hash>, p: Option<string>)
    ensures p in Flattened(rows) <==> exists m :: LastWith(rows, m, p)
    ensures forall m :: LastWith(rows, m, p) ==> p in Flattened(rows) && Flattened(rows)[p] == Fetch(rows[m], "Value")
  {
    if rows == [] {
    } else {
      var n := |rows| - 1;
      FlattenedMeaning(rows[..n], p);
      if Fetch(rows[n], "Property") == p {
        assert LastWith(rows, n, p);
      } else {
        forall m ensures LastWith(rows, m, p) <==> LastWith(rows[..n], m, p) {
          FlattenedSkips(rows, m, p);
        }
      }
    }
  }

  lemma FlattenedSkips(rows: seq<Hash>, m: int, p: Option<string>)
    requires rows != [] && Fetch(rows[|rows| - 1], "Property") != p
    ensures LastWith(rows, m, p) <==> LastWith(rows[..|rows| - 1], m, p)
  {
    var before := rows[..|rows| - 1];
    assert forall k :: 0 <= k < |before| ==> before[k] == rows[k];
  }
}
