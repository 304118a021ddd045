/** The PrettyTable layout as a printer, and the round trip of the parser through it.

    A listing is any sequence of border lines, blank lines and rows. A row is a bar, then every
    cell with its padding and a closing bar; every cell has at least one blank beside it. */
module TableLayout {
  import opened Wrappers
  import opened Text
  import opened PrettyTable

  datatype Cell = Cell(left: string, text: string, right: string)

  datatype Line =
    | Border(indent: string, dashes: string)
    | Blank(spaces: string)
    | Row(indent: string, cells: seq<Cell>, trail: string)

  function PrintCells(cells: seq<Cell>): string {
    if cells == [] then ""
    else cells[0].left + cells[0].text + cells[0].right + "|" + PrintCells(cells[1..])
  }

  function PrintLine(line: Line): string {
    match line
    case Border(indent, dashes) => indent + ("+--" + dashes)
    case Blank(spaces) => spaces
    case Row(indent, cells, trail) => indent + ("|" + PrintCells(cells)) + trail
  }

  function PrintLines(doc: seq<Line>): (lines: seq<string>)
    ensures |lines| == |doc|
    ensures forall k :: 0 <= k < |doc| ==> lines[k] == PrintLine(doc[k])
  {
    seq(|doc|, k requires 0 <= k < |doc| => PrintLine(doc[k]))
  }

  function Print(doc: seq<Line>): string {
    Join(PrintLines(doc), "\n")
  }

  /** Blanks within one line. */
  ghost predicate Padding(s: string) {
    forall k :: 0 <= k < |s| ==> s[k] == ' ' || ('\t' <= s[k] <= '\r' && s[k] != '\n')
  }

  /** A cell: text without bars and newlines that neither begins nor ends with a blank, nor ends with
      NUL, and some blank beside it. */
  ghost predicate GoodCell(cell: Cell) {
    && Padding(cell.left) && Padding(cell.right) && cell.left + cell.right != ""
    && '|' !in cell.text && '\n' !in cell.text
    && (cell.text != "" ==>
          var first, last := cell.text[0], cell.text[|cell.text| - 1];
          first != ' ' && !('\t' <= first <= '\r') && last != ' ' && !('\t' <= last <= '\r') && last != '\0')
  }

  lemma PaddingIsBlank(s: string)
    requires Padding(s)
    ensures Only(s, BLANKS) && Only(s, BLANKS_AND_NUL) && '\n' !in s
  {
  }

  lemma CellIsTrimmed(cell: Cell)
    requires GoodCell(cell)
    ensures Trimmed(cell.text, BLANKS, BLANKS_AND_NUL)
  {
  }

  ghost predicate GoodLine(line: Line) {
    match line
    case Border(indent, dashes) => Padding(indent) && '\n' !in dashes
    case Blank(spaces) => Padding(spaces)
    case Row(indent, cells, trail) =>
      Padding(indent) && Padding(trail) && cells != [] && forall k :: 0 <= k < |cells| ==> GoodCell(cells[k])
  }

  ghost predicate Listing(doc: seq<Line>) {
    forall k :: 0 <= k < |doc| ==> GoodLine(doc[k])
  }

  function Texts(cells: seq<Cell>): (texts: seq<string>)
    ensures |texts| == |cells|
    ensures forall k :: 0 <= k < |cells| ==> texts[k] == cells[k].text
  {
    seq(|cells|, k requires 0 <= k < |cells| => cells[k].text)
  }

  /** The cell texts of the rows, header row first. */
  function Rows(doc: seq<Line>): seq<seq<string>> {
    if doc == [] then []
    else (if doc[0].Row? then [Texts(doc[0].cells)] else []) + Rows(doc[1..])
  }

  // ---------- one row ----------

  function Padded(cell: Cell): string {
    cell.left + cell.text + cell.right
  }

  function PaddedAll(cells: seq<Cell>): (r: seq<string>)
    ensures |r| == |cells|
    ensures forall k :: 0 <= k < |cells| ==> r[k] == Padded(cells[k])
  {
    seq(|cells|, k requires 0 <= k < |cells| => Padded(cells[k]))
  }

  lemma {:induction false} SplitCells(cells: seq<Cell>)
    requires forall k :: 0 <= k < |cells| ==> GoodCell(cells[k])
    ensures Split(PrintCells(cells), '|') == PaddedAll(cells) + [""]
  {
    if cells == [] {
      assert PaddedAll(cells) == [];
    } else {
      var tail := PrintCells(cells[1..]);
      SplitCells(cells[1..]);
      NoBar(cells[0]);
      SplitFree(Padded(cells[0]), '|');
      SplitConcat(Padded(cells[0]), tail, '|');
      assert PrintCells(cells) == Padded(cells[0]) + ['|'] + tail;
      assert PaddedAll(cells) == [Padded(cells[0])] + PaddedAll(cells[1..]);
    }
  }

  lemma NoBar(cell: Cell)
    requires GoodCell(cell)
    ensures '|' !in Padded(cell) && '\n' !in Padded(cell) && Padded(cell) != ""
    ensures Strip(Padded(cell)) == cell.text
  {
    PaddingIsBlank(cell.left);
    PaddingIsBlank(cell.right);
    CellIsTrimmed(cell);
    assert forall k :: 0 <= k < |cell.left| ==> cell.left[k] in BLANKS;
    assert forall k :: 0 <= k < |cell.right| ==> cell.right[k] in BLANKS;
    TrimPadded(cell.left, cell.text, cell.right, BLANKS, BLANKS_AND_NUL);
  }

  lemma ColumnsOfRow(cells: seq<Cell>)
    requires cells != [] && forall k :: 0 <= k < |cells| ==> GoodCell(cells[k])
    ensures Columns("|" + PrintCells(cells)) == Texts(cells)
  {
    SplitRow(cells);
    NoBar(cells[|cells| - 1]);
    DropClosingBar([""] + PaddedAll(cells));
    StrippedPieces(cells);
  }

  lemma SplitRow(cells: seq<Cell>)
    requires forall k :: 0 <= k < |cells| ==> GoodCell(cells[k])
    ensures Split("|" + PrintCells(cells), '|') == [""] + PaddedAll(cells) + [""]
  {
    SplitCells(cells);
    AfterBar(PrintCells(cells), PaddedAll(cells));
  }

  lemma AfterBar(body: string, padded: seq<string>)
    requires Split(body, '|') == padded + [""]
    ensures Split("|" + body, '|') == [""] + padded + [""]
  {
    SplitCons('|', body, '|');
    assert Prepend('|', padded + [""], '|') == [""] + (padded + [""]);
    assert [""] + (padded + [""]) == [""] + padded + [""];
  }

  lemma DropClosingBar(parts: seq<string>)
    requires parts != [] && parts[|parts| - 1] != ""
    ensures DropTrailingEmpty(parts + [""]) == parts
  {
    assert (parts + [""])[..|parts|] == parts;
  }

  lemma StrippedPieces(cells: seq<Cell>)
    requires forall k :: 0 <= k < |cells| ==> GoodCell(cells[k])
    ensures StripAll([""] + PaddedAll(cells))[1..] == Texts(cells)
  {
    var padded := [""] + PaddedAll(cells);
    forall k | 0 <= k < |cells| ensures StripAll(padded)[k + 1] == cells[k].text {
      NoBar(cells[k]);
      assert padded[k + 1] == Padded(cells[k]);
    }
  }

  // ---------- one line ----------

  lemma StripRow(indent: string, core: string, trail: string)
    requires Padding(indent) && Padding(trail)
    requires core != "" && core[0] !in BLANKS && core[|core| - 1] !in BLANKS_AND_NUL
    ensures Strip(indent + core + trail) == core
  {
    PaddingIsBlank(indent);
    PaddingIsBlank(trail);
    TrimPadded(indent, core, trail, BLANKS, BLANKS_AND_NUL);
  }

  lemma {:induction false} CellsEndWithBar(cells: seq<Cell>)
    requires cells != []
    ensures PrintCells(cells) != "" && PrintCells(cells)[|PrintCells(cells)| - 1] == '|'
  {
    if |cells| == 1 {
    } else {
      CellsEndWithBar(cells[1..]);
    }
  }

  lemma StripBorder(indent: string, dashes: string)
    requires Padding(indent)
    ensures "+--" <= Strip(indent + ("+--" + dashes))
  {
    var core := "+--" + dashes;
    PaddingIsBlank(indent);
    TrimLeftSkips(indent, core, BLANKS);
    assert TrimLeft(core, BLANKS) == core;
    TrimRightKeeps(core, 3, BLANKS_AND_NUL);
    assert core[..3] == "+--";
  }

  /** Trimming on the right stops at a character that is not to be trimmed. */
  lemma TrimRightKeeps(s: string, n: nat, cs: set<char>)
    requires 0 < n <= |s| && s[n - 1] !in cs
    ensures s[..n] <= TrimRight(s, cs)
  {
    TrimRightPrefix(s, cs);
  }

  lemma StripBlank(spaces: string)
    requires Padding(spaces)
    ensures Strip(spaces) == ""
  {
    PaddingIsBlank(spaces);
    assert spaces == spaces + "" + "";
    TrimPadded(spaces, "", "", BLANKS, BLANKS_AND_NUL);
  }

  /** What the parser does with a printed line. */
  lemma StepOfLine(t: Table, line: Line)
    requires GoodLine(line)
    ensures Step(t, Strip(PrintLine(line))) ==
            if !line.Row? then t
            else if t.indicies == [] then t.(indicies := Texts(line.cells))
            else t.(ret := t.ret + [RowObject(t.indicies, Texts(line.cells))])
  {
    match line
    case Border(indent, dashes) =>
      StripBorder(indent, dashes);
    case Blank(spaces) =>
      StripBlank(spaces);
    case Row(indent, cells, trail) =>
      CellsEndWithBar(cells);
      var core := "|" + PrintCells(cells);
      assert core[0] == '|' && core[|core| - 1] == '|';
      StripRow(indent, core, trail);
      ColumnsOfRow(cells);
      assert !("+--" <= core);
  }

  lemma {:induction false} NoNewlineInCells(cells: seq<Cell>)
    requires forall k :: 0 <= k < |cells| ==> GoodCell(cells[k])
    ensures '\n' !in PrintCells(cells)
  {
    if cells == [] {
    } else {
      NoBar(cells[0]);
      NoNewlineInCells(cells[1..]);
      assert PrintCells(cells) == Padded(cells[0]) + "|" + PrintCells(cells[1..]);
    }
  }

  lemma NoNewlineInLine(line: Line)
    requires GoodLine(line)
    ensures '\n' !in PrintLine(line)
  {
    if line.Row? {
      NoNewlineInCells(line.cells);
    }
  }

  // ---------- a whole listing ----------

  /** Reading rows: the first one gives the header, the others one hash each. */
  function ReadRows(t: Table, rows: seq<seq<string>>): Table
    decreases |rows|
  {
    if rows == [] then t
    else if t.indicies == [] then ReadRows(t.(indicies := rows[0]), rows[1..])
    else ReadRows(t.(ret := t.ret + [RowObject(t.indicies, rows[0])]), rows[1..])
  }

  lemma {:induction false} ScanListing(t: Table, doc: seq<Line>)
    requires Listing(doc)
    ensures Scan(t, PrintLines(doc)) == ReadRows(t, Rows(doc))
    decreases |doc|
  {
    if doc == [] {
    } else {
      var t' := Step(t, Strip(PrintLine(doc[0])));
      StepOfLine(t, doc[0]);
      assert PrintLines(doc)[1..] == PrintLines(doc[1..]);
      ScanListing(t', doc[1..]);
      if doc[0].Row? {
        var texts := Texts(doc[0].cells);
        assert Rows(doc)[0] == texts && Rows(doc)[1..] == Rows(doc[1..]);
      } else {
        assert Rows(doc) == Rows(doc[1..]);
      }
    }
  }

  /** A printed listing parses to what its rows say, wherever borders and blank lines stand and
      however the cells are padded. */
  lemma ParsedListing(doc: seq<Line>)
    requires Listing(doc)
    ensures Parsed(Some(Print(doc))) == Finish(ReadRows(Table([], []), Rows(doc)))
  {
    ParsedByLines(Print(doc));
    if doc == [] {
      assert PrintLines(doc) == [];
      ScanOne(Table([], []), "");
      assert Split("", '\n') == [""];
    } else {
      forall k | 0 <= k < |doc| ensures '\n' !in PrintLines(doc)[k] {
        NoNewlineInLine(doc[k]);
      }
      SplitJoin(PrintLines(doc), '\n');
      ScanListing(Table([], []), doc);
    }
  }

  function Objects(headers: seq<string>, rows: seq<seq<string>>): (r: seq<Hash>)
    ensures |r| == |rows|
    ensures forall k :: 0 <= k < |rows| ==> r[k] == RowObject(headers, rows[k])
  {
    seq(|rows|, k requires 0 <= k < |rows| => RowObject(headers, rows[k]))
  }

  lemma {:induction false} ReadData(headers: seq<string>, ret: seq<Hash>, rows: seq<seq<string>>)
    requires headers != []
    ensures ReadRows(Table(headers, ret), rows) == Table(headers, ret + Objects(headers, rows))
    decreases |rows|
  {
    if rows == [] {
      assert ret + Objects(headers, rows) == ret;
    } else {
      ReadData(headers, ret + [RowObject(headers, rows[0])], rows[1..]);
      assert ret + [RowObject(headers, rows[0])] + Objects(headers, rows[1..]) == ret + Objects(headers, rows);
    }
  }

  lemma ReadAll(headers: seq<string>, rows: seq<seq<string>>)
    requires headers != []
    ensures ReadRows(Table([], []), [headers] + rows) == Table(headers, Objects(headers, rows))
  {
    assert ([headers] + rows)[1..] == rows;
    ReadData(headers, [], rows);
    assert [] + Objects(headers, rows) == Objects(headers, rows);
  }

  // ---------- the round trips ----------

  /** The hash has exactly the headers as keys and under each of them the cell of that column. */
  ghost predicate IsRow(o: Hash, headers: seq<string>, row: seq<string>)
    requires |row| == |headers|
  {
    && (forall k :: k in o <==> k.Some? && k.value in headers)
    && (forall i :: 0 <= i < |headers| ==> Some(headers[i]) in o && o[Some(headers[i])] == Some(row[i]))
  }

  ghost predicate TableOf(doc: seq<Line>, headers: seq<string>, rows: seq<seq<string>>) {
    && Listing(doc) && Rows(doc) == [headers] + rows
    && headers != [] && NoDuplicates(headers)
    && forall k :: 0 <= k < |rows| ==> |rows[k]| == |headers|
  }

  lemma FullRow(headers: seq<string>, row: seq<string>)
    requires NoDuplicates(headers) && |row| == |headers|
    ensures IsRow(RowObject(headers, row), headers, row)
  {
    assert headers[..|headers|] == headers;
    RowObjectMeaning(headers, |headers|, row);
    var o := RowObject(headers, row);
    forall k ensures k in o <==> k.Some? && k.value in headers {
      if k.Some? && k.value in headers {
        var i :| 0 <= i < |headers| && headers[i] == k.value;
        assert Some(headers[i]) in o;
      }
    }
  }

  /** Printing a table and parsing it gives back the header-to-cell maps of its rows, in order. */
  lemma RoundTrip(doc: seq<Line>, headers: seq<string>, rows: seq<seq<string>>)
    requires TableOf(doc, headers, rows)
    requires headers != ["Property", "Value"]
    ensures var r := Parsed(Some(Print(doc)));
      |r| == |rows| && forall k :: 0 <= k < |rows| ==> IsRow(r[k], headers, rows[k])
  {
    ParsedListing(doc);
    ReadAll(headers, rows);
    forall k | 0 <= k < |rows| ensures IsRow(RowObject(headers, rows[k]), headers, rows[k]) {
      FullRow(headers, rows[k]);
    }
  }

  ghost predicate Pairs(rows: seq<seq<string>>) {
    forall k :: 0 <= k < |rows| ==> |rows[k]| == 2
  }

  /** The last row that names property p, or -1. */
  ghost function LastNaming(rows: seq<seq<string>>, p: string): (k: int)
    requires Pairs(rows)
    ensures -1 <= k < |rows|
    ensures k >= 0 ==> rows[k][0] == p
    ensures forall m :: k < m < |rows| ==> rows[m][0] != p
  {
    if rows == [] then -1
    else
      var n := |rows| - 1;
      if rows[n][0] == p then n else LastNaming(rows[..n], p)
  }

  lemma PairRow(row: seq<string>)
    requires |row| == 2
    ensures var o := RowObject(PROPERTY_VALUE, row);
      Fetch(o, "Property") == Some(row[0]) && Fetch(o, "Value") == Some(row[1])
  {
    FullRow(PROPERTY_VALUE, row);
    assert PROPERTY_VALUE[0] == "Property" && PROPERTY_VALUE[1] == "Value";
  }

  lemma LastRowWith(rows: seq<seq<string>>, p: string)
    requires Pairs(rows)
    ensures var o := Flattened(Objects(PROPERTY_VALUE, rows));
      && None !in o
      && (Some(p) in o <==> LastNaming(rows, p) >= 0)
      && (Some(p) in o ==> o[Some(p)] == Some(rows[LastNaming(rows, p)][1]))
  {
    var objects := Objects(PROPERTY_VALUE, rows);
    forall k | 0 <= k < |rows|
      ensures Fetch(objects[k], "Property") == Some(rows[k][0]) && Fetch(objects[k], "Value") == Some(rows[k][1])
    {
      PairRow(rows[k]);
    }
    FlattenedMeaning(objects, None);
    FlattenedMeaning(objects, Some(p));
    if LastNaming(rows, p) >= 0 {
      assert LastWith(objects, LastNaming(rows, p), Some(p));
    }
  }

  /** A Property/Value table parses to a single map: its keys are the properties that occur, each
      with the value of the last row naming it. */
  lemma PropertyValueFlattening(doc: seq<Line>, rows: seq<seq<string>>)
    requires TableOf(doc, ["Property", "Value"], rows)
    ensures var r := Parsed(Some(Print(doc)));
      && |r| == 1
      && None !in r[0]
      && (forall p :: Some(p) in r[0] <==> LastNaming(rows, p) >= 0)
      && (forall p :: Some(p) in r[0] ==> r[0][Some(p)] == Some(rows[LastNaming(rows, p)][1]))
      && (rows == [] ==> r == [map[]])
  {
    ParsedListing(doc);
    ReadAll(PROPERTY_VALUE, rows);
    LastRowWith(rows, "");
    forall p
      ensures var o := Flattened(Objects(PROPERTY_VALUE, rows));
        && (Some(p) in o <==> LastNaming(rows, p) >= 0)
        && (Some(p) in o ==> o[Some(p)] == Some(rows[LastNaming(rows, p)][1]))
    {
      LastRowWith(rows, p);
    }
  }

  /** Without a table, and for a listing without rows, the result is empty. */
  lemma NothingListed(doc: seq<Line>)
    requires Listing(doc) && forall k :: 0 <= k < |doc| ==> !doc[k].Row?
    ensures Parsed(None) == []
    ensures Parsed(Some(Print(doc))) == []
  {
    ParsedListing(doc);
    NoRows(doc);
  }

  lemma {:induction false} NoRows(doc: seq<Line>)
    requires forall k :: 0 <= k < |doc| ==> !doc[k].Row?
    ensures Rows(doc) == []
  {
    if doc == [] {
    } else {
      NoRows(doc[1..]);
    }
  }
}
