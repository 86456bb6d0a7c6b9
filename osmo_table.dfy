/**
 * The fixed-width table parser of the status collector (`Osmo._read_status`
 * in ui/osmo.py). The output of `docker compose top osmo` arrives as text; its
 * second line is a header whose whitespace-separated tokens name the columns
 * and fix their offsets, and each following line up to the first empty one is
 * sliced at those offsets into a row that maps column names to stripped values.
 */
module OsmoTable {
  import opened Wrappers
  import opened PyStr

  /**
   * A column of the header: its name, the offset of its first character and its
   * width, which is the name plus the whitespace after it; the last column has
   * no width (`None`) and reaches to the end of the line.
   */
  datatype Column = Column(name: string, start: nat, width: Option<nat>)

  /** One data line, as a dictionary from column name to value. */
  type Row = map<string, string>

  /** Why collecting the status fails. */
  datatype Error =
    | ExecutionFailed      // `docker compose top osmo` exited non-zero
    | OutputTooShort       // fewer than two lines of output
    | NoCmdHeader          // the second line does not contain "CMD"
    | MissingKey(key: string)  // a row has no column of this name

  // ---------------------------------------------------------------------------
  // The header: re.match(r"(\S+)(\s*)", header), repeated

  /** Length of the leading run of characters that are (or are not) whitespace. */
  function Run(h: string, space: bool): (n: nat)
    ensures n <= |h|
  {
    if h == [] || IsSpace(h[0]) != space then 0 else 1 + Run(h[1..], space)
  }

  /** The run is maximal: every character in it is of the kind asked for, and the next one is not. */
  lemma {:induction false} RunMaximal(h: string, space: bool)
    ensures var n := Run(h, space);
      (forall k :: 0 <= k < n ==> IsSpace(h[k]) == space) && (n == |h| || IsSpace(h[n]) != space)
    decreases |h|
  {
    if h != [] && IsSpace(h[0]) == space {
      RunMaximal(h[1..], space);
    }
  }

  /**
   * The match of `(\S+)(\s*)` at the start of `h`: the name (group 1) and the
   * end of the whole match; no match when `h` is empty or starts with whitespace.
   */
  function MatchToken(h: string): (m: Option<(string, nat)>)
    ensures m.None? <==> (h == [] || IsSpace(h[0]))
    ensures m.Some? ==> 0 < |m.value.0| <= m.value.1 <= |h|
  {
    var n := Run(h, false);
    if n == 0 then None
    else
      var end := n + Run(h[n..], true);
      Some((h[..n], end))
  }

  /**
   * A match consists of the longest run of non-whitespace at the start of `h`
   * followed by the longest run of whitespace after it.
   */
  lemma MatchTokenMaximal(h: string)
    requires MatchToken(h).Some?
    ensures var (name, end) := MatchToken(h).value;
      name == h[..|name|]
      && (forall k :: 0 <= k < |name| ==> !IsSpace(name[k]))
      && (|name| == |h| || IsSpace(h[|name|]))
      && (forall k :: |name| <= k < end ==> IsSpace(h[k]))
      && (end == |h| || !IsSpace(h[end]))
  {
    var n := Run(h, false);
    RunMaximal(h, false);
    RunMaximal(h[n..], true);
  }

  /** Where matching resumes after the match at `pos`: the end of that match. */
  function NextPos(line: string, pos: nat): (next: nat)
    requires pos < |line| && MatchToken(line[pos..]).Some?
    ensures pos < next <= |line|
  {
    pos + MatchToken(line[pos..]).value.1
  }

  /**
   * The column matched at `pos`: the name is group 1, and the width is the
   * length of the whole match unless nothing follows it.
   */
  function NextColumn(line: string, pos: nat): Column
    requires pos < |line| && MatchToken(line[pos..]).Some?
  {
    var (name, end) := MatchToken(line[pos..]).value;
    Column(name, pos, if pos + end == |line| then None else Some(end))
  }

  /**
   * The columns of the header `line` from offset `pos` on, found by matching
   * `line[pos:]` again and again: each column starts where the previous
   * match ended, and a failed match ends the list.
   */
  function ColumnsAt(line: string, pos: nat): seq<Column>
    decreases |line| - pos
  {
    if pos >= |line| || MatchToken(line[pos..]).None? then []
    else [NextColumn(line, pos)] + ColumnsAt(line, NextPos(line, pos))
  }

  function HeaderColumns(header: string): seq<Column> {
    ColumnsAt(header, 0)
  }

  /** The header-tokenising loop of `_read_status`. */
  method ParseHeader(line: string) returns (columns: seq<Column>)
    ensures columns == HeaderColumns(line)
  {
    columns := [];
    var startcolumn: nat := 0;
    var header := line;
    ghost var pos: nat := 0;
    while header != ""
      invariant pos <= |line| && header == line[pos..]
      invariant header != "" ==> startcolumn == pos
      invariant columns + ColumnsAt(line, pos) == HeaderColumns(line)
      decreases |header|
    {
      var m := MatchToken(header);
      if m.None? {
        break;
      }
      var (currentname, end) := m.value;
      header := header[end..];
      var width: Option<nat> := if header == "" then None else Some(end);
      var column := Column(currentname, startcolumn, width);
      ghost var done, prev := columns, pos;
      columns := columns + [column];
      pos := pos + end;
      LoopStep(line, done, prev, column, columns, pos);
      if width.Some? {
        startcolumn := startcolumn + width.value;
      }
    }
    assert ColumnsAt(line, pos) == [];
  }

  /**
   * One round of the header loop: the column matched at `pos` moves from the
   * pending part to the columns found, and matching resumes after it.
   */
  lemma LoopStep(line: string, done: seq<Column>, pos: nat, c: Column, after: seq<Column>, next: nat)
    requires pos < |line| && MatchToken(line[pos..]).Some?
    requires c == NextColumn(line, pos) && after == done + [c] && next == NextPos(line, pos)
    ensures after + ColumnsAt(line, next) == done + ColumnsAt(line, pos)
  {
    Associative(done, [c], ColumnsAt(line, next));
  }

  /**
   * Sequence concatenation is associative. Stated once here so that `LoopStep`
   * needs only this instance of it.
   */
  lemma Associative<T>(a: seq<T>, b: seq<T>, c: seq<T>)
    ensures a + (b + c) == (a + b) + c
  {
  }

  // ---------------------------------------------------------------------------
  // Properties of the header columns

  /** The text of `line` under column `c`: `line[start:start+width]`, or `line[start:]` for the last column. */
  function Span(line: string, c: Column): string {
    match c.width
    case None => Slice(line, c.start, |line|)
    case Some(w) => Slice(line, c.start, c.start + w)
  }

  /**
   * The columns lie side by side from offset `s` on: the first starts at `s`,
   * every column but the last has a positive width and the next starts where it
   * ends, and exactly the last one has no width.
   */
  ghost predicate Tiled(cols: seq<Column>, s: nat) {
    |cols| >= 1 && cols[0].start == s
    && cols[|cols| - 1].width.None?
    && forall i :: 0 <= i < |cols| - 1 ==>
         cols[i].width.Some? && cols[i].width.value >= 1
         && cols[i + 1].start == cols[i].start + cols[i].width.value
  }

  /** A column name is a non-empty run of non-whitespace characters. */
  ghost predicate ValidName(name: string) {
    name != [] && forall k :: 0 <= k < |name| ==> !IsSpace(name[k])
  }

  /** Under column `c`, `line` holds the column's name followed only by whitespace. */
  ghost predicate Labels(line: string, c: Column) {
    var sp := Span(line, c);
    |c.name| <= |sp| && sp[..|c.name|] == c.name
    && forall k :: |c.name| <= k < |sp| ==> IsSpace(sp[k])
  }

  /** Every column has a valid name and labels `line`. */
  ghost predicate AllLabelled(line: string, cols: seq<Column>) {
    forall i :: 0 <= i < |cols| ==> ValidName(cols[i].name) && Labels(line, cols[i])
  }

  /** Putting a column of positive width in front of columns tiled from its end keeps them tiled. */
  lemma TiledCons(c: Column, tail: seq<Column>, s: nat)
    requires c.start == s && c.width.Some? && c.width.value >= 1
    requires Tiled(tail, s + c.width.value)
    ensures Tiled([c] + tail, s)
  {
    var cols := [c] + tail;
    forall i | 0 <= i < |cols| - 1
      ensures cols[i].width.Some? && cols[i].width.value >= 1
      ensures cols[i + 1].start == cols[i].start + cols[i].width.value
    {
      if i > 0 { assert cols[i] == tail[i - 1] && cols[i + 1] == tail[i]; }
    }
  }

  /** Dropping the first of several tiled columns leaves columns tiled from its end. */
  lemma TiledTail(cols: seq<Column>, s: nat)
    requires Tiled(cols, s) && |cols| > 1
    ensures Tiled(cols[1..], cols[1].start)
  {
    var tail := cols[1..];
    forall i | 0 <= i < |tail| - 1
      ensures tail[i].width.Some? && tail[i].width.value >= 1
      ensures tail[i + 1].start == tail[i].start + tail[i].width.value
    {
      assert tail[i] == cols[i + 1] && tail[i + 1] == cols[i + 2];
    }
  }

  /** The column list is empty exactly when the text left to match is empty or starts with whitespace. */
  lemma ColumnsAtEmpty(line: string, pos: nat)
    requires pos <= |line|
    ensures ColumnsAt(line, pos) == [] <==> (pos == |line| || IsSpace(line[pos]))
  {
    if pos < |line| {
      assert line[pos..][0] == line[pos];
    }
  }

  /** The match at `pos` either reaches the end of the line or is followed by another match. */
  lemma NextToken(line: string, pos: nat)
    requires pos < |line| && MatchToken(line[pos..]).Some?
    ensures NextPos(line, pos) == |line| || !IsSpace(line[NextPos(line, pos)])
  {
    MatchTokenMaximal(line[pos..]);
    if NextPos(line, pos) < |line| {
      assert line[NextPos(line, pos)] == line[pos..][MatchToken(line[pos..]).value.1];
    }
  }

  lemma {:induction false} ColumnsAtTiled(line: string, pos: nat)
    requires pos < |line| && !IsSpace(line[pos])
    ensures Tiled(ColumnsAt(line, pos), pos)
    decreases |line| - pos
  {
    ColumnsAtEmpty(line, pos);
    NextToken(line, pos);
    if NextPos(line, pos) < |line| {
      ColumnsAtTiled(line, NextPos(line, pos));
      TiledCons(NextColumn(line, pos), ColumnsAt(line, NextPos(line, pos)), pos);
    }
  }

  /** The column matched at `pos` has a valid name and labels the line. */
  lemma NextColumnLabels(line: string, pos: nat)
    requires pos < |line| && MatchToken(line[pos..]).Some?
    ensures ValidName(NextColumn(line, pos).name) && Labels(line, NextColumn(line, pos))
  {
    var h := line[pos..];
    var end := MatchToken(h).value.1;
    MatchTokenMaximal(h);
    var c := NextColumn(line, pos);
    assert Span(line, c) == h[..end];
  }

  /** The column matched at `pos` joins the labelled columns after it. */
  lemma LabelledCons(line: string, pos: nat, tail: seq<Column>)
    requires pos < |line| && MatchToken(line[pos..]).Some?
    requires AllLabelled(line, tail)
    ensures AllLabelled(line, [NextColumn(line, pos)] + tail)
  {
    NextColumnLabels(line, pos);
    var cols := [NextColumn(line, pos)] + tail;
    forall i | 1 <= i < |cols| ensures ValidName(cols[i].name) && Labels(line, cols[i]) {
      assert cols[i] == tail[i - 1];
    }
  }

  lemma {:induction false} ColumnsAtLabels(line: string, pos: nat)
    ensures AllLabelled(line, ColumnsAt(line, pos))
    decreases |line| - pos
  {
    if pos < |line| && MatchToken(line[pos..]).Some? {
      ColumnsAtLabels(line, NextPos(line, pos));
      LabelledCons(line, pos, ColumnsAt(line, NextPos(line, pos)));
    }
  }

  /**
   * A header that is empty or starts with whitespace yields no columns (the
   * match fails at once); any other header yields tiled, well-named columns
   * and the text under each is its name followed by whitespace, so the spans
   * put back together give the header again.
   */
  lemma HeaderColumnsShape(header: string)
    ensures var cols := HeaderColumns(header);
      (cols == [] <==> (header == [] || IsSpace(header[0])))
      && (cols != [] ==> Tiled(cols, 0) && Spans(header, cols) == header)
      && AllLabelled(header, cols)
  {
    ColumnsAtEmpty(header, 0);
    ColumnsAtLabels(header, 0);
    if HeaderColumns(header) != [] {
      ColumnsAtTiled(header, 0);
      SpansCover(header, HeaderColumns(header));
    }
  }

  // ---------------------------------------------------------------------------
  // Slicing a data line

  /** The texts under the columns, one after another. */
  function Spans(line: string, cols: seq<Column>): string {
    if cols == [] then "" else Span(line, cols[0]) + Spans(line, cols[1..])
  }

  lemma {:induction false} SpansCoverFrom(line: string, cols: seq<Column>, s: nat)
    requires Tiled(cols, s)
    ensures Spans(line, cols) == Slice(line, s, |line|)
    decreases |cols|
  {
    if |cols| == 1 {
      assert Spans(line, cols) == Span(line, cols[0]) + "";
    } else {
      TiledTail(cols, s);
      SpansCoverFrom(line, cols[1..], cols[1].start);
      SpansStep(line, cols, s);
    }
  }

  /** The first column's text followed by the text from where the second starts is the text from the first. */
  lemma SpansStep(line: string, cols: seq<Column>, s: nat)
    requires Tiled(cols, s) && |cols| > 1
    requires Spans(line, cols[1..]) == Slice(line, cols[1].start, |line|)
    ensures Spans(line, cols) == Slice(line, s, |line|)
  {
    SpanUpTo(line, cols[0], cols[1].start);
    SliceSplit(line, s, cols[1].start);
  }

  /** A column with a width spans up to its end offset `hi`, named so the caller need not add start and width. */
  lemma SpanUpTo(line: string, c: Column, hi: nat)
    requires c.width.Some? && hi == c.start + c.width.value
    ensures Span(line, c) == Slice(line, c.start, hi)
  {
  }

  /**
   * Whatever the data line, the slices cut by a well-formed header cover it
   * exactly: put back together, in column order, they give the line itself.
   */
  lemma SpansCover(line: string, cols: seq<Column>)
    requires Tiled(cols, 0)
    ensures Spans(line, cols) == line
  {
    SpansCoverFrom(line, cols, 0);
    assert line[0..|line|] == line;
  }

  /**
   * The row for one data line: for each column in order, `row[name]` is set to
   * the stripped slice (a later column with the same name overwrites).
   */
  function SliceRow(line: string, cols: seq<Column>): (row: Row)
    decreases |cols|
  {
    if cols == [] then map[]
    else
      var c := cols[|cols| - 1];
      var prefix := cols[..|cols| - 1];
      var row := SliceRow(line, prefix);
      assert forall i :: 0 <= i < |prefix| ==> prefix[i] == cols[i];
      row[c.name := Strip(Span(line, c))]
  }

  /** The names of the columns. */
  ghost function ColumnNames(cols: seq<Column>): set<string> {
    if cols == [] then {} else ColumnNames(cols[..|cols| - 1]) + {cols[|cols| - 1].name}
  }

  /** A name is a column name exactly when some column has it. */
  lemma {:induction false} ColumnNamesMembers(cols: seq<Column>, k: string)
    ensures k in ColumnNames(cols) <==> exists i :: 0 <= i < |cols| && cols[i].name == k
    decreases |cols|
  {
    if cols != [] {
      var prefix := cols[..|cols| - 1];
      ColumnNamesMembers(prefix, k);
      assert forall i :: 0 <= i < |prefix| ==> prefix[i] == cols[i];
      if k == cols[|cols| - 1].name {
        assert cols[|cols| - 1].name == k;
      }
    }
  }

  /** The keys of a row are exactly the column names. */
  lemma {:induction false} SliceRowKeys(line: string, cols: seq<Column>)
    ensures SliceRow(line, cols).Keys == ColumnNames(cols)
    decreases |cols|
  {
    if cols != [] {
      SliceRowKeys(line, cols[..|cols| - 1]);
    }
  }

  /** The inner loop of `_read_status`, building one row. */
  method SliceLine(line: string, columns: seq<Column>) returns (row: Row)
    ensures row == SliceRow(line, columns)
  {
    row := map[];
    for i := 0 to |columns|
      invariant row == SliceRow(line, columns[..i])
    {
      var c := columns[i];
      assert row[c.name := Span(line, c)][c.name := Strip(Span(line, c))] == row[c.name := Strip(Span(line, c))];
      row := row[c.name := Span(line, c)];
      row := row[c.name := Strip(row[c.name])];
      assert columns[..i + 1][..i] == columns[..i];
    }
    assert columns[..|columns|] == columns;
  }

  /**
   * The value a row holds for a column whose name no later column repeats is
   * the stripped slice of the line under that column.
   */
  lemma {:induction false} SliceRowValue(line: string, cols: seq<Column>, i: nat)
    requires i < |cols|
    requires forall j :: i < j < |cols| ==> cols[j].name != cols[i].name
    ensures cols[i].name in SliceRow(line, cols) && SliceRow(line, cols)[cols[i].name] == Strip(Span(line, cols[i]))
    decreases |cols|
  {
    if i < |cols| - 1 {
      var prefix := cols[..|cols| - 1];
      assert prefix[i] == cols[i];
      SliceRowValue(line, prefix, i);
    }
  }

  /** A line too short to reach a column gives the empty string for it. */
  lemma SliceRowPastEnd(line: string, cols: seq<Column>, i: nat)
    requires i < |cols| && cols[i].start >= |line|
    requires forall j :: i < j < |cols| ==> cols[j].name != cols[i].name
    ensures cols[i].name in SliceRow(line, cols) && SliceRow(line, cols)[cols[i].name] == ""
  {
    SliceRowValue(line, cols, i);
  }

  // ---------------------------------------------------------------------------
  // The whole of `_read_status`

  /** The data lines: those after the header, up to but excluding the first empty one. */
  function DataLines(lines: seq<string>): (body: seq<string>)
    ensures |body| <= |lines|
  {
    if lines == [] || lines[0] == "" then [] else [lines[0]] + DataLines(lines[1..])
  }

  /** The data lines are a prefix of the lines, none of them empty, and the line after them is empty or missing. */
  lemma {:induction false} DataLinesShape(lines: seq<string>)
    ensures var body := DataLines(lines);
      body == lines[..|body|] && (forall i :: 0 <= i < |body| ==> body[i] != "")
      && (|body| == |lines| || lines[|body|] == "")
  {
    if lines != [] && lines[0] != "" {
      DataLinesShape(lines[1..]);
    }
  }

  /** The data lines are exactly the first `k` lines when those are non-empty and the next is empty or missing. */
  lemma {:induction false} DataLinesExact(lines: seq<string>, k: nat)
    requires k <= |lines|
    requires forall i :: 0 <= i < k ==> lines[i] != ""
    requires k == |lines| || lines[k] == ""
    ensures DataLines(lines) == lines[..k]
  {
    if k > 0 {
      DataLinesExact(lines[1..], k - 1);
      assert lines[..k] == [lines[0]] + lines[1..][..k - 1];
    }
  }

  /** One row per line, in order. */
  function SliceRows(lines: seq<string>, cols: seq<Column>): (rows: seq<Row>)
    ensures |rows| == |lines|
  {
    if lines == [] then [] else SliceRows(lines[..|lines| - 1], cols) + [SliceRow(lines[|lines| - 1], cols)]
  }

  lemma SliceRowsSnoc(lines: seq<string>, cols: seq<Column>, n: nat, next: nat)
    requires n < |lines| && next == n + 1
    ensures SliceRows(lines[..next], cols) == SliceRows(lines[..n], cols) + [SliceRow(lines[n], cols)]
  {
    assert lines[..next][..n] == lines[..n];
  }

  lemma {:induction false} SliceRowsAt(lines: seq<string>, cols: seq<Column>, i: nat)
    requires i < |lines|
    ensures SliceRows(lines, cols)[i] == SliceRow(lines[i], cols)
  {
    if i < |lines| - 1 {
      SliceRowsAt(lines[..|lines| - 1], cols, i);
    }
  }

  /** What `_read_status` returns for the exit status and the standard output of the listing command. */
  function StatusRows(exitOk: bool, stdout: string): Result<seq<Row>, Error> {
    if !exitOk then Err(ExecutionFailed)
    else
      var lines := Split(stdout, '\n');
      if |lines| < 2 then Err(OutputTooShort)
      else if !Contains(lines[1], "CMD") then Err(NoCmdHeader)
      else Ok(TableRows(lines))
  }

  /** The rows of a table whose second line is the header. */
  function TableRows(lines: seq<string>): seq<Row>
    requires |lines| >= 2
  {
    SliceRows(DataLines(lines[2..]), HeaderColumns(lines[1]))
  }

  method ReadStatus(exitOk: bool, stdout: string) returns (r: Result<seq<Row>, Error>)
    ensures r == StatusRows(exitOk, stdout)
  {
    if !exitOk {
      return Err(ExecutionFailed);
    }
    var lines := Split(stdout, '\n');
    if |lines| < 2 {
      return Err(OutputTooShort);
    }
    if !Contains(lines[1], "CMD") {
      return Err(NoCmdHeader);
    }
    var columns := ParseHeader(lines[1]);
    var data := SliceLines(lines[2..], columns);
    return Ok(data);
  }

  /** The loop of `_read_status` over the lines after the header, which stops at the first empty line. */
  method SliceLines(lines: seq<string>, columns: seq<Column>) returns (data: seq<Row>)
    ensures data == SliceRows(DataLines(lines), columns)
  {
    data := [];
    var n := 0;
    while n < |lines|
      invariant n <= |lines|
      invariant forall i :: 0 <= i < n ==> lines[i] != ""
      invariant data == SliceRows(lines[..n], columns)
    {
      var line := lines[n];
      if line == "" {
        break;
      }
      var row := SliceLine(line, columns);
      ghost var prev := n;
      data := data + [row];
      n := n + 1;
      SliceRowsSnoc(lines, columns, prev, n);
    }
    DataLinesExact(lines, n);
  }

  // ---------------------------------------------------------------------------
  // Properties of `_read_status`

  /**
   * Output with no line break at all (the empty string included) splits into
   * a single line and is rejected as too short; with a line break it is not.
   */
  lemma RejectsSingleLine(stdout: string)
    ensures StatusRows(true, stdout) == Err(OutputTooShort) <==> '\n' !in stdout
  {
    SplitCount(stdout, '\n');
  }

  /**
   * A table yields one row per data line, in order, up to the first empty line
   * (the lines after it are ignored); every row has exactly the header's column
   * names as keys.
   */
  lemma RowsFollowLines(lines: seq<string>)
    requires |lines| >= 2
    ensures var rows := TableRows(lines);
      var cols := HeaderColumns(lines[1]);
      2 + |rows| <= |lines| && (2 + |rows| == |lines| || lines[2 + |rows|] == "")
      && forall i :: 0 <= i < |rows| ==>
           lines[2 + i] != "" && rows[i] == SliceRow(lines[2 + i], cols)
           && (forall k :: k in rows[i] <==> exists j :: 0 <= j < |cols| && cols[j].name == k)
  {
    var body := DataLines(lines[2..]);
    var cols := HeaderColumns(lines[1]);
    DataLinesShape(lines[2..]);
    forall i | 0 <= i < |body|
      ensures lines[2 + i] == body[i] && SliceRows(body, cols)[i] == SliceRow(body[i], cols)
      ensures forall k :: k in SliceRow(body[i], cols) <==> exists j :: 0 <= j < |cols| && cols[j].name == k
    {
      assert body[i] == lines[2..][i];
      SliceRowsAt(body, cols, i);
      SliceRowKeys(body[i], cols);
      forall k ensures k in ColumnNames(cols) <==> exists j :: 0 <= j < |cols| && cols[j].name == k {
        ColumnNamesMembers(cols, k);
      }
    }
  }
}
