/** The latency matrix as the controller writes it to CSV and as the topology side reads it back. */
module LatencyCsv {
  import opened Common
  import opened LatencyMatrices
  import opened Numbers

  const INT64_LIMIT: int := 0x8000_0000_0000_0000

  datatype LatencyResult =
    LatencyResult(initiatorId: nat, responderId: nat, avgLatencyNs: nat,
                  minLatencyNs: nat, maxLatencyNs: nat, success: bool)

  type Cells = seq<seq<int>>

  /** An unsigned 64-bit number read as a signed one. */
  function ToInt64(x: nat): (v: int)
    ensures -INT64_LIMIT <= v < INT64_LIMIT
  {
    if x % UINT64 < INT64_LIMIT then x % UINT64 else x % UINT64 - UINT64
  }

  /** Below 2^63 the number itself, from there on what is missing to 2^64, negated. */
  lemma ToInt64Exact(x: nat)
    ensures x < INT64_LIMIT ==> ToInt64(x) == x
    ensures INT64_LIMIT <= x < UINT64 ==> ToInt64(x) == x - UINT64
  {
  }

  // ----- filling the matrix

  predicate Concerns(r: LatencyResult, i: nat, j: nat) {
    r.success && ((r.initiatorId == i && r.responderId == j) || (r.initiatorId == j && r.responderId == i))
  }

  /** The last successful measurement of a pair, in either direction; zero if there is none. */
  function Latest(results: seq<LatencyResult>, i: nat, j: nat): (v: int)
    ensures -INT64_LIMIT <= v < INT64_LIMIT
  {
    if results == [] then 0
    else
      var r := results[|results| - 1];
      if Concerns(r, i, j) then ToInt64(r.avgLatencyNs) else Latest(results[..|results| - 1], i, j)
  }

  /** The whole table of latest measurements. */
  function LatestTable(n: nat, results: seq<LatencyResult>): (cells: Cells)
    ensures |cells| == n && forall i | 0 <= i < n :: |cells[i]| == n
    ensures forall i, j | 0 <= i < n && 0 <= j < n :: cells[i][j] == Latest(results, i, j)
  {
    seq(n, (i: nat) => seq(n, (j: nat) => Latest(results, i, j)))
  }

  function SetCell(cells: Cells, i: nat, j: nat, v: int): Cells
    requires i < |cells| && j < |cells[i]|
  {
    cells[i := cells[i][j := v]]
  }

  method FillMatrix(n: nat, results: seq<LatencyResult>) returns (cells: Cells)
    ensures cells == LatestTable(n, results)
  {
    cells := seq(n, _ => seq(n, _ => 0));
    for k := 0 to |results|
      invariant |cells| == n && forall i | 0 <= i < n :: |cells[i]| == n
      invariant forall i, j | 0 <= i < n && 0 <= j < n :: cells[i][j] == Latest(results[..k], i, j)
    {
      var r := results[k];
      assert results[..k + 1][..k] == results[..k];
      if r.success && r.initiatorId < n && r.responderId < n {
        var latency := ToInt64(r.avgLatencyNs);
        cells := SetCell(cells, r.initiatorId, r.responderId, latency);
        cells := SetCell(cells, r.responderId, r.initiatorId, latency);
      }
    }
    assert results[..|results|] == results;
    assert forall i | 0 <= i < n :: cells[i] == LatestTable(n, results)[i];
  }

  /** The cell of a pair holds its last successful measurement, in either direction. */
  lemma {:induction false} LatestExact(results: seq<LatencyResult>, i: nat, j: nat, k: nat)
    requires k < |results| && results[k].success
    requires (results[k].initiatorId == i && results[k].responderId == j)
      || (results[k].initiatorId == j && results[k].responderId == i)
    requires forall m | k < m < |results| && results[m].success ::
      !(results[m].initiatorId == i && results[m].responderId == j)
      && !(results[m].initiatorId == j && results[m].responderId == i)
    ensures results[k].avgLatencyNs < INT64_LIMIT ==> Latest(results, i, j) == results[k].avgLatencyNs
    ensures INT64_LIMIT <= results[k].avgLatencyNs < UINT64 ==>
      Latest(results, i, j) == results[k].avgLatencyNs - UINT64
  {
    if k < |results| - 1 {
      LatestExact(results[..|results| - 1], i, j, k);
    }
  }

  /** ... and zero if there is none. */
  lemma {:induction false} UnmeasuredIsZero(results: seq<LatencyResult>, i: nat, j: nat)
    requires forall r | r in results && r.success ::
      !(r.initiatorId == i && r.responderId == j) && !(r.initiatorId == j && r.responderId == i)
    ensures Latest(results, i, j) == 0
  {
    if results != [] {
      var most := results[..|results| - 1];
      assert forall r | r in most :: r in results;
      UnmeasuredIsZero(most, i, j);
      assert results[|results| - 1] in results;
    }
  }

  /** A measurement of zero counts as none; any other cell is one of the stored results. */
  lemma {:induction false} LatestIsStored(results: seq<LatencyResult>, i: nat, j: nat)
    ensures Latest(results, i, j) == 0
      || exists r | r in results :: Concerns(r, i, j) && Latest(results, i, j) == ToInt64(r.avgLatencyNs)
           && (r.avgLatencyNs < INT64_LIMIT ==> Latest(results, i, j) == r.avgLatencyNs)
  {
    if results != [] && !Concerns(results[|results| - 1], i, j) {
      var most := results[..|results| - 1];
      LatestIsStored(most, i, j);
      assert forall r | r in most :: r in results;
    }
  }

  /** The matrix does not depend on which of the two agents initiated a test. */
  lemma {:induction false} LatestSymmetric(results: seq<LatencyResult>, i: nat, j: nat)
    ensures Latest(results, i, j) == Latest(results, j, i)
  {
    if results != [] {
      LatestSymmetric(results[..|results| - 1], i, j);
    }
  }

  // ----- text

  function RowText(row: seq<int>): string {
    if row == [] then ""
    else if |row| == 1 then Decimal(row[0])
    else Decimal(row[0]) + "," + RowText(row[1..])
  }

  function LineText(row: seq<int>): string {
    RowText(row) + "\n"
  }

  function RowsText(cells: Cells): string {
    if cells == [] then "" else LineText(cells[0]) + RowsText(cells[1..])
  }

  const TITLE := "# Latency matrix (nanoseconds) - symmetric"
  // in two halves, each short enough for the solver to look into
  const LEGEND := "# Row i, Column j" + " = RTT latency between node i and node j"

  lemma {:induction false} RowTextSnoc(row: seq<int>, z: int)
    requires row != []
    ensures RowText(row + [z]) == RowText(row) + "," + Decimal(z)
  {
    hide Decimal;
    if |row| > 1 {
      RowTextSnoc(row[1..], z);
      assert (row + [z])[1..] == row[1..] + [z];
      var head, tail := Decimal(row[0]) + ",", RowText(row[1..]);
      Associate(head, tail + ",", Decimal(z));
      Associate(head, tail, ",");
    } else {
      assert (row + [z])[1..] == [z];
    }
  }

  lemma {:induction false} RowsTextSnoc(cells: Cells, row: seq<int>)
    ensures RowsText(cells + [row]) == RowsText(cells) + LineText(row)
  {
    if cells != [] {
      var rest := cells[1..];
      RowsTextSnoc(rest, row);
      assert (cells + [row])[1..] == rest + [row];
      Associate(LineText(cells[0]), RowsText(rest), LineText(row));
    } else {
      assert ([row])[1..] == [];
      assert RowsText([]) == "";
      assert LineText(row) + "" == LineText(row) == "" + LineText(row);
    }
  }

  lemma Associate(a: string, b: string, c: string)
    ensures a + (b + c) == (a + b) + c
  {
  }

  /** The text of a table: two comment lines, then one line a row. */
  function CsvText(cells: Cells): string {
    TITLE + "\n" + (LEGEND + "\n" + RowsText(cells))
  }

  method WriteCsv(n: nat, results: seq<LatencyResult>) returns (text: string)
    ensures text == CsvText(LatestTable(n, results))
  {
    var matrix := FillMatrix(n, results);
    var rows := WriteRows(matrix);
    text := TITLE + "\n" + (LEGEND + "\n" + rows);
  }

  method WriteRows(matrix: Cells) returns (text: string)
    ensures text == RowsText(matrix)
  {
    hide RowText;
    text := "";
    for i := 0 to |matrix|
      invariant text == RowsText(matrix[..i])
    {
      var line := WriteRow(matrix[i]);
      RowsTextSnoc(matrix[..i], matrix[i]);
      assert matrix[..i + 1] == matrix[..i] + [matrix[i]];
      text := text + (line + "\n");
    }
    assert matrix[..|matrix|] == matrix;
  }

  method WriteRow(row: seq<int>) returns (line: string)
    ensures line == RowText(row)
  {
    line := "";
    for j := 0 to |row|
      invariant line == RowText(row[..j])
    {
      assert row[..j + 1] == row[..j] + [row[j]];
      if j > 0 {
        RowTextSnoc(row[..j], row[j]);
        line := line + ",";
      }
      line := line + Decimal(row[j]);
    }
    assert row[..|row|] == row;
  }

  // ----- reading

  /** The position of the first separator at or after i, or the length of the text. */
  function IndexFrom(s: string, sep: char, i: nat): (k: nat)
    requires i <= |s|
    ensures i <= k <= |s| && (k < |s| ==> s[k] == sep) && forall m | i <= m < k :: s[m] != sep
    decreases |s| - i
  {
    if i == |s| || s[i] == sep then i else IndexFrom(s, sep, i + 1)
  }

  /** Pieces between separators; nothing follows a separator at the very end. */
  function Split(s: string, sep: char): seq<string>
    decreases |s|
  {
    if s == "" then []
    else
      var k := IndexFrom(s, sep, 0);
      if k == |s| then [s] else [s[..k]] + Split(s[k + 1..], sep)
  }

  predicate Blank(c: char) { c == ' ' || c == '\t' }

  function TrimLeft(s: string): string {
    if s != "" && Blank(s[0]) then TrimLeft(s[1..]) else s
  }

  function TrimRight(s: string): string {
    if s != "" && Blank(s[|s| - 1]) then TrimRight(s[..|s| - 1]) else s
  }

  function Trim(s: string): string { TrimRight(TrimLeft(s)) }

  /** Trimming takes away exactly the spaces and tabs at both ends. */
  lemma {:induction false} TrimLeftExact(s: string) returns (a: nat)
    ensures a <= |s| && TrimLeft(s) == s[a..] && forall k | 0 <= k < a :: s[k] == ' ' || s[k] == '\t'
    ensures a < |s| ==> s[a] != ' ' && s[a] != '\t'
  {
    a := 0;
    if s != "" && Blank(s[0]) {
      a := TrimLeftExact(s[1..]);
      a := a + 1;
      assert s[1..][a - 1..] == s[a..];
    }
  }

  lemma {:induction false} TrimRightExact(s: string) returns (b: nat)
    ensures b <= |s| && TrimRight(s) == s[..b] && forall k | b <= k < |s| :: s[k] == ' ' || s[k] == '\t'
    ensures b > 0 ==> s[b - 1] != ' ' && s[b - 1] != '\t'
    decreases |s|
  {
    b := |s|;
    if s != "" && Blank(s[|s| - 1]) {
      b := TrimRightExact(s[..|s| - 1]);
      assert s[..|s| - 1][..b] == s[..b];
    } else {
      assert s[..|s|] == s;
    }
  }

  lemma TrimExact(s: string) returns (a: nat, b: nat)
    ensures a <= b <= |s| && Trim(s) == s[a..b]
    ensures forall k | 0 <= k < a || b <= k < |s| :: s[k] == ' ' || s[k] == '\t'
    ensures a < b ==> s[a] != ' ' && s[a] != '\t' && s[b - 1] != ' ' && s[b - 1] != '\t'
  {
    a := TrimLeftExact(s);
    var rest := s[a..];
    b := TrimRightExact(rest);
    assert forall k | b <= k < |rest| :: rest[k] == s[a + k];
    b := a + b;
  }

  predicate Skipped(line: string) {
    TrimLeft(line) == "" || TrimLeft(line)[0] == '#'
  }

  /** Skipped are the lines whose first character other than spaces and tabs is a number sign, and those
      without any. */
  lemma SkippedExact(line: string, a: nat)
    requires a <= |line| && forall k | 0 <= k < a :: line[k] == ' ' || line[k] == '\t'
    requires a < |line| ==> line[a] != ' ' && line[a] != '\t'
    ensures Skipped(line) <==> a == |line| || line[a] == '#'
  {
    var b := TrimLeftExact(line);
    assert a == b;
    assert a < |line| ==> line[a..][0] == line[a];
  }

  /** Numbers of a row; the conversion of a cell to a number is the library's. */
  function ParseCells(cells: seq<string>, stod: string -> Option<real>): Result<seq<real>> {
    if cells == [] then Ok([])
    else
      match ParseCells(cells[..|cells| - 1], stod)
      case Err(e) => Err(e)
      case Ok(row) =>
        var trimmed := Trim(cells[|cells| - 1]);
        if trimmed == "" then Err("Empty cell")
        else match stod(trimmed)
             case None => Err("Invalid numeric value")
             case Some(v) => Ok(row + [v])
  }

  function ParseLines(lines: seq<string>, stod: string -> Option<real>): Result<seq<seq<real>>> {
    if lines == [] then Ok([])
    else
      match ParseLines(lines[..|lines| - 1], stod)
      case Err(e) => Err(e)
      case Ok(rows) =>
        var line := lines[|lines| - 1];
        if Skipped(line) then Ok(rows)
        else match ParseCells(Split(line, ','), stod)
             case Err(e) => Err(e)
             case Ok(row) => Ok(if row == [] then rows else rows + [row])
  }

  predicate SquareRows(rows: seq<seq<real>>) {
    forall i | 0 <= i < |rows| :: |rows[i]| == |rows|
  }

  /** What a text means: a square, non-empty table of numbers, or an error. */
  function ParseCsv(text: string, stod: string -> Option<real>): Result<seq<seq<real>>> {
    match ParseLines(Split(text, '\n'), stod)
    case Err(e) => Err(e)
    case Ok(rows) =>
      if rows == [] then Err("Empty CSV file")
      else if !SquareRows(rows) then Err("Matrix is not square")
      else Ok(rows)
  }

  /** The cell is no number once trimmed. */
  predicate BadCell(cell: string, stod: string -> Option<real>) {
    Trim(cell) == "" || stod(Trim(cell)).None?
  }

  /** A row is read if and only if every cell, trimmed, is a number; then it is the row of these
      numbers. */
  lemma {:induction false} RowReadIff(cells: seq<string>, stod: string -> Option<real>)
    ensures ParseCells(cells, stod).Ok? <==> forall k | 0 <= k < |cells| :: !BadCell(cells[k], stod)
    ensures ParseCells(cells, stod).Ok? ==> |ParseCells(cells, stod).value| == |cells|
    ensures ParseCells(cells, stod).Ok? ==>
      forall k | 0 <= k < |cells| :: stod(Trim(cells[k])) == Some(ParseCells(cells, stod).value[k])
  {
    hide Trim;
    if cells != [] {
      var most := cells[..|cells| - 1];
      RowReadIff(most, stod);
      assert forall k | 0 <= k < |most| :: most[k] == cells[k];
    }
  }

  /** The first cell that is not a number decides the error. */
  lemma {:induction false} FirstBadCellDecides(cells: seq<string>, stod: string -> Option<real>, k: nat)
    requires k < |cells| && BadCell(cells[k], stod) && forall m | 0 <= m < k :: !BadCell(cells[m], stod)
    ensures ParseCells(cells, stod) == Err(if Trim(cells[k]) == "" then "Empty cell" else "Invalid numeric value")
  {
    hide Trim;
    var most := cells[..|cells| - 1];
    if k < |most| {
      FirstBadCellDecides(most, stod, k);
    } else {
      RowReadIff(most, stod);
    }
  }

  /** Rows of two lists of lines follow each other, and the first error counts. */
  lemma {:induction false} ParseLinesAppend(a: seq<string>, b: seq<string>, stod: string -> Option<real>)
    ensures ParseLines(a, stod).Err? ==> ParseLines(a + b, stod) == ParseLines(a, stod)
    ensures ParseLines(a, stod).Ok? && ParseLines(b, stod).Err? ==> ParseLines(a + b, stod) == ParseLines(b, stod)
    ensures ParseLines(a, stod).Ok? && ParseLines(b, stod).Ok? ==>
      ParseLines(a + b, stod) == Ok(ParseLines(a, stod).value + ParseLines(b, stod).value)
    decreases |b|
  {
    hide Skipped, Split, ParseCells;
    if b == [] {
      assert a + b == a;
      assert ParseLines(a, stod).Ok? ==> ParseLines(a, stod).value + [] == ParseLines(a, stod).value;
    } else {
      var most, last := b[..|b| - 1], b[|b| - 1];
      ParseLinesAppend(a, most, stod);
      assert (a + b)[..|a + b| - 1] == a + most && (a + b)[|a + b| - 1] == last;
      if ParseLines(a, stod).Ok? && ParseLines(most, stod).Ok? && ParseLines(b, stod).Ok? && !Skipped(last) {
        var row := ParseCells(Split(last, ','), stod).value;
        AppendRow(ParseLines(a, stod).value, ParseLines(most, stod).value, row);
      }
    }
  }

  lemma AppendRow(a: seq<seq<real>>, b: seq<seq<real>>, row: seq<real>)
    ensures a + (b + [row]) == (a + b) + [row]
  {
  }

  /** One line: a comment or blank line gives nothing, any other the numbers between its commas. */
  lemma ParseOneLine(line: string, stod: string -> Option<real>)
    ensures ParseLines([], stod) == Ok([])
    ensures ParseLines([line], stod) ==
      if Skipped(line) then Ok([])
      else match ParseCells(Split(line, ','), stod)
           case Err(e) => Err(e)
           case Ok(row) => Ok(if row == [] then [] else [row])
  {
    hide Skipped, Split, ParseCells;
    assert [line][..0] == [];
    assert forall row: seq<real> :: [] + [row] == [row];
  }

  /** The matrix stores exactly these averages. */
  ghost predicate HoldsRows(m: LatencyMatrix, rows: seq<seq<real>>)
    reads m
  {
    && m.Valid() && m.numNodes == |rows| && SquareRows(rows)
    && forall i, j | 0 <= i < |rows| && 0 <= j < |rows| ::
      m.data[i][j] == LatencyEntry(rows[i][j], rows[i][j], rows[i][j], 0.0, 0)
  }

  method ReadRow(line: string, stod: string -> Option<real>) returns (row: Result<seq<real>>)
    ensures row == ParseCells(Split(line, ','), stod)
  {
    var cells := Split(line, ',');
    var values: seq<real> := [];
    for k := 0 to |cells|
      invariant ParseCells(cells[..k], stod) == Ok(values)
    {
      assert cells[..k + 1][..k] == cells[..k];
      var trimmed := Trim(cells[k]);
      if trimmed == "" {
        ErrorStaysInRow(cells, k + 1, stod);
        return Err("Empty cell");
      }
      var value := stod(trimmed);
      if value.None? {
        ErrorStaysInRow(cells, k + 1, stod);
        return Err("Invalid numeric value");
      }
      values := values + [value.value];
    }
    assert cells[..|cells|] == cells;
    return Ok(values);
  }

  lemma {:induction false} ErrorStaysInRow(cells: seq<string>, k: nat, stod: string -> Option<real>)
    requires k <= |cells| && ParseCells(cells[..k], stod).Err?
    ensures ParseCells(cells, stod) == ParseCells(cells[..k], stod)
    decreases |cells|
  {
    if k < |cells| {
      var shorter := cells[..|cells| - 1];
      assert shorter[..k] == cells[..k];
      ErrorStaysInRow(shorter, k, stod);
    } else {
      assert cells[..k] == cells;
    }
  }

  lemma {:induction false} ErrorStays(lines: seq<string>, k: nat, stod: string -> Option<real>)
    requires k <= |lines| && ParseLines(lines[..k], stod).Err?
    ensures ParseLines(lines, stod) == ParseLines(lines[..k], stod)
    decreases |lines|
  {
    if k < |lines| {
      var shorter := lines[..|lines| - 1];
      assert shorter[..k] == lines[..k];
      ErrorStays(shorter, k, stod);
    } else {
      assert lines[..k] == lines;
    }
  }

  method ReadRows(text: string, stod: string -> Option<real>) returns (rows: Result<seq<seq<real>>>)
    ensures rows == ParseLines(Split(text, '\n'), stod)
  {
    var lines := Split(text, '\n');
    var table: seq<seq<real>> := [];
    for k := 0 to |lines|
      invariant ParseLines(lines[..k], stod) == Ok(table)
    {
      assert lines[..k + 1][..k] == lines[..k];
      var line := lines[k];
      if Skipped(line) { continue; }
      var row := ReadRow(line, stod);
      if row.Err? {
        ErrorStays(lines, k + 1, stod);
        return Err(row.message);
      }
      if row.value != [] {
        table := table + [row.value];
      }
    }
    assert lines[..|lines|] == lines;
    return Ok(table);
  }

  /** Loads a matrix from CSV text, or says why the text is refused. */
  method FromCsv(text: string, stod: string -> Option<real>) returns (r: Result<LatencyMatrix>)
    ensures r.Ok? <==> ParseCsv(text, stod).Ok?
    ensures r.Err? ==> r.message == ParseCsv(text, stod).message
    ensures r.Ok? ==> fresh(r.value) && r.value.Valid()
    ensures r.Ok? ==> HoldsRows(r.value, ParseCsv(text, stod).value)
  {
    var parsed := ReadRows(text, stod);
    if parsed.Err? {
      return Err(parsed.message);
    }
    var rows := parsed.value;
    if rows == [] {
      return Err("Empty CSV file");
    }
    var n := |rows|;
    for i := 0 to n
      invariant forall k | 0 <= k < i :: |rows[k]| == n
    {
      if |rows[i]| != n {
        return Err("Matrix is not square");
      }
    }
    var matrix := new LatencyMatrix(n);
    matrix.Fill(rows);
    return Ok(matrix);
  }

  // ----- the round trip

  lemma {:induction false} IndexSkips(piece: string, sep: char, rest: string, i: nat)
    requires i <= |piece| && sep !in piece
    ensures IndexFrom(piece + [sep] + rest, sep, i) == |piece|
    decreases |piece| - i
  {
    if i < |piece| {
      assert (piece + [sep] + rest)[i] == piece[i];
      IndexSkips(piece, sep, rest, i + 1);
    }
  }

  /** A piece without separators is split off whole. */
  lemma SplitPiece(piece: string, sep: char, rest: string)
    requires sep !in piece
    ensures Split(piece + [sep] + rest, sep) == [piece] + Split(rest, sep)
  {
    var s := piece + [sep] + rest;
    IndexSkips(piece, sep, rest, 0);
    assert s[..|piece|] == piece && s[|piece| + 1..] == rest;
  }

  /** What splitting at a separator is, for every text. */
  lemma SplitExact(piece: string, sep: char, rest: string)
    requires sep !in piece
    ensures Split("", sep) == []
    ensures piece != "" ==> Split(piece, sep) == [piece]
    ensures Split(piece + [sep] + rest, sep) == [piece] + Split(rest, sep)
  {
    SplitPiece(piece, sep, rest);
    if piece != "" {
      SplitWhole(piece, sep);
    }
  }

  lemma SplitWhole(piece: string, sep: char)
    requires sep !in piece && piece != ""
    ensures Split(piece, sep) == [piece]
  {
    assert IndexFrom(piece, sep, 0) == |piece|;
  }

  /** The characters a number is written with. */
  predicate Plain(s: string) {
    s != "" && forall k | 0 <= k < |s| :: s[k] == '-' || '0' <= s[k] <= '9'
  }

  lemma DecimalIsPlain(z: int)
    ensures Plain(Decimal(z)) && ',' !in Decimal(z) && '\n' !in Decimal(z) && Trim(Decimal(z)) == Decimal(z)
  {
    var s := Decimal(z);
    assert Plain(s);
    assert forall k | 0 <= k < |s| :: s[k] != ',' && s[k] != '\n' && !Blank(s[k]);
  }

  function CellTexts(row: seq<int>): seq<string> {
    seq(|row|, j requires 0 <= j < |row| => Decimal(row[j]))
  }

  lemma OneMoreCell(cells: seq<string>, cell: string, stod: string -> Option<real>)
    requires ParseCells(cells, stod).Ok? && Trim(cell) != "" && stod(Trim(cell)).Some?
    ensures ParseCells(cells + [cell], stod) == Ok(ParseCells(cells, stod).value + [stod(Trim(cell)).value])
  {
    hide Trim;
    assert (cells + [cell])[..|cells|] == cells;
  }

  /** Splitting a written row gives back its cells. */
  lemma {:induction false} SplitRow(row: seq<int>)
    requires row != []
    ensures Split(RowText(row), ',') == CellTexts(row)
  {
    hide Decimal, Split, Trim;
    DecimalIsPlain(row[0]);
    if |row| == 1 {
      SplitWhole(Decimal(row[0]), ',');
      assert CellTexts(row) == [Decimal(row[0])];
    } else {
      SplitRow(row[1..]);
      SplitPiece(Decimal(row[0]), ',', RowText(row[1..]));
      assert CellTexts(row) == [Decimal(row[0])] + CellTexts(row[1..]);
    }
  }

  lemma {:induction false} RowTextPlain(row: seq<int>)
    requires row != []
    ensures RowText(row) != "" && '\n' !in RowText(row) && RowText(row)[0] == Decimal(row[0])[0]
  {
    DecimalIsPlain(row[0]);
    if |row| > 1 {
      RowTextPlain(row[1..]);
    }
  }

  /** The numbers of a row as the doubles they are read back as. */
  function Reals(row: seq<int>): seq<real> {
    seq(|row|, j requires 0 <= j < |row| => ToDouble(row[j]) as real)
  }

  predicate Writable(row: seq<int>) {
    forall j | 0 <= j < |row| :: Abs(row[j]) < UINT64
  }

  lemma LastCell(row: seq<int>)
    requires row != []
    ensures var most, last := row[..|row| - 1], row[|row| - 1];
      CellTexts(row) == CellTexts(most) + [Decimal(last)] && Reals(row) == Reals(most) + [ToDouble(last) as real]
  {
    hide Decimal;
  }

  lemma {:induction false} CellsReadBack(row: seq<int>, stod: string -> Option<real>)
    requires ConvertsIntegers(stod) && Writable(row)
    ensures ParseCells(CellTexts(row), stod) == Ok(Reals(row))
  {
    if row == [] {
      assert CellTexts(row) == [] && Reals(row) == [];
    } else {
      hide Decimal, Trim, ParseCells, CellTexts, Reals, ConvertsIntegers, ToDouble;
      var most, last := row[..|row| - 1], row[|row| - 1];
      CellsReadBack(most, stod);
      DecimalIsPlain(last);
      ConvertsDecimal(stod, last);
      LastCell(row);
      OneMoreCell(CellTexts(most), Decimal(last), stod);
    }
  }

  lemma NotSkipped(line: string)
    requires line != "" && !Blank(line[0]) && line[0] != '#'
    ensures !Skipped(line)
  {
    assert TrimLeft(line) == line;
  }

  lemma DecimalStart(z: int)
    ensures Decimal(z) != "" && !Blank(Decimal(z)[0]) && Decimal(z)[0] != '#'
  {
  }

  lemma WrittenRowReadsBack(row: seq<int>, stod: string -> Option<real>)
    requires row != [] && ConvertsIntegers(stod) && Writable(row)
    ensures !Skipped(RowText(row)) && ParseCells(Split(RowText(row), ','), stod) == Ok(Reals(row))
  {
    hide RowText, Decimal, Skipped, Split, ParseCells, CellTexts, Reals, ConvertsIntegers, Writable;
    RowTextPlain(row);
    DecimalStart(row[0]);
    NotSkipped(RowText(row));
    SplitRow(row);
    CellsReadBack(row, stod);
  }

  function RowTexts(cells: Cells): seq<string> {
    seq(|cells|, i requires 0 <= i < |cells| => RowText(cells[i]))
  }

  lemma FirstLine(cells: Cells)
    requires cells != []
    ensures RowsText(cells) == RowText(cells[0]) + ['\n'] + RowsText(cells[1..])
    ensures RowTexts(cells) == [RowText(cells[0])] + RowTexts(cells[1..])
  {
    hide RowText;
  }

  lemma {:induction false} SplitRows(cells: Cells)
    requires forall i | 0 <= i < |cells| :: cells[i] != []
    ensures Split(RowsText(cells), '\n') == RowTexts(cells)
  {
    if cells == [] {
      assert RowTexts(cells) == [];
    } else {
      hide RowText, RowsText, RowTexts, Split, Decimal;
      FirstLine(cells);
      RowTextPlain(cells[0]);
      SplitRows(cells[1..]);
      SplitPiece(RowText(cells[0]), '\n', RowsText(cells[1..]));
    }
  }

  function RealTable(cells: Cells): seq<seq<real>> {
    seq(|cells|, i requires 0 <= i < |cells| => Reals(cells[i]))
  }

  /** Rows after lines that hold no numbers. */
  lemma {:induction false} LinesReadBack(start: seq<string>, cells: Cells, stod: string -> Option<real>)
    requires ParseLines(start, stod) == Ok([])
    requires ConvertsIntegers(stod) && forall i | 0 <= i < |cells| :: cells[i] != [] && Writable(cells[i])
    ensures ParseLines(start + RowTexts(cells), stod) == Ok(RealTable(cells))
  {
    if cells == [] {
      assert start + RowTexts(cells) == start && RealTable(cells) == [];
    } else {
      var most, last := cells[..|cells| - 1], cells[|cells| - 1];
      LinesReadBack(start, most, stod);
      WrittenRowReadsBack(last, stod);
      LastRow(start, cells);
      OneMoreLine(start + RowTexts(most), RowText(last), stod);
    }
  }

  lemma LastRow(start: seq<string>, cells: Cells)
    requires cells != [] && cells[|cells| - 1] != []
    ensures var most, last := cells[..|cells| - 1], cells[|cells| - 1];
      && start + RowTexts(cells) == (start + RowTexts(most)) + [RowText(last)]
      && RealTable(cells) == RealTable(most) + [Reals(last)] && Reals(last) != []
  {
    hide RowText;
    var most, last := cells[..|cells| - 1], cells[|cells| - 1];
    assert RowTexts(cells) == RowTexts(most) + [RowText(last)];
    assert |Reals(last)| == |last|;
  }

  lemma OneMoreLine(lines: seq<string>, line: string, stod: string -> Option<real>)
    requires ParseLines(lines, stod).Ok? && !Skipped(line) && ParseCells(Split(line, ','), stod).Ok?
    requires ParseCells(Split(line, ','), stod).value != []
    ensures ParseLines(lines + [line], stod)
      == Ok(ParseLines(lines, stod).value + [ParseCells(Split(line, ','), stod).value])
  {
    assert (lines + [line])[..|lines|] == lines;
  }

  lemma CommentsOnly(a: string, b: string, stod: string -> Option<real>)
    requires Skipped(a) && Skipped(b)
    ensures ParseLines([a, b], stod) == Ok([])
  {
    assert [a, b][..1] == [a] && [a][..0] == [];
    assert ParseLines([a], stod) == Ok([]);
  }

  lemma CommentLines()
    ensures Skipped(TITLE) && Skipped(LEGEND) && '\n' !in TITLE && '\n' !in LEGEND
  {
    assert '\n' !in "# Row i, Column j" && '\n' !in " = RTT latency between node i and node j";
    assert TITLE[0] == '#' && LEGEND[0] == '#';
  }

  /** Reading a written table of at least one row gives the doubles nearest to its numbers. */
  lemma CsvRoundTrip(cells: Cells, stod: string -> Option<real>)
    requires cells != [] && forall i | 0 <= i < |cells| :: |cells[i]| == |cells| && Writable(cells[i])
    requires ConvertsIntegers(stod)
    ensures ParseCsv(CsvText(cells), stod) == Ok(RealTable(cells))
  {
    CommentLines();
    SplitText(TITLE, LEGEND, cells);
    CommentsOnly(TITLE, LEGEND, stod);
    LinesReadBack([TITLE, LEGEND], cells, stod);
  }

  /** ... which are the numbers themselves if and only if each has at most 53 significant bits. */
  lemma CsvExactIff(cells: Cells)
    ensures (forall i, j | 0 <= i < |cells| && 0 <= j < |cells[i]| :: RealTable(cells)[i][j] == cells[i][j] as real)
      <==> forall i, j | 0 <= i < |cells| && 0 <= j < |cells[i]| :: Representable(cells[i][j])
  {
    forall i, j | 0 <= i < |cells| && 0 <= j < |cells[i]|
      ensures RealTable(cells)[i][j] == cells[i][j] as real <==> Representable(cells[i][j])
    {
      ToDoubleExactIff(cells[i][j]);
    }
    hide Representable, ToDouble;
  }

  lemma SplitText(a: string, b: string, cells: Cells)
    requires '\n' !in a && '\n' !in b && forall i | 0 <= i < |cells| :: cells[i] != []
    ensures Split(a + "\n" + (b + "\n" + RowsText(cells)), '\n') == [a, b] + RowTexts(cells)
  {
    hide Split, RowsText, RowTexts;
    SplitRows(cells);
    SplitPiece(b, '\n', RowsText(cells));
    SplitPiece(a, '\n', b + "\n" + RowsText(cells));
    assert [a] + ([b] + RowTexts(cells)) == [a, b] + RowTexts(cells);
  }

  /** With no agents the written file holds no row and is refused. */
  lemma EmptyTableRefused(stod: string -> Option<real>)
    ensures ParseCsv(CsvText([]), stod) == Err("Empty CSV file")
  {
    CommentLines();
    SplitText(TITLE, LEGEND, []);
    CommentsOnly(TITLE, LEGEND, stod);
    hide Split, Skipped, ParseLines;
    assert [TITLE, LEGEND] + RowTexts([]) == [TITLE, LEGEND];
  }

  /** The measured latencies as the distances that the topology side reads them as. */
  function MeasuredTable(n: nat, results: seq<LatencyResult>): Table {
    RealTable(LatestTable(n, results))
  }

  /** The matrix that the topology side loads from the controller's file has as its entries the
      doubles nearest to the controller's latencies and, being symmetric, as its distances. */
  method WriteThenRead(n: nat, results: seq<LatencyResult>, stod: string -> Option<real>) returns (m: LatencyMatrix)
    requires n > 0 && ConvertsIntegers(stod)
    ensures fresh(m) && m.Valid() && m.numNodes == n
    ensures forall i, j | 0 <= i < n && 0 <= j < n :: m.data[i][j].avgNs == ToDouble(Latest(results, i, j)) as real
    ensures m.Table() == MeasuredTable(n, results)
  {
    var text := WriteCsv(n, results);
    CsvRoundTrip(LatestTable(n, results), stod);
    hide ParseCsv, CsvText;
    var r := FromCsv(text, stod);
    m := r.value;
    MeasuredSymmetric(n, results);
    hide Latest, ToDouble, ConvertsIntegers, MeasuredTable;
    SymmetricRowsAreDistances(m, MeasuredTable(n, results));
  }

  lemma SymmetricRowsAreDistances(m: LatencyMatrix, rows: Table)
    requires HoldsRows(m, rows) && forall i, j | 0 <= i < |rows| && 0 <= j < |rows| :: rows[i][j] == rows[j][i]
    ensures m.Table() == rows
  {
    forall i: nat, j: nat | i < |rows| && j < |rows|
      ensures m.Table()[i][j] == rows[i][j]
    {
      assert m.data[i][j].avgNs == rows[i][j] && m.data[j][i].avgNs == rows[j][i];
    }
    assert forall i | 0 <= i < |rows| :: m.Table()[i] == rows[i];
  }

  lemma MeasuredSymmetric(n: nat, results: seq<LatencyResult>)
    ensures |MeasuredTable(n, results)| == n && forall i | 0 <= i < n :: |MeasuredTable(n, results)[i]| == n
    ensures forall i, j | 0 <= i < n && 0 <= j < n ::
      MeasuredTable(n, results)[i][j] == MeasuredTable(n, results)[j][i] == ToDouble(Latest(results, i, j)) as real
  {
    forall i: nat, j: nat | i < n && j < n
      ensures MeasuredTable(n, results)[i][j]
        == MeasuredTable(n, results)[j][i] == ToDouble(Latest(results, i, j)) as real
    {
      LatestSymmetric(results, i, j);
    }
  }

  /** No measured latency comes near the sentinel of the closest-pair scan. */
  lemma MeasuredBound(n: nat, results: seq<LatencyResult>, i: nat, j: nat)
    requires i < n && j < n
    ensures At(MeasuredTable(n, results), i, j) <= (2 * INT64_LIMIT + 1) as real
  {
    MeasuredSymmetric(n, results);
    ToDoubleBound(Latest(results, i, j), INT64_LIMIT);
  }

  /** A measured latency of up to 53 bits reaches the topology side unchanged: the distance of a pair is
      its last successful measurement. */
  lemma MeasuredIsLatest(n: nat, results: seq<LatencyResult>, i: nat, j: nat, k: nat)
    requires i < n && j < n && k < |results| && results[k].success && results[k].avgLatencyNs < SIGNIFICAND
    requires (results[k].initiatorId == i && results[k].responderId == j)
      || (results[k].initiatorId == j && results[k].responderId == i)
    requires forall m | k < m < |results| && results[m].success ::
      !(results[m].initiatorId == i && results[m].responderId == j)
      && !(results[m].initiatorId == j && results[m].responderId == i)
    ensures At(MeasuredTable(n, results), i, j) == results[k].avgLatencyNs as real
  {
    LatestExact(results, i, j, k);
    MeasuredSymmetric(n, results);
    ToDoubleExactIff(Latest(results, i, j));
  }
}
