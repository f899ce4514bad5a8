/**
 * Reading the grade table (extract_grades_from_pdf). The PDF extractor
 * hands over pages of tables of rows of cells; a header-detection state
 * machine remembers, for the whole run, which column holds the student
 * number, the name and the report grade, and every later row that can be
 * read through those columns and whose grade starts with a digit yields
 * one (student number, name, grade) entry.
 */
module GradeTable {
  import opened Wrappers
  import opened Text
  import opened Seqs

  /** A cell as the PDF extractor reports it: its text, or None for an empty cell. */
  type Cell = Option<string>
  type Row = seq<Cell>
  type Table = seq<Row>
  type Page = seq<Table>

  datatype Column = StudentId | Name | Grade

  datatype GradeEntry = GradeEntry(studentId: string, name: string, grade: string)

  /** Exceptions the extraction does not catch; they end the whole run. */
  datatype Crash =
    | TypeError       // `keyword in None` while looking for the header
    | AttributeError  // `None.strip()` on a data cell

  /** The loop state: the column-index map and the entries collected so far. */
  datatype Scan = Scan(indices: map<Column, nat>, grades: seq<GradeEntry>)

  const ID_KEYWORD: string := "学号"
  const NAME_KEYWORD: string := "姓名"
  const GRADE_KEYWORD: string := "实习报告"

  // ---------------------------------------------------------------------
  // Header detection

  /** The `if / elif / elif` chain applied to one header cell. */
  function Classify(text: string): Option<Column> {
    if Contains(text, ID_KEYWORD) then Some(StudentId)
    else if Contains(text, NAME_KEYWORD) then Some(Name)
    else if Contains(text, GRADE_KEYWORD) then Some(Grade)
    else None
  }

  /** Cell `i` of `row` is a text cell that the chain assigns to column `k`. */
  predicate Marks(row: Row, i: nat, k: Column) {
    i < |row| && row[i].Some? && Classify(row[i].value) == Some(k)
  }

  /** The scan of one row while no header is known: each marked cell sets its column's index. */
  function ScanHeader(row: Row): (r: Result<map<Column, nat>, Crash>)
    ensures r.Ok? ==> forall k :: k in r.value ==> r.value[k] < |row|
  {
    if row == [] then Ok(map[])
    else
      match ScanHeader(row[..|row| - 1])
      case Err(e) => Err(e)
      case Ok(m) =>
        var i := |row| - 1;
        match row[i]
        case None => Err(TypeError)
        case Some(text) =>
          match Classify(text)
          case None => Ok(m)
          case Some(k) => Ok(m[k := i])
  }

  /** A later marked cell overwrites an earlier one: each column keeps its LAST marked cell. */
  lemma {:induction false} HeaderLastMatchWins(row: Row)
    requires ScanHeader(row).Ok?
    ensures var m := ScanHeader(row).value;
      forall k :: (k in m <==> exists i: nat :: Marks(row, i, k))
               && (k in m ==> Marks(row, m[k], k) && forall j: nat :: m[k] < j ==> !Marks(row, j, k))
  {
    if row != [] {
      var n := |row| - 1;
      var front := row[..n];
      HeaderLastMatchWins(front);
      var m0 := ScanHeader(front).value;
      var m := ScanHeader(row).value;
      assert forall i: nat, k :: i < n ==> (Marks(front, i, k) <==> Marks(row, i, k));
      forall k
        ensures (k in m <==> exists i: nat :: Marks(row, i, k))
        ensures k in m ==> Marks(row, m[k], k) && forall j: nat :: m[k] < j ==> !Marks(row, j, k)
      {
        if Marks(row, n, k) {
          assert m == m0[k := n];
        } else {
          assert k in m <==> k in m0;
          if k in m0 {
            assert m[k] == m0[k];
            assert Marks(front, m0[k], k);
          }
          if exists i: nat :: Marks(row, i, k) {
            var i: nat :| Marks(row, i, k);
            assert Marks(front, i, k);
          }
        }
      }
    }
  }

  /** Because of the `elif` chain a cell containing the student-number keyword never sets another column. */
  lemma HeaderIdCellOnlySetsId(row: Row, k: Column)
    requires ScanHeader(row).Ok? && k in ScanHeader(row).value && k != StudentId
    ensures var m := ScanHeader(row).value; row[m[k]].Some? && !Contains(row[m[k]].value, ID_KEYWORD)
  {
    HeaderLastMatchWins(row);
  }

  /** Scanning a header candidate crashes exactly when one of its cells is None. */
  lemma {:induction false} HeaderCrashIffNoneCell(row: Row)
    ensures ScanHeader(row).Err? <==> exists i :: 0 <= i < |row| && row[i].None?
  {
    if row != [] {
      var n := |row| - 1;
      HeaderCrashIffNoneCell(row[..n]);
      assert forall i :: 0 <= i < n ==> row[..n][i] == row[i];
    }
  }

  lemma {:induction false} HeaderCrashPersists(row: Row, j: nat)
    requires j <= |row| && ScanHeader(row[..j]).Err?
    ensures ScanHeader(row) == ScanHeader(row[..j])
    decreases |row|
  {
    if j < |row| {
      var n := |row| - 1;
      assert row[..n][..j] == row[..j];
      HeaderCrashPersists(row[..n], j);
    } else {
      assert row[..j] == row;
    }
  }

  // ---------------------------------------------------------------------
  // Reading a data row (the try block)

  /** Column `k` is known, within the row, and holds text. */
  predicate ReadableAt(row: Row, m: map<Column, nat>, k: Column) {
    k in m && m[k] < |row| && row[m[k]].Some?
  }

  predicate Readable(row: Row, m: map<Column, nat>) {
    ReadableAt(row, m, StudentId) && ReadableAt(row, m, Name) && ReadableAt(row, m, Grade)
  }

  /** The three stripped fields of a readable row. */
  function EntryAt(row: Row, m: map<Column, nat>): GradeEntry
    requires Readable(row, m)
  {
    GradeEntry(Strip(row[m[StudentId]].value), Strip(row[m[Name]].value), Strip(row[m[Grade]].value))
  }

  /** `row[column_indices[k]].strip()`: KeyError and IndexError skip the row (Ok(None)); None crashes. */
  function Field(row: Row, m: map<Column, nat>, k: Column): Result<Option<string>, Crash> {
    if k !in m || m[k] >= |row| then Ok(None)
    else
      match row[m[k]]
      case None => Err(AttributeError)
      case Some(text) => Ok(Some(Strip(text)))
  }

  /** One data row: an entry, a skipped row (Ok(None)), or a crash. */
  function DataRow(row: Row, m: map<Column, nat>): Result<Option<GradeEntry>, Crash> {
    match Field(row, m, StudentId)
    case Err(e) => Err(e)
    case Ok(None) => Ok(None)
    case Ok(Some(id)) =>
      match Field(row, m, Name)
      case Err(e) => Err(e)
      case Ok(None) => Ok(None)
      case Ok(Some(name)) =>
        match Field(row, m, Grade)
        case Err(e) => Err(e)
        case Ok(None) => Ok(None)
        case Ok(Some(grade)) =>
          if StartsWithDigit(grade) then Ok(Some(GradeEntry(id, name, grade))) else Ok(None)
  }

  /** A row yields an entry only when all three columns are known, within the row and filled; the entry is the three stripped cells. */
  lemma DataRowYieldsEntry(row: Row, m: map<Column, nat>)
    ensures DataRow(row, m).Ok? && DataRow(row, m).value.Some? ==>
      Readable(row, m) && DataRow(row, m).value.value == EntryAt(row, m)
  {
    if DataRow(row, m).Ok? && DataRow(row, m).value.Some? {
      assert Field(row, m, StudentId).Ok? && Field(row, m, StudentId).value.Some?;
      assert Field(row, m, Name).Ok? && Field(row, m, Name).value.Some?;
      assert Field(row, m, Grade).Ok? && Field(row, m, Grade).value.Some?;
    }
  }

  /** A readable row yields its entry exactly when the stripped grade starts with a digit, and is skipped otherwise. */
  lemma DataRowOfReadable(row: Row, m: map<Column, nat>)
    requires Readable(row, m)
    ensures DataRow(row, m) == if StartsWithDigit(EntryAt(row, m).grade) then Ok(Some(EntryAt(row, m))) else Ok(None)
  {
    assert Field(row, m, StudentId) == Ok(Some(EntryAt(row, m).studentId));
    assert Field(row, m, Name) == Ok(Some(EntryAt(row, m).name));
    assert Field(row, m, Grade) == Ok(Some(EntryAt(row, m).grade));
  }

  // ---------------------------------------------------------------------
  // The row-by-row state machine

  function DataStep(s: Scan, row: Row): Result<Scan, Crash> {
    match DataRow(row, s.indices)
    case Err(e) => Err(e)
    case Ok(None) => Ok(s)
    case Ok(Some(entry)) => Ok(Scan(s.indices, s.grades + [entry]))
  }

  /** One row: look for the header while the map is empty, otherwise read data. */
  function Step(s: Scan, row: Row): Result<Scan, Crash> {
    if s.indices == map[] then
      match ScanHeader(row)
      case Err(e) => Err(e)
      case Ok(m) => if m != map[] then Ok(Scan(m, s.grades)) else DataStep(s, row)
    else DataStep(s, row)
  }

  /** The state before the first row: no header known, no entries. */
  const START: Scan := Scan(map[], [])

  /** The state after the given rows, in order. */
  function RunFrom(s: Scan, rows: seq<Row>): Result<Scan, Crash> {
    if rows == [] then Ok(s)
    else
      match RunFrom(s, rows[..|rows| - 1])
      case Err(e) => Err(e)
      case Ok(s') => Step(s', rows[|rows| - 1])
  }

  function RunRows(rows: seq<Row>): Result<Scan, Crash> {
    RunFrom(START, rows)
  }

  /** Reading two blocks of rows is reading the first, then the second from where it left off. */
  lemma {:induction false} RunFromAppend(s: Scan, a: seq<Row>, b: seq<Row>)
    ensures RunFrom(s, a + b) == match RunFrom(s, a) case Err(e) => Err(e) case Ok(s') => RunFrom(s', b)
    decreases |b|
  {
    if b == [] {
      assert a + b == a;
    } else {
      var n := |b| - 1;
      assert (a + b)[..|a + b| - 1] == a + b[..n];
      assert (a + b)[|a + b| - 1] == b[n];
      RunFromAppend(s, a, b[..n]);
    }
  }

  lemma RunRowsCrashPersists(a: seq<Row>, b: seq<Row>)
    requires a <= b && RunRows(a).Err?
    ensures RunRows(b) == RunRows(a)
  {
    assert b == a + b[|a|..];
    RunFromAppend(START, a, b[|a|..]);
  }

  // ---------------------------------------------------------------------
  // Reference: the first header row, then the data rows after it

  /** The search for the header ends at this row: it crashes or sets some index. */
  predicate EndsSearch(row: Row) {
    ScanHeader(row) != Ok(map[])
  }

  /** The first row at which the header search ends. */
  function FirstHeader(rows: seq<Row>): (r: Option<nat>)
    ensures r.None? ==> forall j :: 0 <= j < |rows| ==> !EndsSearch(rows[j])
    ensures r.Some? ==> r.value < |rows| && EndsSearch(rows[r.value])
                        && forall j :: 0 <= j < r.value ==> !EndsSearch(rows[j])
  {
    if rows == [] then None
    else
      var n := |rows| - 1;
      assert forall j :: 0 <= j < n ==> rows[..n][j] == rows[j];
      match FirstHeader(rows[..n])
      case Some(k) => Some(k)
      case None => if EndsSearch(rows[n]) then Some(n) else None
  }

  /** Entries so far, followed by what one more data row gives. */
  function EmitRow(sofar: Result<seq<GradeEntry>, Crash>, row: Row, m: map<Column, nat>): Result<seq<GradeEntry>, Crash> {
    match sofar
    case Err(e) => Err(e)
    case Ok(out) =>
      match DataRow(row, m)
      case Err(e) => Err(e)
      case Ok(None) => Ok(out)
      case Ok(Some(entry)) => Ok(out + [entry])
  }

  /** The entries read from data rows with a fixed column map. */
  function Emit(rows: seq<Row>, m: map<Column, nat>): Result<seq<GradeEntry>, Crash> {
    if rows == [] then Ok([]) else EmitRow(Emit(rows[..|rows| - 1], m), rows[|rows| - 1], m)
  }

  /** Two results one after the other: the first crash, or both entry lists in order. */
  function Then(x: Result<seq<GradeEntry>, Crash>, y: Result<seq<GradeEntry>, Crash>): Result<seq<GradeEntry>, Crash> {
    match x
    case Err(e) => Err(e)
    case Ok(u) =>
      match y
      case Err(e) => Err(e)
      case Ok(v) => Ok(u + v)
  }

  /** What the state machine computes, stated without it. */
  function Reference(rows: seq<Row>): Result<Scan, Crash> {
    match FirstHeader(rows)
    case None => Ok(Scan(map[], []))
    case Some(k) =>
      match ScanHeader(rows[k])
      case Err(e) => Err(e)
      case Ok(m) =>
        match Emit(rows[k + 1..], m)
        case Err(e) => Err(e)
        case Ok(out) => Ok(Scan(m, out))
  }

  /** From the start state, a row that does not end the search leaves the state as it was. */
  lemma StepAtStart(row: Row)
    ensures Step(START, row) ==
      if !EndsSearch(row) then Ok(START)
      else match ScanHeader(row) case Err(e) => Err(e) case Ok(m) => Ok(Scan(m, []))
  {
    if !EndsSearch(row) {
      assert DataRow(row, map[]) == Ok(None);
    }
  }

  /** Once a header is known, a row is read as data, exactly as Emit reads it. */
  lemma StepAfterHeader(m: map<Column, nat>, out: seq<GradeEntry>, row: Row)
    requires m != map[]
    ensures Step(Scan(m, out), row) ==
      match EmitRow(Ok(out), row, m) case Err(e) => Err(e) case Ok(x) => Ok(Scan(m, x))
  {
  }

  /**
   * The state machine agrees with the reference: rows before the first
   * header row yield nothing, the header row itself yields nothing, and
   * the map it sets is used unchanged for every later row.
   */
  lemma {:induction false} RunRowsIsReference(rows: seq<Row>)
    ensures RunRows(rows) == Reference(rows)
  {
    if rows != [] {
      var n := |rows| - 1;
      var front := rows[..n];
      var last := rows[n];
      RunRowsIsReference(front);
      assert RunRows(rows) == match RunRows(front) case Err(e) => Err(e) case Ok(s) => Step(s, last);
      match FirstHeader(front)
      case None =>
        StepAtStart(last);
        if EndsSearch(last) {
          assert rows[n + 1..] == [];
        }
      case Some(k) =>
        assert rows[k] == front[k];
        match ScanHeader(rows[k])
        case Err(_) =>
        case Ok(m) =>
          var tail := rows[k + 1..];
          assert tail[..|tail| - 1] == front[k + 1..];
          assert tail[|tail| - 1] == last;
          assert Emit(tail, m) == EmitRow(Emit(front[k + 1..], m), last, m);
          if Emit(front[k + 1..], m).Ok? {
            StepAfterHeader(m, Emit(front[k + 1..], m).value, last);
          }
    }
  }

  // ---------------------------------------------------------------------
  // Properties of the emitted entries

  lemma EmitRowThen(x: Result<seq<GradeEntry>, Crash>, y: Result<seq<GradeEntry>, Crash>, row: Row, m: map<Column, nat>)
    ensures EmitRow(Then(x, y), row, m) == Then(x, EmitRow(y, row, m))
  {
    if x.Ok? && y.Ok? && DataRow(row, m).Ok? && DataRow(row, m).value.Some? {
      assert x.value + y.value + [DataRow(row, m).value.value] == x.value + (y.value + [DataRow(row, m).value.value]);
    }
  }

  /** Emitting over two blocks of rows is emitting over each, in order. */
  lemma {:induction false} EmitAppend(a: seq<Row>, b: seq<Row>, m: map<Column, nat>)
    ensures Emit(a + b, m) == Then(Emit(a, m), Emit(b, m))
    decreases |b|
  {
    if b == [] {
      assert a + b == a;
      if Emit(a, m).Ok? {
        assert Emit(a, m).value + [] == Emit(a, m).value;
      }
    } else {
      var n := |b| - 1;
      assert (a + b)[..|a + b| - 1] == a + b[..n];
      assert (a + b)[|a + b| - 1] == b[n];
      EmitAppend(a, b[..n], m);
      EmitRowThen(Emit(a, m), Emit(b[..n], m), b[n], m);
    }
  }

  /** Every entry has stripped fields and a grade starting with a digit. */
  lemma {:induction false} EmittedEntriesWellFormed(rows: seq<Row>, m: map<Column, nat>)
    requires Emit(rows, m).Ok?
    ensures forall e :: e in Emit(rows, m).value ==>
      Strip(e.studentId) == e.studentId && Strip(e.name) == e.name
      && Strip(e.grade) == e.grade && StartsWithDigit(e.grade)
  {
    if rows != [] {
      var n := |rows| - 1;
      EmittedEntriesWellFormed(rows[..n], m);
      DataRowYieldsEntry(rows[n], m);
      match DataRow(rows[n], m)
      case Ok(Some(entry)) =>
        StripIdempotent(rows[n][m[StudentId]].value);
        StripIdempotent(rows[n][m[Name]].value);
        StripIdempotent(rows[n][m[Grade]].value);
      case Ok(None) =>
      case Err(_) =>
    }
  }

  /** Every entry comes from a readable row, through the map's columns. */
  lemma {:induction false} EmittedEntriesFromRows(rows: seq<Row>, m: map<Column, nat>)
    requires Emit(rows, m).Ok?
    ensures forall e :: e in Emit(rows, m).value ==>
      exists j :: 0 <= j < |rows| && Readable(rows[j], m) && e == EntryAt(rows[j], m)
  {
    if rows != [] {
      var n := |rows| - 1;
      EmittedEntriesFromRows(rows[..n], m);
      DataRowYieldsEntry(rows[n], m);
      assert forall j :: 0 <= j < n ==> rows[..n][j] == rows[j];
    }
  }

  /** If the header lacks one of the three columns, no row yields an entry. */
  lemma {:induction false} EmitMissingColumn(rows: seq<Row>, m: map<Column, nat>)
    requires StudentId !in m || Name !in m || Grade !in m
    requires Emit(rows, m).Ok?
    ensures Emit(rows, m).value == []
  {
    if rows != [] {
      EmitMissingColumn(rows[..|rows| - 1], m);
      DataRowYieldsEntry(rows[|rows| - 1], m);
    }
  }

  /** Rows too short for one of the columns never yield an entry. */
  lemma ShortRowSkipped(row: Row, m: map<Column, nat>, k: Column)
    requires k in m && |row| <= m[k]
    ensures !(DataRow(row, m).Ok? && DataRow(row, m).value.Some?)
  {
    DataRowYieldsEntry(row, m);
  }

  // ---------------------------------------------------------------------
  // Pages and tables, flattened in reading order

  /** All rows of all tables of all pages, in page, table and row order. */
  function AllRows(pages: seq<Page>): seq<Row> {
    if pages == [] then [] else AllRows(pages[..|pages| - 1]) + Concat(pages[|pages| - 1])
  }

  lemma {:induction false} AllRowsAppend(a: seq<Page>, b: seq<Page>)
    ensures AllRows(a + b) == AllRows(a) + AllRows(b)
    decreases |b|
  {
    if b == [] {
      assert a + b == a;
    } else {
      var n := |b| - 1;
      assert (a + b)[..|a + b| - 1] == a + b[..n];
      assert (a + b)[|a + b| - 1] == b[n];
      AllRowsAppend(a, b[..n]);
      assert AllRows(a + b) == AllRows(a + b[..n]) + Concat(b[n]);
      assert AllRows(b) == AllRows(b[..n]) + Concat(b[n]);
    }
  }

  /** The rows read up to row `i` of table `t` of page `p` are a prefix of all rows. */
  lemma RowsSoFarArePrefix(pages: seq<Page>, p: nat, t: nat, i: nat)
    requires p < |pages| && t < |pages[p]| && i <= |pages[p][t]|
    ensures AllRows(pages[..p]) + Concat(pages[p][..t]) + pages[p][t][..i] <= AllRows(pages)
  {
    var tables := pages[p];
    assert pages == pages[..p] + [tables] + pages[p + 1..];
    AllRowsAppend(pages[..p] + [tables], pages[p + 1..]);
    AllRowsAppend(pages[..p], [tables]);
    assert [tables][..0] == [];
    assert tables == tables[..t] + [tables[t]] + tables[t + 1..];
    ConcatAppend(tables[..t] + [tables[t]], tables[t + 1..]);
    ConcatAppend(tables[..t], [tables[t]]);
    assert [tables[t]][..0] == [];
  }

  /** A crash while reading some row is the outcome of the whole extraction. */
  lemma CrashEndsExtraction(pages: seq<Page>, p: nat, t: nat, i: nat, sp: Scan, st: Scan, e: Crash)
    requires p < |pages| && t < |pages[p]| && i <= |pages[p][t]|
    requires RunRows(AllRows(pages[..p])) == Ok(sp)
    requires RunFrom(sp, Concat(pages[p][..t])) == Ok(st)
    requires RunFrom(st, pages[p][t][..i]) == Err(e)
    ensures Extract(pages) == Err(e)
  {
    var a := AllRows(pages[..p]);
    var b := Concat(pages[p][..t]);
    var c := pages[p][t][..i];
    RunFromAppend(START, a, b);
    RunFromAppend(START, a + b, c);
    RowsSoFarArePrefix(pages, p, t, i);
    RunRowsCrashPersists(a + b + c, AllRows(pages));
  }

  /** extract_grades_from_pdf as a value: the entries, or the exception that ends the run. */
  function Extract(pages: seq<Page>): Result<seq<GradeEntry>, Crash> {
    match RunRows(AllRows(pages))
    case Err(e) => Err(e)
    case Ok(s) => Ok(s.grades)
  }

  /** Without a header row nothing is extracted (rows before the header fail with KeyError). */
  lemma ExtractWithoutHeader(pages: seq<Page>)
    requires FirstHeader(AllRows(pages)).None?
    ensures Extract(pages) == Ok([])
  {
    RunRowsIsReference(AllRows(pages));
  }

  /**
   * With a header at flattened row `k`, the result is what the rows after
   * it give through that header's map, across later tables and pages.
   */
  lemma ExtractAfterHeader(pages: seq<Page>, k: nat, m: map<Column, nat>)
    requires FirstHeader(AllRows(pages)) == Some(k)
    requires ScanHeader(AllRows(pages)[k]) == Ok(m)
    ensures m != map[]
    ensures Extract(pages) == Emit(AllRows(pages)[k + 1..], m)
  {
    RunRowsIsReference(AllRows(pages));
  }

  /** Every extracted entry is stripped and its grade starts with a digit. */
  lemma ExtractedEntriesWellFormed(pages: seq<Page>)
    requires Extract(pages).Ok?
    ensures forall e :: e in Extract(pages).value ==>
      Strip(e.studentId) == e.studentId && Strip(e.name) == e.name
      && Strip(e.grade) == e.grade && StartsWithDigit(e.grade)
  {
    var rows := AllRows(pages);
    RunRowsIsReference(rows);
    match FirstHeader(rows)
    case None =>
    case Some(k) =>
      EmittedEntriesWellFormed(rows[k + 1..], ScanHeader(rows[k]).value);
  }

  // ---------------------------------------------------------------------
  // The extraction loop

  /** The body of the row loop: the header scan while no header is known, then the try block. */
  method ReadRow(s: Scan, row: Row) returns (r: Result<Scan, Crash>)
    ensures r == Step(s, row)
  {
    var columnIndices := s.indices;
    if columnIndices == map[] {
      for j := 0 to |row|
        invariant ScanHeader(row[..j]) == Ok(columnIndices)
      {
        assert row[..j + 1][..j] == row[..j];
        if row[j].None? {
          HeaderCrashPersists(row, j + 1);
          return Err(TypeError);
        }
        var text := row[j].value;
        if Contains(text, ID_KEYWORD) {
          columnIndices := columnIndices[StudentId := j];
        } else if Contains(text, NAME_KEYWORD) {
          columnIndices := columnIndices[Name := j];
        } else if Contains(text, GRADE_KEYWORD) {
          columnIndices := columnIndices[Grade := j];
        }
      }
      assert row[..|row|] == row;
      if columnIndices != map[] {
        return Ok(Scan(columnIndices, s.grades));
      }
    }
    match DataRow(row, columnIndices)
    case Err(e) =>
      r := Err(e);
    case Ok(None) =>
      r := Ok(s);
    case Ok(Some(entry)) =>
      r := Ok(Scan(s.indices, s.grades + [entry]));
  }

  /** One more row of a table. */
  lemma RunFromStep(s: Scan, rows: seq<Row>, i: nat, st: Scan)
    requires i < |rows| && RunFrom(s, rows[..i]) == Ok(st)
    ensures RunFrom(s, rows[..i + 1]) == Step(st, rows[i])
  {
    assert rows[..i + 1][..i] == rows[..i] && rows[..i + 1][i] == rows[i];
  }

  /** One more table of a page. */
  lemma TableDone(s: Scan, tables: seq<Table>, t: nat, st: Scan, s': Scan)
    requires t < |tables|
    requires RunFrom(s, Concat(tables[..t])) == Ok(st)
    requires RunFrom(st, tables[t][..|tables[t]|]) == Ok(s')
    ensures RunFrom(s, Concat(tables[..t + 1])) == Ok(s')
  {
    assert tables[t][..|tables[t]|] == tables[t];
    assert tables[..t + 1] == tables[..t] + [tables[t]];
    ConcatAppend(tables[..t], [tables[t]]);
    assert Concat([tables[t]]) == tables[t] by { assert [tables[t]][..0] == []; }
    RunFromAppend(s, Concat(tables[..t]), tables[t]);
  }

  /** One more page. */
  lemma PageDone(pages: seq<Page>, p: nat, sp: Scan, s': Scan)
    requires p < |pages|
    requires RunRows(AllRows(pages[..p])) == Ok(sp)
    requires RunFrom(sp, Concat(pages[p][..|pages[p]|])) == Ok(s')
    ensures RunRows(AllRows(pages[..p + 1])) == Ok(s')
  {
    assert pages[p][..|pages[p]|] == pages[p];
    assert pages[..p + 1][..p] == pages[..p] && pages[..p + 1][p] == pages[p];
    RunFromAppend(START, AllRows(pages[..p]), Concat(pages[p]));
  }

  method ExtractGrades(pages: seq<Page>) returns (r: Result<seq<GradeEntry>, Crash>)
    ensures r == Extract(pages)
  {
    var state := START;
    for p := 0 to |pages|
      invariant RunRows(AllRows(pages[..p])) == Ok(state)
    {
      var tables: seq<Table> := pages[p];
      ghost var pageStart := state;
      for t := 0 to |tables|
        invariant RunFrom(pageStart, Concat(tables[..t])) == Ok(state)
      {
        var table: Table := tables[t];
        ghost var tableStart := state;
        for i := 0 to |table|
          invariant RunFrom(tableStart, table[..i]) == Ok(state)
        {
          var row: Row := table[i];
          RunFromStep(tableStart, table, i, state);
          var outcome := ReadRow(state, row);
          match outcome
          case Err(e) =>
            CrashEndsExtraction(pages, p, t, i + 1, pageStart, tableStart, e);
            return Err(e);
          case Ok(s) =>
            state := s;
        }
        TableDone(pageStart, tables, t, tableStart, state);
      }
      PageDone(pages, p, pageStart, state);
    }
    assert pages[..|pages|] == pages;
    r := Ok(state.grades);
  }
}
