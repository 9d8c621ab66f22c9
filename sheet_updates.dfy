/**
 * What each write of GoogleSheetsDB does to the sheet, as functions from
 * the table before to the table after, and what a later `getEmployees`
 * sees of it. The rows are addressed as the source addresses them: a new
 * employee goes below the last row, an update or removal goes to sheet row
 * `index + 2` where `index` is the position in the list `getEmployees`
 * returned, and a bulk write puts record `i` on sheet row `i + 2`.
 */
module SheetUpdates {
  import opened Options
  import opened Numbers
  import opened Grid
  import opened RowMapper

  /** The fields `addEmployee` reads from its argument. */
  datatype NewEmployee = NewEmployee(id: string, name: string, department: string, position: string)

  // ---------------------------------------------------------------------
  // addEmployee

  /** `currentData.values ? currentData.values.length + 1 : 2`. */
  function NextRow(t: Table): (rowNumber: nat)
    ensures rowNumber >= 2
    ensures rowNumber == Max(|t|, 1) + 1
  {
    if |t| == 0 then 2 else |t| + 1
  }

  /** The eight cells `addEmployee` writes: a new employee starts logged out with no break. */
  function NewRowCells(draft: NewEmployee, now: string): (cells: Row)
    ensures cells == Serialize(NewRecord(draft, now))
  {
    [draft.id, draft.name, draft.department, draft.position, "logged-out", "", "0", now]
  }

  /** The sheet after `addEmployee`: A to H of the next row hold the new cells. */
  function Added(t: Table, draft: NewEmployee, now: string): (r: Table)
    ensures |r| == NextRow(t)
    ensures forall k :: 0 <= k < |t| ==> r[k] == t[k]
  {
    WriteRange(t, NextRow(t), 0, NewRowCells(draft, now))
  }

  /**
   * `addEmployee` appends exactly one row; on an empty sheet it leaves
   * row 1 (where the header belongs) empty and writes row 2.
   */
  lemma AddAppends(t: Table, draft: NewEmployee, now: string)
    ensures Added(t, draft, now) == (if |t| == 0 then [[]] else t) + [NewRowCells(draft, now)]
  {
    var cells := NewRowCells(draft, now);
    if |t| == 0 {
      var r := Added(t, draft, now);
      assert r == WriteRange([], 2, 0, cells);
      assert r[0] == [];
      RowsEqualByCells(r[1], cells);
      assert r == [[], cells];
    } else {
      AppendRow(t, cells);
    }
  }

  /** The record `getEmployees` reads back from a freshly added row. */
  function NewRecord(draft: NewEmployee, now: string): Employee {
    Employee(draft.id, draft.name, draft.department, draft.position, "logged-out", None, 0, now)
  }

  /**
   * Under the standard header, a `getEmployees` at `readTime` after an
   * `addEmployee` at `writeTime` lists what it listed before followed by
   * the new employee with the defaults (logged out, no login time, no
   * break, last activity `writeTime`); a new employee without an id is not
   * listed. `toISOString` never returns an empty string.
   */
  lemma AddThenList(t: Table, draft: NewEmployee, writeTime: string, readTime: string)
    requires |t| > 0 && StandardLayout(t[0]) && writeTime != ""
    ensures ParseTable(Added(t, draft, writeTime), readTime)
      == ParseTable(t, readTime) + (if draft.id == "" then [] else [NewRecord(draft, writeTime)])
  {
    var cells := NewRowCells(draft, writeTime);
    var parse := RowParser(t[0], readTime);
    AddAppends(t, draft, writeTime);
    assert Added(t, draft, writeTime)[1..] == t[1..] + [cells];
    CollectAppend(parse, t[1..], [cells]);
    CollectOne(parse, cells);
    ParseDefaults(t[0], cells, readTime);
    assert Cell(cells, 5) == "" && Cell(cells, 6) == "0" && Cell(cells, 7) == writeTime;
    ParseZero();
  }

  /**
   * Under the standard header, a `getEmployeeById` at `readTime` finds an
   * employee added at `writeTime` whose id was not in use.
   */
  lemma AddThenFind(t: Table, draft: NewEmployee, writeTime: string, readTime: string)
    requires |t| > 0 && StandardLayout(t[0]) && draft.id != "" && writeTime != ""
    requires forall k :: 0 <= k < |ParseTable(t, readTime)| ==> ParseTable(t, readTime)[k].id != draft.id
    ensures FindById(ParseTable(Added(t, draft, writeTime), readTime), draft.id) == Some(NewRecord(draft, writeTime))
  {
    AddThenList(t, draft, writeTime, readTime);
    var before := ParseTable(t, readTime);
    var after := before + [NewRecord(draft, writeTime)];
    forall k | 0 <= k < |before| ensures after[k].id != draft.id {
      assert after[k] == before[k];
    }
    FindFirst(after, draft.id, |before|);
  }

  /**
   * An employee added to a sheet that has no header yet is never listed:
   * the empty row 1 gives no keys, so no row has an id, and
   * `initializeSheet` no longer writes the header because the sheet is
   * not empty.
   */
  lemma AddBeforeInitialize(draft: NewEmployee, now: string)
    ensures Added([], draft, now) == [[], NewRowCells(draft, now)]
    ensures Initialized(Added([], draft, now)) == Added([], draft, now)
    ensures ParseTable(Initialized(Added([], draft, now)), now) == []
  {
    AddAppends([], draft, now);
    var t := [[], NewRowCells(draft, now)];
    assert t[1..] == [NewRowCells(draft, now)];
    assert KeysOf([]) == [];
    CollectOne(RowParser([], now), NewRowCells(draft, now));
  }

  // ---------------------------------------------------------------------
  // updateEmployeeStatus

  /** The values of E, F, G and H: status, `loginTime || ''`, `breakTime.toString()`, now. */
  function StatusCells(status: string, loginTime: Option<string>, breakTime: int, now: string): (cells: Row)
    ensures cells == Serialize(Employee("", "", "", "", status, loginTime, breakTime, now))[4..]
  {
    [status, OrEmpty(loginTime), IntToString(breakTime), now]
  }

  /**
   * The sheet after the four writes of `updateEmployeeStatus` to row
   * `rowNumber`: only the cells E to H of that row change.
   */
  function StatusUpdated(t: Table, rowNumber: nat, status: string, loginTime: Option<string>, breakTime: int, now: string): (r: Table)
    requires rowNumber >= 1
    ensures |r| == Max(|t|, rowNumber)
    ensures forall k: nat, c: nat ::
      CellAt(r, k, c)
        == if k == rowNumber - 1 && 4 <= c < Columns then StatusCells(status, loginTime, breakTime, now)[c - 4]
           else CellAt(t, k, c)
  {
    WriteRange(t, rowNumber, 4, StatusCells(status, loginTime, breakTime, now))
  }

  /**
   * The four single-cell writes to E, F, G and H of one row, applied in
   * turn, leave the sheet as one write of the four cells does.
   */
  lemma StatusWritesCombine(t: Table, e: Table, f: Table, g: Table, h: Table, rowNumber: nat,
                            status: string, loginTime: Option<string>, breakTime: int, now: string)
    requires rowNumber >= 1
    requires e == WriteRange(t, rowNumber, 4, [status])
    requires f == WriteRange(e, rowNumber, 5, [OrEmpty(loginTime)])
    requires g == WriteRange(f, rowNumber, 6, [IntToString(breakTime)])
    requires h == WriteRange(g, rowNumber, 7, [now])
    ensures h == StatusUpdated(t, rowNumber, status, loginTime, breakTime, now)
  {
    var ce, cf, cg := [status], [OrEmpty(loginTime)], [IntToString(breakTime)];
    WriteRangeAdjacent(t, rowNumber, 4, ce, cf);
    WriteRangeAdjacent(t, rowNumber, 4, ce + cf, cg);
    WriteRangeAdjacent(t, rowNumber, 4, ce + cf + cg, [now]);
    assert ce + cf + cg + [now] == StatusCells(status, loginTime, breakTime, now);
  }

  /** The record `getEmployees` reads back after a status update of `e`. */
  function WithStatus(e: Employee, status: string, loginTime: Option<string>, breakTime: int, now: string): Employee {
    e.(status := OrElse(status, "logged-out"),
       loginTime := NonEmpty(OrEmpty(loginTime)),
       breakTime := breakTime,
       lastActivity := now)
  }

  /** The table row `j + 1` is replaced by `row`; the header stays. */
  lemma DataRowsAfterWrite(t: Table, j: nat, row: Row, r: Table)
    requires j + 1 < |t| && |r| == |t|
    requires r[j + 1] == row
    requires forall k :: 0 <= k < |t| && k != j + 1 ==> r[k] == t[k]
    ensures r[0] == t[0]
    ensures r[1..] == t[1..][j := row]
  {
  }

  /**
   * When the data rows up to record `j` all carry an id, the update of
   * sheet row `j + 2` at `writeTime` changes record `j` of a later
   * `getEmployees` at `readTime` and no other: its status (empty reads
   * back as logged-out), its login time (empty reads back as null), its
   * break time and its last activity.
   */
  lemma UpdateThenGet(t: Table, j: nat, status: string, loginTime: Option<string>, breakTime: int,
                      writeTime: string, readTime: string)
    requires |t| > 0 && StandardLayout(t[0]) && writeTime != ""
    requires j < |ParseTable(t, readTime)|
    requires LeadingRowsKept(t, j)
    ensures var records := ParseTable(t, readTime);
      ParseTable(StatusUpdated(t, j + 2, status, loginTime, breakTime, writeTime), readTime)
        == records[j := WithStatus(records[j], status, loginTime, breakTime, writeTime)]
  {
    var records := ParseTable(t, readTime);
    var parse := RowParser(t[0], readTime);
    RecordRow(t, j, readTime);
    var cells := StatusCells(status, loginTime, breakTime, writeTime);
    var r := StatusUpdated(t, j + 2, status, loginTime, breakTime, writeTime);
    var row := SetCells(t[j + 1], 4, cells);
    DataRowsAfterWrite(t, j, row, r);
    ParseDefaults(t[0], t[j + 1], readTime);
    ParseDefaults(t[0], row, readTime);
    ParseIntRoundTrip(breakTime, []);
    assert IntToString(breakTime) + [] == IntToString(breakTime);
    assert Cell(row, 6) == IntToString(breakTime);
    assert t[1..][j] == t[j + 1];
    CollectReplace(parse, t[1..], j, row);
  }

  /**
   * A blank row above an employee shifts the address: with sheet rows
   * header, blank, E, `updateEmployeeStatus` of E finds it at index 0,
   * writes the blank sheet row 2, and E's own row and record stay as
   * they were.
   */
  lemma UpdateAfterBlankRowIsLost(header: Row, row: Row, status: string, loginTime: Option<string>, breakTime: int, now: string)
    requires StandardLayout(header)
    requires Cell(row, 0) != ""
    ensures var t := [header, [], row];
      && FindIndex(ParseTable(t, now), Cell(row, 0)) == Some(0)
      && StatusUpdated(t, 2, status, loginTime, breakTime, now)[2] == row
      && ParseTable(StatusUpdated(t, 2, status, loginTime, breakTime, now), now) == ParseTable(t, now)
  {
    var t := [header, [], row];
    var r := StatusUpdated(t, 2, status, loginTime, breakTime, now);
    var parse := RowParser(t[0], now);
    var written := SetCells([], 4, StatusCells(status, loginTime, breakTime, now));
    assert r == [header, written, row];
    ParseDefaults(t[0], [], now);
    ParseDefaults(t[0], written, now);
    ParseDefaults(t[0], row, now);
    ParsePair(parse, [], row);
    ParsePair(parse, written, row);
    assert t[1..] == [[], row] && r[1..] == [written, row];
  }

  lemma ParsePair(parse: Row -> Option<Employee>, a: Row, b: Row)
    ensures Collect(parse, [a, b]) == Collect(parse, [a]) + Collect(parse, [b])
  {
    CollectAppend(parse, [a], [b]);
    assert [a] + [b] == [a, b];
  }

  // ---------------------------------------------------------------------
  // removeEmployee

  /** The sheet after `removeEmployee` clears A to H of `rowNumber`: the row stays, blank. */
  function Removed(t: Table, rowNumber: nat): (r: Table)
    requires rowNumber >= 1
    ensures |r| == |t|
    ensures forall k: nat, c: nat ::
      CellAt(r, k, c) == if k == rowNumber - 1 && c < Columns then "" else CellAt(t, k, c)
  {
    ClearRange(t, rowNumber, 0, Columns)
  }

  /**
   * When the data rows up to record `j` all carry an id, clearing sheet
   * row `j + 2` drops record `j` from `getEmployees` and keeps the others
   * in order, while the number of rows of the sheet stays the same.
   */
  lemma RemoveThenGet(t: Table, j: nat, now: string)
    requires |t| > 0 && StandardLayout(t[0])
    requires j < |ParseTable(t, now)|
    requires LeadingRowsKept(t, j)
    ensures |Removed(t, j + 2)| == |t|
    ensures var records := ParseTable(t, now);
      ParseTable(Removed(t, j + 2), now) == records[..j] + records[j + 1..]
  {
    var parse := RowParser(t[0], now);
    RecordRow(t, j, now);
    var r := Removed(t, j + 2);
    var row := SetCells(t[j + 1], 0, Blank(Columns));
    DataRowsAfterWrite(t, j, row, r);
    ParseDefaults(t[0], t[j + 1], now);
    ParseDefaults(t[0], row, now);
    assert t[1..][j] == t[j + 1];
    CollectDrop(parse, t[1..], j, row);
  }

  /** After the removal the id is gone from the list, when no other record had it. */
  lemma RemovedIsGone(t: Table, id: string, j: nat, now: string)
    requires |t| > 0 && StandardLayout(t[0])
    requires FindIndex(ParseTable(t, now), id) == Some(j)
    requires LeadingRowsKept(t, j)
    requires forall k :: 0 <= k < |ParseTable(t, now)| && k != j ==> ParseTable(t, now)[k].id != id
    ensures FindIndex(ParseTable(Removed(t, j + 2), now), id) == None
    ensures FindById(ParseTable(Removed(t, j + 2), now), id) == None
  {
    RemoveThenGet(t, j, now);
    var records := ParseTable(t, now);
    var after := records[..j] + records[j + 1..];
    forall k | 0 <= k < |after| ensures after[k].id != id {
      if k < j {
        assert after[k] == records[k];
      } else {
        assert after[k] == records[k + 1];
      }
    }
  }

  /**
   * Two removals in a row hit the wrong employee: with sheet rows header,
   * A, B, C, removing A blanks sheet row 2; C is then at index 1 of the
   * list, so removing C clears sheet row 3, which holds B. C stays listed
   * and B is gone.
   */
  lemma RemoveTwiceClearsNeighbour(header: Row, a: Row, b: Row, c: Row, now: string)
    requires StandardLayout(header)
    requires Cell(a, 0) != "" && Cell(b, 0) != "" && Cell(c, 0) != ""
    requires Cell(c, 0) != Cell(b, 0)
    ensures var t := [header, a, b, c];
      && FindIndex(ParseTable(t, now), Cell(a, 0)) == Some(0)
      && FindIndex(ParseTable(Removed(t, 2), now), Cell(c, 0)) == Some(1)
      && ParseTable(Removed(Removed(t, 2), 3), now) == ParseTable([header, c], now)
  {
    var parse := RowParser(header, now);
    ClearTwice(header, a, b, c);
    OneRow(header, a, now);
    OneRow(header, b, now);
    OneRow(header, c, now);
    OneRow(header, Cleared(a), now);
    OneRow(header, Cleared(b), now);
    TableOfThree(header, a, b, c, now);
    TableOfThree(header, Cleared(a), b, c, now);
    TableOfThree(header, Cleared(a), Cleared(b), c, now);
    assert [header, c][1..] == [c];
  }

  /** Columns A to H of a row, cleared. */
  function Cleared(row: Row): (r: Row)
    ensures Cell(r, 0) == ""
  {
    SetCells(row, 0, Blank(Columns))
  }

  lemma ClearTwice(header: Row, a: Row, b: Row, c: Row)
    ensures Removed([header, a, b, c], 2) == [header, Cleared(a), b, c]
    ensures Removed([header, Cleared(a), b, c], 3) == [header, Cleared(a), Cleared(b), c]
  {
  }

  /** What a single data row contributes to the list under the standard header. */
  lemma OneRow(header: Row, x: Row, now: string)
    requires StandardLayout(header)
    ensures Cell(x, 0) == "" ==> Collect(RowParser(header, now), [x]) == []
    ensures Cell(x, 0) != "" ==>
      && ParseRow(header, x, now).Some?
      && ParseRow(header, x, now).value.id == Cell(x, 0)
      && Collect(RowParser(header, now), [x]) == [ParseRow(header, x, now).value]
  {
    ParseDefaults(header, x, now);
    CollectOne(RowParser(header, now), x);
  }

  lemma TableOfThree(header: Row, x: Row, y: Row, z: Row, now: string)
    ensures var parse := RowParser(header, now);
      ParseTable([header, x, y, z], now) == Collect(parse, [x]) + Collect(parse, [y]) + Collect(parse, [z])
  {
    ParseTriple(RowParser(header, now), x, y, z);
    assert [header, x, y, z][1..] == [x, y, z];
  }

  lemma ParseTriple(parse: Row -> Option<Employee>, a: Row, b: Row, c: Row)
    ensures Collect(parse, [a, b, c]) == Collect(parse, [a]) + Collect(parse, [b]) + Collect(parse, [c])
  {
    CollectAppend(parse, [a, b], [c]);
    ParsePair(parse, a, b);
    assert [a, b] + [c] == [a, b, c];
    CollectOne(parse, a);
    CollectOne(parse, b);
    CollectOne(parse, c);
  }

  // ---------------------------------------------------------------------
  // initializeSheet

  /** `initializeSheet`: the standard header goes to A1:H1 only when the sheet is empty. */
  function Initialized(t: Table): (r: Table)
    ensures |r| > 0
    ensures |t| == 0 ==> r == [StandardHeader]
    ensures |t| > 0 ==> r == t
  {
    if |t| == 0 then [StandardHeader] else t
  }

  /** On an empty sheet, the header goes in by a write of A1:H1. */
  lemma InitializeWrites(t: Table)
    requires |t| == 0
    ensures Initialized(t) == WriteRange(t, 1, 0, StandardHeader)
  {
    AppendRow(t, StandardHeader);
  }

  /** Initializing twice is initializing once, and a fresh sheet lists nobody. */
  lemma InitializeIdempotent(t: Table, now: string)
    ensures Initialized(Initialized(t)) == Initialized(t)
    ensures |t| == 0 ==> ParseTable(Initialized(t), now) == []
  {
    assert [StandardHeader][1..] == [];
  }

  // ---------------------------------------------------------------------
  // bulkUpdateEmployees

  /** The sheet after record `i` of `employees` is written to A to H of row `i + 2`, for every `i`. */
  function BulkWritten(t: Table, employees: seq<Employee>): (r: Table)
    ensures |r| >= |t|
    ensures employees != [] ==> |r| == Max(|t|, |employees| + 1)
    ensures forall k :: 0 <= k < |t| && (k == 0 || |employees| < k) ==> r[k] == t[k]
    decreases |employees|
  {
    if employees == [] then t
    else
      var n := |employees| - 1;
      WriteRange(BulkWritten(t, employees[..n]), n + 2, 0, Serialize(employees[n]))
  }

  /**
   * After a bulk write, row `i + 2` holds the tuple of record `i` in A to
   * H; every other cell is as before, and the table grows to at least one
   * row per record plus the header. On an empty sheet row 1 is left empty.
   */
  lemma {:induction false} BulkCells(t: Table, employees: seq<Employee>)
    ensures |BulkWritten(t, employees)| == if employees == [] then |t| else Max(|t|, |employees| + 1)
    ensures |t| > 0 ==> BulkWritten(t, employees)[0] == t[0]
    ensures |t| == 0 && employees != [] ==> BulkWritten(t, employees)[0] == []
    ensures forall k :: |employees| < k < |t| ==> BulkWritten(t, employees)[k] == t[k]
    ensures forall k: nat, c: nat ::
      CellAt(BulkWritten(t, employees), k, c)
        == if 1 <= k <= |employees| && c < Columns then Serialize(employees[k - 1])[c] else CellAt(t, k, c)
    decreases |employees|
  {
    if employees != [] {
      var n := |employees| - 1;
      var prefix := employees[..n];
      BulkCells(t, prefix);
      forall i | 0 <= i < n ensures employees[i] == prefix[i] {
      }
    }
  }

  /**
   * A bulk write to an empty sheet fills rows 2 and up and leaves row 1
   * empty: `initializeSheet` then writes no header, and `getEmployees`
   * lists nobody, because a row without labels has no `employeeId`.
   */
  lemma BulkBeforeInitialize(employees: seq<Employee>, now: string)
    requires employees != []
    ensures Initialized(BulkWritten([], employees)) == BulkWritten([], employees)
    ensures ParseTable(BulkWritten([], employees), now) == []
  {
    var r := BulkWritten([], employees);
    BulkCells([], employees);
    NoLabelsNoRecords(r[1..], now);
  }

  /** Under a header row without labels no row gives a record. */
  lemma NoLabelsNoRecords(rows: seq<Row>, now: string)
    ensures Collect(RowParser([], now), rows) == []
  {
    var parse := RowParser([], now);
    assert KeysOf([]) == [];
    forall i | 0 <= i < |rows| ensures parse(rows[i]).None? {
      assert FieldMap([], rows[i]) == map[];
    }
    CollectCount(parse, rows);
    assert Accepted(parse, rows) == {};
  }

  /**
   * Under the standard header, `getEmployees` after `bulkUpdateEmployees`
   * returns the records written, in order, each unchanged when it is well
   * formed; data rows below the last one written are still listed after
   * them.
   */
  lemma BulkThenGet(t: Table, employees: seq<Employee>, now: string)
    requires |t| > 0 && StandardLayout(t[0])
    requires forall i :: 0 <= i < |employees| ==> WellFormed(employees[i])
    ensures ParseTable(BulkWritten(t, employees), now)
      == employees + (if |employees| + 1 < |t| then Collect(RowParser(t[0], now), t[|employees| + 1..]) else [])
  {
    var r := BulkWritten(t, employees);
    BulkRowsRead(t, employees, now);
    BulkLayout(t, employees);
    CollectKnownPrefix(RowParser(t[0], now), r[1..], employees);
  }

  /** The data rows after a bulk write: the rows written, then the old rows below them. */
  lemma BulkLayout(t: Table, employees: seq<Employee>)
    requires |t| > 0
    ensures |BulkWritten(t, employees)| > |employees|
    ensures BulkWritten(t, employees)[0] == t[0]
    ensures BulkWritten(t, employees)[|employees| + 1..]
      == if |employees| + 1 < |t| then t[|employees| + 1..] else []
  {
    BulkCells(t, employees);
  }

  /** The rows a bulk write filled read back as the records written. */
  lemma BulkRowsRead(t: Table, employees: seq<Employee>, now: string)
    requires |t| > 0 && StandardLayout(t[0])
    requires forall i :: 0 <= i < |employees| ==> WellFormed(employees[i])
    ensures |BulkWritten(t, employees)| > |employees|
    ensures Collect(RowParser(t[0], now), BulkWritten(t, employees)[1..][..|employees|]) == employees
  {
    var parse := RowParser(t[0], now);
    var r := BulkWritten(t, employees);
    var m := |employees|;
    BulkCells(t, employees);
    var rows := r[1..][..m];
    forall i | 0 <= i < m ensures parse(rows[i]) == Some(employees[i]) {
      assert rows[i] == r[i + 1];
      BulkRowRead(t, employees, i, now);
    }
    CollectAllAccepted(parse, rows, employees);
  }

  lemma BulkRowRead(t: Table, employees: seq<Employee>, i: nat, now: string)
    requires |t| > 0 && StandardLayout(t[0])
    requires i < |employees| && WellFormed(employees[i])
    ensures i + 1 < |BulkWritten(t, employees)|
    ensures ParseRow(t[0], BulkWritten(t, employees)[i + 1], now) == Some(employees[i])
  {
    var r := BulkWritten(t, employees);
    BulkCells(t, employees);
    forall c | 0 <= c < Columns ensures Cell(r[i + 1], c) == Cell(Serialize(employees[i]), c) {
      assert CellAt(r, i + 1, c) == Cell(r[i + 1], c);
    }
    ParseReadsColumnsAToH(t[0], r[i + 1], Serialize(employees[i]), now);
    SerializeRoundTrip(t[0], employees[i], now);
  }

  /**
   * Under the standard header, writing back what `getEmployees` read at
   * `readTime` gives the same list to a second `getEmployees` at any
   * `laterTime`, when every data row carries an id (so that record `i`
   * came from row `i + 2`).
   */
  lemma ReadWriteRead(t: Table, readTime: string, laterTime: string)
    requires |t| > 0 && StandardLayout(t[0]) && readTime != ""
    requires |ParseTable(t, readTime)| == |t| - 1
    ensures ParseTable(BulkWritten(t, ParseTable(t, readTime)), laterTime) == ParseTable(t, readTime)
  {
    var records := ParseTable(t, readTime);
    forall i | 0 <= i < |records| ensures WellFormed(records[i]) {
      assert LeadingRowsKept(t, i) by {
        AllRowsKept(t, readTime);
      }
      RecordRow(t, i, readTime);
      ParsedIsWellFormed(t[0], t[i + 1], readTime);
    }
    BulkThenGet(t, records, laterTime);
  }

  /** When every data row gives a record, every data row carries an id. */
  lemma AllRowsKept(t: Table, now: string)
    requires |t| > 0
    requires |ParseTable(t, now)| == |t| - 1
    ensures forall k :: 1 <= k < |t| ==> RowId(t[0], t[k]) != ""
  {
    var parse := RowParser(t[0], now);
    CollectNoneDropped(parse, t[1..]);
    forall k | 1 <= k < |t| ensures RowId(t[0], t[k]) != "" {
      assert t[1..][k - 1] == t[k];
    }
  }
}
