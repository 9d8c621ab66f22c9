/**
 * The class GoogleSheetsDB with its sheet held in memory: the field
 * `values` is what a read of the tab `Sheet1` returns, `UpdateRange` and
 * `ClearRange` stand for the two kinds of write request, and `now` is the
 * timestamp `new Date().toISOString()` gives during the call.
 */
module SheetsDb {
  import opened Options
  import opened Numbers
  import opened HeaderKeys
  import opened Grid
  import opened RowMapper
  import opened SheetUpdates

  /** How a call that looks an employee up ends: done, or the `Employee not found` error. */
  datatype Outcome = Done | EmployeeNotFound

  class GoogleSheetsDb {
    /** The rows of the tab, as `getSheetData` returns them in `values`. */
    var values: Table

    constructor(initial: Table)
      ensures values == initial
    {
      values := initial;
    }

    /** `updateRange`: writes `cells` from column `col` of the 1-based row `rowNumber`. */
    method UpdateRange(rowNumber: nat, col: nat, cells: seq<string>)
      requires rowNumber >= 1
      modifies this
      ensures values == WriteRange(old(values), rowNumber, col, cells)
    {
      values := WriteRange(values, rowNumber, col, cells);
    }

    /** The `:clear` request of `removeEmployee` for `count` cells from column `col`. */
    method ClearRange(rowNumber: nat, col: nat, count: nat)
      requires rowNumber >= 1
      modifies this
      ensures values == Grid.ClearRange(old(values), rowNumber, col, count)
    {
      values := Grid.ClearRange(values, rowNumber, col, count);
    }

    /**
     * `getEmployees`: one record per data row with an id, in sheet order,
     * each built from the object that maps every header's key to the
     * cell below it.
     */
    method GetEmployees(now: string) returns (employees: seq<Employee>)
      ensures employees == ParseTable(values, now)
    {
      var data := values;
      if |data| == 0 {
        return [];
      }
      var headers := data[0];
      employees := [];
      var i := 1;
      while i < |data|
        invariant 1 <= i <= |data|
        invariant employees == Collect(RowParser(headers, now), data[1..i])
      {
        var row := data[i];
        var employee := RowObject(headers, row);
        var record := ToEmployee(employee, now);
        CollectNextRow(headers, data, i, now, record);
        if record.Some? {
          employees := employees + [record.value];
        }
        i := i + 1;
      }
      assert data[1..i] == data[1..];
    }

    /** The `headers.forEach` of `getEmployees`: every header's key mapped to the cell below it. */
    method RowObject(headers: Row, row: Row) returns (employee: Fields)
      ensures employee == FieldMap(KeysOf(headers), row)
    {
      var keys := KeysOf(headers);
      employee := map[];
      var j := 0;
      while j < |headers|
        invariant 0 <= j <= |headers|
        invariant employee == FieldMap(keys[..j], row)
      {
        assert keys[..j + 1][..j] == keys[..j];
        employee := employee[CamelCase(headers[j]) := Cell(row, j)];
        j := j + 1;
      }
      assert keys[..|headers|] == keys;
    }

    /**
     * `addEmployee`: the new employee goes to A to H of the row below the
     * last one (row 2 when the sheet is empty), starting logged out.
     */
    method AddEmployee(draft: NewEmployee, now: string)
      modifies this
      ensures values == Added(old(values), draft, now)
      ensures |old(values)| > 0 ==> values == old(values) + [NewRowCells(draft, now)]
    {
      var currentData := values;
      var nextRow := if |currentData| > 0 then |currentData| + 1 else 2;
      UpdateRange(nextRow, 0, NewRowCells(draft, now));
      AddAppends(old(values), draft, now);
    }

    /**
     * `updateEmployeeStatus`: finds the first record with the id and writes
     * E, F, G and H of sheet row `index + 2`, one cell at a time; an
     * unknown id changes nothing. The login time defaults to null and the
     * break time to 0; `now` comes before them so that both stay optional.
     */
    method UpdateEmployeeStatus(employeeId: string, status: string, now: string,
                                loginTime: Option<string> := None, breakTime: int := 0)
      returns (outcome: Outcome)
      modifies this
      ensures outcome == EmployeeNotFound <==> FindIndex(ParseTable(old(values), now), employeeId).None?
      ensures outcome == EmployeeNotFound ==> values == old(values)
      ensures outcome == Done ==>
        values == StatusUpdated(old(values), FindIndex(ParseTable(old(values), now), employeeId).value + 2,
                                status, loginTime, breakTime, now)
    {
      var employees := GetEmployees(now);
      var employeeIndex := FindIndex(employees, employeeId);
      if employeeIndex.None? {
        return EmployeeNotFound;
      }
      var rowNumber := employeeIndex.value + 2;
      ghost var before := values;
      UpdateRange(rowNumber, 4, [status]);
      ghost var e := values;
      UpdateRange(rowNumber, 5, [OrEmpty(loginTime)]);
      ghost var f := values;
      UpdateRange(rowNumber, 6, [IntToString(breakTime)]);
      ghost var g := values;
      UpdateRange(rowNumber, 7, [now]);
      StatusWritesCombine(before, e, f, g, values, rowNumber, status, loginTime, breakTime, now);
      return Done;
    }

    /**
     * `removeEmployee`: finds the first record with the id and clears A to
     * H of sheet row `index + 2`; the row itself stays. An unknown id
     * changes nothing.
     */
    method RemoveEmployee(employeeId: string, now: string) returns (outcome: Outcome)
      modifies this
      ensures outcome == EmployeeNotFound <==> FindIndex(ParseTable(old(values), now), employeeId).None?
      ensures outcome == EmployeeNotFound ==> values == old(values)
      ensures outcome == Done ==>
        values == Removed(old(values), FindIndex(ParseTable(old(values), now), employeeId).value + 2)
    {
      var employees := GetEmployees(now);
      var employeeIndex := FindIndex(employees, employeeId);
      if employeeIndex.None? {
        return EmployeeNotFound;
      }
      var rowNumber := employeeIndex.value + 2;
      ghost var before := values;
      ClearRange(rowNumber, 0, Columns);
      assert values == Removed(before, rowNumber);
      return Done;
    }

    /** `initializeSheet`: writes the standard header to A1:H1 when the sheet is empty. */
    method InitializeSheet()
      modifies this
      ensures values == Initialized(old(values))
    {
      var data := values;
      if |data| == 0 {
        InitializeWrites(data);
        UpdateRange(1, 0, StandardHeader);
      }
    }

    /** `bulkUpdateEmployees`: record `i` goes to A to H of sheet row `i + 2`. */
    method BulkUpdateEmployees(employees: seq<Employee>)
      modifies this
      ensures values == BulkWritten(old(values), employees)
    {
      var i := 0;
      while i < |employees|
        invariant 0 <= i <= |employees|
        invariant values == BulkWritten(old(values), employees[..i])
      {
        assert employees[..i + 1][..i] == employees[..i];
        UpdateRange(i + 2, 0, Serialize(employees[i]));
        i := i + 1;
      }
      assert employees[..i] == employees;
    }

    /** `getEmployeeById`: the first record with the id, or `undefined`. */
    method GetEmployeeById(employeeId: string, now: string) returns (found: Option<Employee>)
      ensures found == FindById(ParseTable(values, now), employeeId)
    {
      var employees := GetEmployees(now);
      found := FindById(employees, employeeId);
    }
  }
}
