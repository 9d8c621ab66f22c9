/**
 * The row mapper of GoogleSheetsDB: header-keyed rows to employee records
 * (the body of `getEmployees`), records back to the fixed eight-column
 * tuple (`bulkUpdateEmployees`), and the two look-ups by id (`findIndex`
 * and `find` over the parsed list).
 */
module RowMapper {
  import opened Options
  import opened HeaderKeys
  import opened Numbers
  import opened Grid

  datatype Employee = Employee(
    id: string,
    name: string,
    department: string,
    position: string,
    status: string,
    loginTime: Option<string>,
    breakTime: int,
    lastActivity: string)

  /** The header `initializeSheet` writes to A1:H1. */
  const StandardHeader: Row :=
    ["Employee_ID", "Name", "Department", "Position", "Status", "Login_Time", "Break_Time", "Last_Activity"]

  /** The keys the standard header labels normalise to, column by column. */
  const StandardKeys: seq<string> :=
    ["employeeId", "name", "department", "position", "status", "loginTime", "breakTime", "lastActivity"]

  /** Columns A to H. */
  const Columns: nat := 8

  /** The plain object `employee` that `getEmployees` fills for one row. */
  type Fields = map<string, string>

  /** The key of each header label, column by column. */
  function KeysOf(headers: Row): (keys: seq<string>)
    ensures |keys| == |headers|
    ensures forall i {:trigger keys[i]} :: 0 <= i < |headers| ==> keys[i] == CamelCase(headers[i])
  {
    seq(|headers|, i requires 0 <= i < |headers| => CamelCase(headers[i]))
  }

  /**
   * `headers.forEach((header, index) => employee[camelCase(header)] = row[index] || '')`
   * with the keys already normalised: each key gets the cell under it, a
   * missing cell gives `''`, and a later key overwrites an earlier equal one.
   */
  function FieldMap(keys: seq<string>, row: Row): (fields: Fields)
    ensures |fields| <= |keys|
    decreases |keys|
  {
    if keys == [] then map[]
    else
      var n := |keys| - 1;
      FieldMap(keys[..n], row)[keys[n] := Cell(row, n)]
  }

  /** The object has exactly the keys of the headers. */
  lemma {:induction false} FieldMapKeys(keys: seq<string>, row: Row)
    ensures FieldMap(keys, row).Keys == set i | 0 <= i < |keys| :: keys[i]
    decreases |keys|
  {
    if keys != [] {
      var n := |keys| - 1;
      FieldMapKeys(keys[..n], row);
      var before := set i | 0 <= i < n :: keys[..n][i];
      assert before == set i | 0 <= i < n :: keys[i] by {
        forall i | 0 <= i < n ensures keys[..n][i] == keys[i] { }
      }
      assert (set i | 0 <= i < |keys| :: keys[i]) == before + {keys[n]};
    }
  }

  /** A key holds the cell under the LAST header that normalises to it. */
  lemma {:induction false} FieldMapLastWins(keys: seq<string>, row: Row, i: nat)
    requires i < |keys|
    requires forall j :: i < j < |keys| ==> keys[j] != keys[i]
    ensures keys[i] in FieldMap(keys, row)
    ensures FieldMap(keys, row)[keys[i]] == Cell(row, i)
    decreases |keys|
  {
    var n := |keys| - 1;
    if i < n {
      var prefix := keys[..n];
      assert prefix[i] == keys[i];
      forall j | i < j < |prefix| ensures prefix[j] != prefix[i] {
        assert prefix[j] == keys[j];
      }
      FieldMapLastWins(prefix, row, i);
    }
  }

  /** `employee.key || ''`: an absent key reads as the empty string. */
  function Lookup(fields: Fields, key: string): string {
    if key in fields then fields[key] else ""
  }

  /** `text || fallback` on strings: the empty string is falsy. */
  function OrElse(text: string, fallback: string): string {
    if text == "" then fallback else text
  }

  /** `text || null`. */
  function NonEmpty(text: string): Option<string> {
    if text == "" then None else Some(text)
  }

  /** `text || ''` for an optional string. */
  function OrEmpty(text: Option<string>): string {
    if text.Some? then text.value else ""
  }

  /**
   * The record pushed for one row object, with the defaults of
   * `getEmployees`; `None` when the id is empty (the row is dropped).
   */
  function ToEmployee(fields: Fields, now: string): (r: Option<Employee>)
    ensures r.Some? <==> Lookup(fields, "employeeId") != ""
  {
    var id := Lookup(fields, "employeeId");
    if id == "" then None
    else Some(Employee(
      id,
      Lookup(fields, "name"),
      Lookup(fields, "department"),
      Lookup(fields, "position"),
      OrElse(Lookup(fields, "status"), "logged-out"),
      NonEmpty(Lookup(fields, "loginTime")),
      ParseInt(Lookup(fields, "breakTime")),
      OrElse(Lookup(fields, "lastActivity"), now)))
  }

  /** The id a row carries under the given header (empty when it has none). */
  function RowId(headers: Row, row: Row): string {
    Lookup(FieldMap(KeysOf(headers), row), "employeeId")
  }

  function ParseRow(headers: Row, row: Row, now: string): (r: Option<Employee>)
    ensures r.Some? <==> RowId(headers, row) != ""
    ensures r.Some? ==> r.value.id == RowId(headers, row)
  {
    ToEmployee(FieldMap(KeysOf(headers), row), now)
  }

  /**
   * The `for` loop of `getEmployees` with its `push`: the values `parse`
   * gives for the rows it accepts, in row order.
   */
  function Collect<R, E>(parse: R -> Option<E>, rows: seq<R>): (out: seq<E>)
    ensures |out| <= |rows|
    decreases |rows|
  {
    if rows == [] then []
    else
      var n := |rows| - 1;
      Collect(parse, rows[..n]) + Pushed(parse(rows[n]))
  }

  /** What one row adds to the list: its value when it has one. */
  function Pushed<E>(r: Option<E>): seq<E> {
    if r.Some? then [r.value] else []
  }

  function RowParser(headers: Row, now: string): Row -> Option<Employee> {
    row => ParseRow(headers, row, now)
  }

  /** What `getEmployees` returns for the rows a read of the tab gives. */
  function ParseTable(t: Table, now: string): (records: seq<Employee>)
    ensures |t| == 0 ==> records == []
    ensures |t| > 0 ==> |records| < |t|
  {
    if |t| == 0 then [] else Collect(RowParser(t[0], now), t[1..])
  }

  /**
   * One more row of the sheet read: the record of row `i`, if it has one,
   * is pushed after those of rows 1 to `i - 1`.
   */
  lemma CollectNextRow(headers: Row, data: Table, i: nat, now: string, record: Option<Employee>)
    requires 1 <= i < |data|
    requires record == ToEmployee(FieldMap(KeysOf(headers), data[i]), now)
    ensures Collect(RowParser(headers, now), data[1..i + 1])
      == Collect(RowParser(headers, now), data[1..i]) + Pushed(record)
  {
    assert data[1..i + 1] == data[1..i] + [data[i]];
    CollectSnoc(RowParser(headers, now), data[1..i], data[i]);
  }

  // ---------------------------------------------------------------------
  // The standard header

  lemma WordKey(header: string, key: string)
    requires AllAlnum(header) && Lower(header) == key
    ensures CamelCase(header) == key
  {
    CamelCaseOfWord(header);
  }

  lemma JoinedKey(first: string, second: string, key: string)
    requires AllAlnum(first) && AllAlnum(second) && second != []
    requires Lower(first) + [UpperChar(LowerChar(second[0]))] + Lower(second[1..]) == key
    ensures CamelCase(first + "_" + second) == key
  {
    CamelCaseJoinsWords(first, "_", second);
  }

  /**
   * A capitalised word such as `Department` is letters only, and
   * lower-casing it changes only its first letter.
   */
  lemma {:induction false} CapitalisedWord(w: string)
    requires |w| > 0 && 'A' <= w[0] <= 'Z'
    requires forall i :: 1 <= i < |w| ==> 'a' <= w[i] <= 'z'
    ensures AllAlnum(w)
    ensures Lower(w) == [LowerChar(w[0])] + w[1..]
    ensures Lower(w[1..]) == w[1..]
  {
    assert Lower(w)[1..] == Lower(w[1..]);
  }

  // The facts about each word of the standard labels, one lemma per word
  // so that every label lemma below stays small.

  lemma EmployeeWord()
    ensures AllAlnum("Employee") && Lower("Employee") == "employee"
  {
    CapitalisedWord("Employee");
  }

  lemma NameWord()
    ensures AllAlnum("Name") && Lower("Name") == "name"
  {
    CapitalisedWord("Name");
  }

  lemma DepartmentWord()
    ensures AllAlnum("Department") && Lower("Department") == "department"
  {
    CapitalisedWord("Department");
  }

  lemma PositionWord()
    ensures AllAlnum("Position") && Lower("Position") == "position"
  {
    CapitalisedWord("Position");
  }

  lemma StatusWord()
    ensures AllAlnum("Status") && Lower("Status") == "status"
  {
    CapitalisedWord("Status");
  }

  lemma LoginWord()
    ensures AllAlnum("Login") && Lower("Login") == "login"
  {
    CapitalisedWord("Login");
  }

  lemma BreakWord()
    ensures AllAlnum("Break") && Lower("Break") == "break"
  {
    CapitalisedWord("Break");
  }

  lemma LastWord()
    ensures AllAlnum("Last") && Lower("Last") == "last"
  {
    CapitalisedWord("Last");
  }

  lemma TimeWord()
    ensures AllAlnum("Time") && "Time"[1..] == "ime" && Lower("ime") == "ime"
  {
    CapitalisedWord("Time");
  }

  lemma ActivityWord()
    ensures AllAlnum("Activity") && "Activity"[1..] == "ctivity" && Lower("ctivity") == "ctivity"
  {
    CapitalisedWord("Activity");
  }

  lemma IdWord()
    ensures AllAlnum("ID") && "ID"[1..] == "D" && Lower("D") == "d"
  {
  }

  lemma EmployeeIdKey()
    ensures CamelCase("Employee_ID") == "employeeId"
  {
    EmployeeWord();
    IdWord();
    JoinedKey("Employee", "ID", "employeeId");
    assert "Employee" + "_" + "ID" == "Employee_ID";
  }

  lemma NameKey()
    ensures CamelCase("Name") == "name"
  {
    NameWord();
    WordKey("Name", "name");
  }

  lemma DepartmentKey()
    ensures CamelCase("Department") == "department"
  {
    DepartmentWord();
    WordKey("Department", "department");
  }

  lemma PositionKey()
    ensures CamelCase("Position") == "position"
  {
    PositionWord();
    WordKey("Position", "position");
  }

  lemma StatusKey()
    ensures CamelCase("Status") == "status"
  {
    StatusWord();
    WordKey("Status", "status");
  }

  lemma LoginTimeKey()
    ensures CamelCase("Login_Time") == "loginTime"
  {
    LoginWord();
    TimeWord();
    JoinedKey("Login", "Time", "loginTime");
    assert "Login" + "_" + "Time" == "Login_Time";
  }

  lemma BreakTimeKey()
    ensures CamelCase("Break_Time") == "breakTime"
  {
    BreakWord();
    TimeWord();
    JoinedKey("Break", "Time", "breakTime");
    assert "Break" + "_" + "Time" == "Break_Time";
  }

  lemma LastActivityKey()
    ensures CamelCase("Last_Activity") == "lastActivity"
  {
    LastWord();
    ActivityWord();
    JoinedKey("Last", "Activity", "lastActivity");
    assert "Last" + "_" + "Activity" == "Last_Activity";
  }

  lemma KeysOfEight(headers: Row, keys: seq<string>)
    requires |headers| == 8 && |keys| == 8
    requires CamelCase(headers[0]) == keys[0] && CamelCase(headers[1]) == keys[1]
    requires CamelCase(headers[2]) == keys[2] && CamelCase(headers[3]) == keys[3]
    requires CamelCase(headers[4]) == keys[4] && CamelCase(headers[5]) == keys[5]
    requires CamelCase(headers[6]) == keys[6] && CamelCase(headers[7]) == keys[7]
    ensures KeysOf(headers) == keys
  {
    forall i | 0 <= i < 8 ensures KeysOf(headers)[i] == keys[i] {
    }
  }

  /** `Employee_ID` becomes `employeeId`, `Login_Time` becomes `loginTime`, and so on. */
  lemma StandardHeaderKeys()
    ensures StandardLayout(StandardHeader)
  {
    var h, k := StandardHeader, StandardKeys;
    assert h[0] == "Employee_ID" && k[0] == "employeeId";
    assert h[1] == "Name" && k[1] == "name";
    assert h[2] == "Department" && k[2] == "department";
    assert h[3] == "Position" && k[3] == "position";
    assert h[4] == "Status" && k[4] == "status";
    assert h[5] == "Login_Time" && k[5] == "loginTime";
    assert h[6] == "Break_Time" && k[6] == "breakTime";
    assert h[7] == "Last_Activity" && k[7] == "lastActivity";
    EmployeeIdKey();
    NameKey();
    DepartmentKey();
    PositionKey();
    StatusKey();
    LoginTimeKey();
    BreakTimeKey();
    LastActivityKey();
    KeysOfEight(h, k);
  }

  /**
   * A header row whose labels normalise to the eight standard keys, column
   * by column, as the one `initializeSheet` writes does.
   */
  predicate StandardLayout(headers: Row) {
    KeysOf(headers) == StandardKeys
  }

  /** Under the standard header each key holds the cell of its own column. */
  lemma StandardFields(row: Row)
    ensures forall i :: 0 <= i < Columns ==>
      StandardKeys[i] in FieldMap(StandardKeys, row) && FieldMap(StandardKeys, row)[StandardKeys[i]] == Cell(row, i)
  {
    forall i | 0 <= i < Columns
      ensures StandardKeys[i] in FieldMap(StandardKeys, row)
      ensures FieldMap(StandardKeys, row)[StandardKeys[i]] == Cell(row, i)
    {
      FieldMapLastWins(StandardKeys, row, i);
    }
  }

  /**
   * The defaults of `getEmployees` under the standard header: a row without
   * an id in column A is dropped; otherwise a missing or empty status is
   * `logged-out`, an empty login time is null, the break time is the
   * leading integer of column G or 0, and an empty last activity is `now`.
   */
  lemma ParseDefaults(headers: Row, row: Row, now: string)
    requires StandardLayout(headers)
    ensures RowId(headers, row) == Cell(row, 0)
    ensures ParseRow(headers, row, now)
      == if Cell(row, 0) == "" then None
         else Some(Employee(
           Cell(row, 0), Cell(row, 1), Cell(row, 2), Cell(row, 3),
           OrElse(Cell(row, 4), "logged-out"),
           NonEmpty(Cell(row, 5)),
           ParseInt(Cell(row, 6)),
           OrElse(Cell(row, 7), now)))
  {
    StandardFields(row);
    assert StandardKeys[0] == "employeeId" && StandardKeys[1] == "name" && StandardKeys[2] == "department";
    assert StandardKeys[3] == "position" && StandardKeys[4] == "status" && StandardKeys[5] == "loginTime";
    assert StandardKeys[6] == "breakTime" && StandardKeys[7] == "lastActivity";
  }

  /** Under the standard header only columns A to H decide the record. */
  lemma ParseReadsColumnsAToH(headers: Row, a: Row, b: Row, now: string)
    requires StandardLayout(headers)
    requires forall c :: 0 <= c < Columns ==> Cell(a, c) == Cell(b, c)
    ensures ParseRow(headers, a, now) == ParseRow(headers, b, now)
  {
    ParseDefaults(headers, a, now);
    ParseDefaults(headers, b, now);
    assert Cell(a, 0) == Cell(b, 0) && Cell(a, 1) == Cell(b, 1) && Cell(a, 2) == Cell(b, 2);
    assert Cell(a, 3) == Cell(b, 3) && Cell(a, 4) == Cell(b, 4) && Cell(a, 5) == Cell(b, 5);
    assert Cell(a, 6) == Cell(b, 6) && Cell(a, 7) == Cell(b, 7);
  }

  // ---------------------------------------------------------------------
  // Serialising

  /**
   * The tuple `bulkUpdateEmployees` writes to A to H: the fields in column
   * order, a null login time as `''`, the break time in decimal.
   */
  function Serialize(e: Employee): (cells: Row)
    ensures |cells| == Columns
  {
    [e.id, e.name, e.department, e.position, e.status, OrEmpty(e.loginTime), IntToString(e.breakTime), e.lastActivity]
  }

  /** A record that survives a write and a read unchanged. */
  predicate WellFormed(e: Employee) {
    && e.id != ""
    && e.status != ""
    && e.lastActivity != ""
    && (e.loginTime.Some? ==> e.loginTime.value != "")
  }

  /** Serialising and parsing under the standard header gives the record back. */
  lemma SerializeRoundTrip(headers: Row, e: Employee, now: string)
    requires StandardLayout(headers)
    requires WellFormed(e)
    ensures ParseRow(headers, Serialize(e), now) == Some(e)
  {
    var cells := Serialize(e);
    ParseDefaults(headers, cells, now);
    ParseIntRoundTrip(e.breakTime, []);
    assert IntToString(e.breakTime) + [] == IntToString(e.breakTime);
    assert Cell(cells, 6) == IntToString(e.breakTime);
  }

  /** Every record `getEmployees` produces under the standard header is well formed. */
  lemma ParsedIsWellFormed(headers: Row, row: Row, now: string)
    requires StandardLayout(headers)
    requires now != ""
    requires ParseRow(headers, row, now).Some?
    ensures WellFormed(ParseRow(headers, row, now).value)
  {
    ParseDefaults(headers, row, now);
  }

  // ---------------------------------------------------------------------
  // Which rows become records

  lemma {:induction false} CollectAppend<R, E>(parse: R -> Option<E>, a: seq<R>, b: seq<R>)
    ensures Collect(parse, a + b) == Collect(parse, a) + Collect(parse, b)
    decreases |b|
  {
    if b == [] {
      assert a + b == a;
    } else {
      var n := |b| - 1;
      assert (a + b)[..|a + b| - 1] == a + b[..n];
      assert (a + b)[|a + b| - 1] == b[n];
      CollectAppend(parse, a, b[..n]);
    }
  }

  function Accepted<R, E>(parse: R -> Option<E>, rows: seq<R>): set<nat> {
    set i: nat | i < |rows| && parse(rows[i]).Some?
  }

  /** One output per accepted row. */
  lemma {:induction false} CollectCount<R, E>(parse: R -> Option<E>, rows: seq<R>)
    ensures |Collect(parse, rows)| == |Accepted(parse, rows)|
    decreases |rows|
  {
    if rows != [] {
      var n := |rows| - 1;
      CollectCount(parse, rows[..n]);
      var before := Accepted(parse, rows[..n]);
      assert before == set i: nat | i < n && parse(rows[i]).Some? by {
        forall i | 0 <= i < n ensures rows[..n][i] == rows[i] { }
      }
      if parse(rows[n]).Some? {
        assert Accepted(parse, rows) == before + {n};
        assert n !in before;
      } else {
        assert Accepted(parse, rows) == before;
      }
    }
  }

  /** An accepted row gives the output right after those of the rows before it. */
  lemma CollectAt<R, E>(parse: R -> Option<E>, rows: seq<R>, i: nat)
    requires i < |rows| && parse(rows[i]).Some?
    ensures |Collect(parse, rows[..i])| < |Collect(parse, rows)|
    ensures Collect(parse, rows)[|Collect(parse, rows[..i])|] == parse(rows[i]).value
  {
    assert rows == rows[..i] + ([rows[i]] + rows[i + 1..]);
    CollectAppend(parse, rows[..i], [rows[i]] + rows[i + 1..]);
    CollectAppend(parse, [rows[i]], rows[i + 1..]);
    assert [rows[i]][..0] == [];
  }

  /** When the first `i` rows are all accepted, they give the first `i` outputs. */
  lemma {:induction false} CollectAcceptedPrefix<R, E>(parse: R -> Option<E>, rows: seq<R>, i: nat)
    requires i <= |rows|
    requires forall k :: 0 <= k < i ==> parse(rows[k]).Some?
    ensures |Collect(parse, rows[..i])| == i
  {
    if i > 0 {
      CollectAcceptedPrefix(parse, rows, i - 1);
      assert rows[..i][..i - 1] == rows[..i - 1];
      assert rows[..i][i - 1] == rows[i - 1];
    }
  }

  /** Rows that each give a known value collect to exactly those values. */
  lemma {:induction false} CollectAllAccepted<R, E>(parse: R -> Option<E>, rows: seq<R>, values: seq<E>)
    requires |rows| == |values|
    requires forall i :: 0 <= i < |rows| ==> parse(rows[i]) == Some(values[i])
    ensures Collect(parse, rows) == values
    decreases |rows|
  {
    if rows != [] {
      var n := |rows| - 1;
      CollectAllAccepted(parse, rows[..n], values[..n]);
      assert values == values[..n] + [values[n]];
    }
  }

  /** When there are as many outputs as rows, every row was accepted. */
  lemma {:induction false} CollectNoneDropped<R, E>(parse: R -> Option<E>, rows: seq<R>)
    requires |Collect(parse, rows)| == |rows|
    ensures forall i :: 0 <= i < |rows| ==> parse(rows[i]).Some?
    decreases |rows|
  {
    if rows != [] {
      var n := |rows| - 1;
      CollectNoneDropped(parse, rows[..n]);
      forall i | 0 <= i < n ensures parse(rows[i]).Some? {
        assert rows[..n][i] == rows[i];
      }
    }
  }

  /** Adding a row at the end adds its output, if any, at the end. */
  lemma CollectSnoc<R, E>(parse: R -> Option<E>, rows: seq<R>, row: R)
    ensures Collect(parse, rows + [row])
      == Collect(parse, rows) + Pushed(parse(row))
  {
    assert (rows + [row])[..|rows|] == rows;
  }

  /** Rows whose first outputs are known: the rest follow them. */
  lemma CollectKnownPrefix<R, E>(parse: R -> Option<E>, rows: seq<R>, values: seq<E>)
    requires |values| <= |rows|
    requires Collect(parse, rows[..|values|]) == values
    ensures Collect(parse, rows) == values + Collect(parse, rows[|values|..])
  {
    assert rows == rows[..|values|] + rows[|values|..];
    CollectAppend(parse, rows[..|values|], rows[|values|..]);
  }

  lemma {:induction false} CollectSplit<R, E>(parse: R -> Option<E>, rows: seq<R>, i: nat, row: R)
    requires i < |rows|
    ensures Collect(parse, rows) == Collect(parse, rows[..i]) + Pushed(parse(rows[i])) + Collect(parse, rows[i + 1..])
    ensures Collect(parse, rows[i := row]) == Collect(parse, rows[..i]) + Pushed(parse(row)) + Collect(parse, rows[i + 1..])
  {
    var before, after := rows[..i], rows[i + 1..];
    assert rows == (before + [rows[i]]) + after;
    assert rows[i := row] == (before + [row]) + after;
    CollectAppend(parse, before + [rows[i]], after);
    CollectSnoc(parse, before, rows[i]);
    CollectAppend(parse, before + [row], after);
    CollectSnoc(parse, before, row);
  }

  lemma CollectOne<R, E>(parse: R -> Option<E>, row: R)
    ensures Collect(parse, [row]) == Pushed(parse(row))
  {
    assert [row][..0] == [];
  }

  /**
   * Replacing an accepted row by another accepted row replaces its output
   * and nothing else.
   */
  lemma {:induction false} CollectReplace<R, E>(parse: R -> Option<E>, rows: seq<R>, i: nat, row: R)
    requires i < |rows| && parse(rows[i]).Some? && parse(row).Some?
    ensures var j := |Collect(parse, rows[..i])|;
      && j < |Collect(parse, rows)|
      && Collect(parse, rows[i := row]) == Collect(parse, rows)[j := parse(row).value]
  {
    CollectSplit(parse, rows, i, row);
    Around(Collect(parse, rows[..i]), parse(rows[i]).value, parse(row).value, Collect(parse, rows[i + 1..]));
  }

  /** Replacing an accepted row by a rejected one removes its output and nothing else. */
  lemma {:induction false} CollectDrop<R, E>(parse: R -> Option<E>, rows: seq<R>, i: nat, row: R)
    requires i < |rows| && parse(rows[i]).Some? && parse(row).None?
    ensures var j := |Collect(parse, rows[..i])|;
      && j < |Collect(parse, rows)|
      && Collect(parse, rows[i := row]) == Collect(parse, rows)[..j] + Collect(parse, rows)[j + 1..]
  {
    var before, x, after := Collect(parse, rows[..i]), parse(rows[i]).value, Collect(parse, rows[i + 1..]);
    CollectSplit(parse, rows, i, row);
    assert Collect(parse, rows) == before + [x] + after;
    assert Collect(parse, rows[i := row]) == before + after;
    Around(before, x, x, after);
  }

  /** Replacing or removing the element between `before` and `after`. */
  lemma Around<E>(before: seq<E>, x: E, y: E, after: seq<E>)
    ensures var whole := before + [x] + after;
      && |before| < |whole|
      && whole[|before| := y] == before + [y] + after
      && whole[..|before|] + whole[|before| + 1..] == before + after
  {
    var whole := before + [x] + after;
    assert whole[..|before|] == before;
    assert whole[|before| + 1..] == after;
  }

  /** The data rows of a table that carry an id, numbered from 1 as table rows. */
  function RowsWithId(t: Table): set<nat>
    requires |t| > 0
  {
    set k: nat | 1 <= k < |t| && RowId(t[0], t[k]) != ""
  }

  /** `getEmployees` gives one record per data row with an id. */
  lemma RecordCount(t: Table, now: string)
    requires |t| > 0
    ensures |ParseTable(t, now)| == |RowsWithId(t)|
  {
    var parse := RowParser(t[0], now);
    CollectCount(parse, t[1..]);
    AcceptedRows(t, now);
    ShiftKeepsSize(Accepted(parse, t[1..]));
  }

  /** Data row `i` of `t[1..]` is accepted exactly when table row `i + 1` has an id. */
  lemma AcceptedRows(t: Table, now: string)
    requires |t| > 0
    ensures Shift(Accepted(RowParser(t[0], now), t[1..])) == RowsWithId(t)
  {
    RowsWithIdAccepted(t, now);
    AcceptedHaveIds(t, now);
  }

  lemma RowsWithIdAccepted(t: Table, now: string)
    requires |t| > 0
    ensures RowsWithId(t) <= Shift(Accepted(RowParser(t[0], now), t[1..]))
  {
    var parse, rows := RowParser(t[0], now), t[1..];
    forall k | k in RowsWithId(t) ensures k in Shift(Accepted(parse, rows)) {
      var i: nat := k - 1;
      assert rows[i] == t[k];
      assert ParseRow(t[0], t[k], now).Some?;
      assert i in Accepted(parse, rows);
      assert i + 1 in Shift(Accepted(parse, rows));
    }
  }

  lemma AcceptedHaveIds(t: Table, now: string)
    requires |t| > 0
    ensures Shift(Accepted(RowParser(t[0], now), t[1..])) <= RowsWithId(t)
  {
    var parse, rows := RowParser(t[0], now), t[1..];
    forall k | k in Shift(Accepted(parse, rows)) ensures k in RowsWithId(t) {
      var i :| i in Accepted(parse, rows) && k == i + 1;
      assert rows[i] == t[k];
      assert ParseRow(t[0], t[k], now).Some?;
    }
  }

  function Shift(s: set<nat>): set<nat> {
    set i | i in s :: i + 1
  }

  lemma {:induction false} ShiftKeepsSize(s: set<nat>)
    ensures |Shift(s)| == |s|
    decreases |s|
  {
    if s != {} {
      var x :| x in s;
      var rest := s - {x};
      ShiftKeepsSize(rest);
      forall y | y in Shift(s) ensures y in Shift(rest) + {x + 1} {
        var i :| i in s && y == i + 1;
        if i != x {
          assert i in rest;
        }
      }
      forall y | y in Shift(rest) + {x + 1} ensures y in Shift(s) {
        if y != x + 1 {
          var i :| i in rest && y == i + 1;
        }
      }
      assert Shift(s) == Shift(rest) + {x + 1};
      assert s == rest + {x};
    }
  }

  // ---------------------------------------------------------------------
  // Look-ups by id

  /** `findIndex(emp => emp.id === id)`, with -1 as `None`: the first match. */
  function FindIndex(records: seq<Employee>, id: string): (r: Option<nat>)
    ensures r.Some? ==> r.value < |records| && records[r.value].id == id
    ensures r.Some? ==> forall k :: 0 <= k < r.value ==> records[k].id != id
    ensures r.None? ==> forall k :: 0 <= k < |records| ==> records[k].id != id
  {
    if records == [] then None
    else if records[0].id == id then Some(0)
    else match FindIndex(records[1..], id)
      case Some(j) => Some(j + 1)
      case None => None
  }

  /** `find(emp => emp.id === id)`, with `undefined` as `None`. */
  function FindById(records: seq<Employee>, id: string): (r: Option<Employee>)
    ensures r.Some? <==> exists k :: 0 <= k < |records| && records[k].id == id
    ensures r.Some? ==> r.value.id == id && r.value in records
  {
    if records == [] then None
    else if records[0].id == id then Some(records[0])
    else FindById(records[1..], id)
  }

  /** `find` returns the element at the index `findIndex` reports. */
  lemma {:induction false} FindByIdAtFindIndex(records: seq<Employee>, id: string)
    ensures FindById(records, id)
      == match FindIndex(records, id) case Some(j) => Some(records[j]) case None => None
  {
    if records != [] && records[0].id != id {
      FindByIdAtFindIndex(records[1..], id);
    }
  }

  /** `find` gives the first record with the id, wherever it is. */
  lemma FindFirst(records: seq<Employee>, id: string, j: nat)
    requires j < |records| && records[j].id == id
    requires forall k :: 0 <= k < j ==> records[k].id != id
    ensures FindById(records, id) == Some(records[j])
  {
    FindByIdAtFindIndex(records, id);
  }

  // ---------------------------------------------------------------------
  // Positional identity

  /** The data rows 1 to `j + 1` of the table (0-based) all carry an id. */
  predicate LeadingRowsKept(t: Table, j: nat) {
    |t| > 0 && forall k :: 1 <= k <= j + 1 && k < |t| ==> RowId(t[0], t[k]) != ""
  }

  /**
   * The `+ 2` of `updateEmployeeStatus` and `removeEmployee`: when the
   * data rows up to the one addressed all carry an id, record `j` of
   * `getEmployees` is the table row `j + 1`, that is sheet row `j + 2`.
   */
  lemma RecordRow(t: Table, j: nat, now: string)
    requires j < |ParseTable(t, now)|
    requires LeadingRowsKept(t, j)
    ensures j + 1 < |t|
    ensures RowId(t[0], t[j + 1]) == ParseTable(t, now)[j].id
    ensures ParseRow(t[0], t[j + 1], now) == Some(ParseTable(t, now)[j])
    ensures |Collect(RowParser(t[0], now), t[1..][..j])| == j
  {
    var parse, rows := RowParser(t[0], now), t[1..];
    assert j < |rows|;
    forall k | 0 <= k < j + 1 ensures parse(rows[k]).Some? {
      assert rows[k] == t[k + 1];
    }
    CollectAcceptedPrefix(parse, rows, j);
    CollectAt(parse, rows, j);
  }
}
