/** The SQL text built by `create_new_table`, `delete_table` and
    `add_observation`. The statements themselves are executed by SQLite,
    which is outside this model. */
module Tables {
  import opened PyStr
  import opened Console

  const CreatePrefix := "CREATE TABLE "
  const IdColumn := " (id INTEGER PRIMARY KEY AUTOINCREMENT, "
  const DropPrefix := "DROP TABLE IF EXISTS "

  /** The line `input()` returns at position `i`, stripped, or the exception
      it raises there. What comes back has no surrounding whitespace left, so
      stripping it again changes nothing. */
  function ReadStripped(inputs: seq<Event>, i: nat): (r: Outcome<string>)
    ensures r.Returned? <==> i < |inputs| && inputs[i].Line?
    ensures r.Returned? ==> r.value == Strip(inputs[i].text)
    ensures r.Returned? ==> Strip(r.value) == r.value
    ensures r.Returned? && r.value != [] ==> !IsSpace(r.value[0]) && !IsSpace(r.value[|r.value| - 1])
  {
    if i >= |inputs| || inputs[i].Interrupt? then Raised(ReadError(inputs, i))
    else
      StripIdempotent(inputs[i].text);
      StripEnds(inputs[i].text);
      Returned(Strip(inputs[i].text))
  }

  /** The `CREATE TABLE` statement for a table name and a column list. */
  function CreateQuery(tableName: string, columns: string): string {
    CreatePrefix + tableName + IdColumn + columns + ")"
  }

  /** `create_new_table`: the statement built from the first two lines read,
      both stripped. */
  function CreateNewTable(inputs: seq<Event>): (r: Outcome<string>)
    ensures r.Returned? <==> 2 <= |inputs| && inputs[0].Line? && inputs[1].Line?
    ensures r.Returned? ==> r.value == CreateQuery(Strip(inputs[0].text), Strip(inputs[1].text))
  {
    match ReadStripped(inputs, 0)
    case Raised(e) => Raised(e)
    case Returned(tableName) =>
      match ReadStripped(inputs, 1)
      case Raised(e) => Raised(e)
      case Returned(columns) => Returned(CreateQuery(tableName, columns))
  }

  /** The `DROP TABLE` statement for a table name. */
  function DropQuery(tableName: string): string {
    DropPrefix + tableName
  }

  /** `delete_table`: the statement built from the first line read, stripped. */
  function DeleteTable(inputs: seq<Event>): (r: Outcome<string>)
    ensures r.Returned? <==> 1 <= |inputs| && inputs[0].Line?
    ensures r.Returned? ==> r.value == DropQuery(Strip(inputs[0].text))
  {
    match ReadStripped(inputs, 0)
    case Raised(e) => Raised(e)
    case Returned(tableName) => Returned(DropQuery(tableName))
  }

  /** The first position of `c` in `s`, or -1. */
  function IndexOf(s: string, c: char): (r: int)
    ensures -1 <= r < |s|
    ensures r == -1 ==> c !in s
    ensures r >= 0 ==> s[r] == c && c !in s[..r]
  {
    if s == [] then -1
    else if s[0] == c then 0
    else
      var k := IndexOf(s[1..], c);
      if k == -1 then -1
      else
        assert s[..k + 1] == [s[0]] + s[1..][..k];
        k + 1
  }

  /** Reads a `CREATE TABLE` statement back into its table name (up to the
      first space) and column list. */
  function ParseCreate(q: string): Option<(string, string)> {
    if !StartsWith(q, CreatePrefix) then None
    else
      var body := q[|CreatePrefix|..];
      var k := IndexOf(body, ' ');
      if k < 0 then None
      else
        var rest := body[k..];
        if StartsWith(rest, IdColumn) && |rest| > |IdColumn| && rest[|rest| - 1] == ')' then
          Some((body[..k], rest[|IdColumn|..|rest| - 1]))
        else None
  }

  /** Reads a `DROP TABLE` statement back into its table name. */
  function ParseDrop(q: string): Option<string> {
    if StartsWith(q, DropPrefix) then Some(q[|DropPrefix|..]) else None
  }

  /** A table name without spaces and any column list can be read back from
      the `CREATE TABLE` statement. */
  lemma CreateRoundTrip(tableName: string, columns: string)
    requires ' ' !in tableName
    ensures ParseCreate(CreateQuery(tableName, columns)) == Some((tableName, columns))
  {
    var q := CreateQuery(tableName, columns);
    assert q[..|CreatePrefix|] == CreatePrefix;
    var body := q[|CreatePrefix|..];
    assert body == tableName + (IdColumn + columns + ")");
    var k := IndexOf(body, ' ');
    assert body[|tableName|] == ' ';
    assert body[..|tableName|] == tableName;
    assert k == |tableName|;
    var rest := body[k..];
    assert rest == IdColumn + columns + ")";
    assert rest[..|IdColumn|] == IdColumn;
    assert rest[|IdColumn|..|rest| - 1] == columns;
  }

  /** Every table name can be read back from the `DROP TABLE` statement. */
  lemma DropRoundTrip(tableName: string)
    ensures ParseDrop(DropQuery(tableName)) == Some(tableName)
  {
    var q := DropQuery(tableName);
    assert q[..|DropPrefix|] == DropPrefix;
    assert q[|DropPrefix|..] == tableName;
  }

  /** `PRAGMA table_info(...)` for a table name. */
  function PragmaQuery(tableName: string): string {
    "PRAGMA table_info(" + tableName + ")"
  }

  /** One row of `PRAGMA table_info`: position, name and declared type (the
      remaining columns are not read). */
  datatype ColumnInfo = ColumnInfo(cid: int, name: string, declType: string)

  /** The names of the columns other than `id`, in table order. */
  function DataColumns(info: seq<ColumnInfo>): (cols: seq<string>)
    ensures |cols| <= |info|
    ensures forall k :: 0 <= k < |cols| ==> cols[k] != "id"
  {
    if info == [] then []
    else (if info[0].name != "id" then [info[0].name] else []) + DataColumns(info[1..])
  }

  /** Filtering works piecewise, so it keeps the table's order. */
  lemma {:induction false} DataColumnsConcat(a: seq<ColumnInfo>, b: seq<ColumnInfo>)
    ensures DataColumns(a + b) == DataColumns(a) + DataColumns(b)
  {
    if a == [] {
      assert a + b == b;
    } else {
      var head := if a[0].name != "id" then [a[0].name] else [];
      assert (a + b)[0] == a[0];
      assert (a + b)[1..] == a[1..] + b;
      DataColumnsConcat(a[1..], b);
      assert head + (DataColumns(a[1..]) + DataColumns(b)) == (head + DataColumns(a[1..])) + DataColumns(b);
    }
  }

  /** The names of a table without an `id` column are kept as they are. */
  lemma {:induction false} DataColumnsNoId(info: seq<ColumnInfo>)
    requires forall k :: 0 <= k < |info| ==> info[k].name != "id"
    ensures |DataColumns(info)| == |info|
    ensures forall k :: 0 <= k < |info| ==> DataColumns(info)[k] == info[k].name
  {
    if info != [] {
      DataColumnsNoId(info[1..]);
      assert DataColumns(info) == [info[0].name] + DataColumns(info[1..]);
    }
  }

  /** A row named `id` contributes nothing. */
  lemma DataColumnsDropsId(a: seq<ColumnInfo>, id: ColumnInfo, b: seq<ColumnInfo>)
    requires id.name == "id"
    ensures DataColumns(a + [id] + b) == DataColumns(a) + DataColumns(b)
  {
    DataColumnsConcat(a + [id], b);
    DataColumnsConcat(a, [id]);
    assert DataColumns([id]) == [];
    assert DataColumns(a) + [] == DataColumns(a);
  }

  /** The `INSERT` statement: the column list joined with commas and one `?`
      placeholder per column. */
  function InsertQuery(tableName: string, columns: seq<string>): string {
    "INSERT INTO " + tableName + " (" + Join(",", columns) + ") VALUES (" + Join(",", Repeat("?", |columns|)) + ")"
  }

  /** The number of occurrences of `c` in `s`. */
  function Count(s: string, c: char): nat {
    if s == [] then 0 else (if s[0] == c then 1 else 0) + Count(s[1..], c)
  }

  lemma {:induction false} CountConcat(a: string, b: string, c: char)
    ensures Count(a + b, c) == Count(a, c) + Count(b, c)
  {
    if a == [] {
      assert a + b == b;
    } else {
      assert (a + b)[0] == a[0];
      assert (a + b)[1..] == a[1..] + b;
      CountConcat(a[1..], b, c);
    }
  }

  /** The placeholder list for `n` columns holds exactly `n` question marks
      and, when `n > 0`, `n - 1` commas. */
  lemma {:induction false} PlaceholderCount(n: nat)
    ensures Count(Join(",", Repeat("?", n)), '?') == n
    ensures n > 0 ==> Count(Join(",", Repeat("?", n)), ',') == n - 1
  {
    if n > 1 {
      PlaceholderCount(n - 1);
      var xs := Repeat("?", n);
      assert xs[1..] == Repeat("?", n - 1);
      assert Join(",", xs) == "?" + "," + Join(",", xs[1..]);
      CountConcat("?" + ",", Join(",", xs[1..]), '?');
      CountConcat("?" + ",", Join(",", xs[1..]), ',');
    }
  }

  /** Splitting the placeholder list on commas gives `n` placeholders. */
  lemma PlaceholderSplit(n: nat)
    requires n > 0
    ensures Split(Join(",", Repeat("?", n)), ',') == Repeat("?", n)
  {
    SplitJoin(Repeat("?", n), ',');
  }

  /** The statement `add_observation` executes, and its parameters. */
  datatype Insert = Insert(sql: string, params: seq<string>)

  /** `add_observation(cursor, conn, tableName)`: `tableInfo` is what
      `PRAGMA table_info` fetches for a statement. One stripped line is read
      per data column; the insert is built from those columns and values. */
  method AddObservation(tableName: string, tableInfo: string -> seq<ColumnInfo>, inputs: seq<Event>)
    returns (r: Outcome<Insert>)
    ensures var columns := DataColumns(tableInfo(PragmaQuery(tableName)));
      && (r.Returned? <==> |columns| <= |inputs| && forall k :: 0 <= k < |columns| ==> inputs[k].Line?)
      && (r.Returned? ==> r.value.sql == InsertQuery(tableName, columns)
                          && |r.value.params| == |columns|
                          && forall k :: 0 <= k < |columns| ==> r.value.params[k] == Strip(inputs[k].text))
      && (r.Raised? ==> exists k :: 0 <= k < |columns| && (k >= |inputs| || inputs[k].Interrupt?)
                                    && (forall m :: 0 <= m < k ==> m < |inputs| && inputs[m].Line?)
                                    && r.error == ReadError(inputs, k))
  {
    var columns := DataColumns(tableInfo(PragmaQuery(tableName)));
    var values: seq<string> := [];
    for k := 0 to |columns|
      invariant k <= |inputs| && forall m :: 0 <= m < k ==> inputs[m].Line?
      invariant |values| == k
      invariant forall m :: 0 <= m < k ==> values[m] == Strip(inputs[m].text)
    {
      if k == |inputs| || inputs[k].Interrupt? {
        r := Raised(ReadError(inputs, k));
        return;
      }
      var value := Strip(inputs[k].text);
      values := values + [value];
    }
    r := Returned(Insert(InsertQuery(tableName, columns), values));
  }
}
