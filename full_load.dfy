// inct_create.py: the full-load script's SQL text generation.  The DDL and
// every INSERT statement are accumulated with `+=` in loops and trimmed by
// slicing; each row value is normalised by its column's declared type and
// quoted when the column holds text.
module FullLoad {
  import opened Results
  import opened Text

  /** A source field, its declared column type (FIELDS) and its destination
      column name (NEW_FIELDS); the two dictionaries share their keys. */
  datatype Field = Field(name: string, sqlType: string, column: string)

  /** FIELDS joined with NEW_FIELDS, in a fixed order (the source iterates a
      Python 2 dict, whose order is not modelled). */
  const FIELDS: seq<Field> := [
    Field("objectid", "BIGINT", "OBJECTID"),
    Field("dc_dist", "TEXT", "DISTRICT"),
    Field("psa", "TEXT", "PSA"),
    Field("dispatch_date_time", "TIMESTAMP", "DATE_TIME_OCCUR"),
    Field("dc_key", "BIGINT PRIMARY KEY", "DC_NUMBER"),
    Field("location_block", "TEXT", "LOCATION"),
    Field("ucr_general", "INT", "UCR"),
    Field("text_general_code", "TEXT", "CRIME_TYPE"),
    Field("lng", "DOUBLE PRECISION", "X"),
    Field("lat", "DOUBLE PRECISION", "Y")
  ]

  const TABLE := "ODP_CRIME_INCIDENTS"
  const DEFAULT_SCHEMA := "public"
  const INT_TYPES := ["BIGINT", "INT"]
  const FLOAT_TYPES := ["DOUBLE PRECISION"]
  const QUOTED_TYPES := ["TEXT", "TIMESTAMP"]

  // ---------------------------------------------------------------------------
  // Command line: `inct_create.py connection [schema]`.

  datatype ArgError = NoArguments | TooManyArguments
  datatype Settings = Settings(connection: string, tableName: string)

  /** `argv` is `sys.argv`, the script name first. */
  function ParseArgs(argv: seq<string>): (r: Result<Settings, ArgError>)
    ensures r == Failure(NoArguments) <==> |argv| < 2
    ensures r == Failure(TooManyArguments) <==> |argv| > 3
    ensures r.Success? ==> r.value.connection == argv[1]
    ensures r.Success? ==> r.value.tableName == (if |argv| == 3 then argv[2] else DEFAULT_SCHEMA) + "." + TABLE
  {
    if |argv| < 2 then Failure(NoArguments)
    else if |argv| > 3 then Failure(TooManyArguments)
    else
      var schema := if |argv| > 2 then argv[2] else DEFAULT_SCHEMA;
      Success(Settings(argv[1], schema + "." + TABLE))
  }

  // ---------------------------------------------------------------------------
  // DDL

  function ColumnDef(f: Field): string
  {
    "\n\t" + f.column + " " + f.sqlType + " NOT NULL"
  }

  function ColumnDefs(fields: seq<Field>): (r: seq<string>)
    ensures |r| == |fields|
    ensures forall i :: 0 <= i < |fields| ==> r[i] == ColumnDef(fields[i])
  {
    if |fields| == 0 then []
    else ColumnDefs(fields[..|fields| - 1]) + [ColumnDef(fields[|fields| - 1])]
  }

  function DdlHead(tableName: string): string
  {
    "DROP TABLE IF EXISTS " + tableName + ";\nCREATE TABLE " + tableName + "\n\t("
  }

  /** The DDL: drop, then create with one NOT NULL column per field, comma separated. */
  function DdlText(tableName: string, fields: seq<Field>): string
  {
    DdlHead(tableName) + Join(ColumnDefs(fields), ",") + "\n);"
  }

  lemma PrefixDefs(fields: seq<Field>, i: nat)
    requires i < |fields|
    ensures ColumnDefs(fields[..i + 1]) == ColumnDefs(fields[..i]) + [ColumnDef(fields[i])]
  {
    assert fields[..i + 1][..i] == fields[..i];
  }

  /** The DDL text after the loop has appended the first `i` columns. */
  function DdlPrefix(tableName: string, fields: seq<Field>, i: nat): string
    requires i <= |fields|
  {
    DdlHead(tableName) + Terminated(ColumnDefs(fields[..i]), ",")
  }

  lemma DdlStep(tableName: string, fields: seq<Field>, i: nat)
    requires i < |fields|
    ensures DdlPrefix(tableName, fields, i + 1) == DdlPrefix(tableName, fields, i) + ColumnDef(fields[i]) + ","
  {
    PrefixDefs(fields, i);
    TerminatedSnoc(ColumnDefs(fields[..i]), ColumnDef(fields[i]), ",");
  }

  lemma DdlFinish(tableName: string, fields: seq<Field>)
    requires |fields| > 0
    ensures var sql := DdlPrefix(tableName, fields, |fields|);
            sql[..|sql| - 1] + "\n);" == DdlText(tableName, fields)
  {
    assert fields[..|fields|] == fields;
    var body := DdlHead(tableName) + Join(ColumnDefs(fields), ",");
    TerminatedIsJoin(ColumnDefs(fields), ",");
    assert DdlPrefix(tableName, fields, |fields|) == body + ",";
    DropSeparator(body, ",");
  }

  /** Builds the DDL as the script does: append each column with a trailing comma,
      then drop the last character and close the statement.  The script passes
      FIELDS, which is not empty. */
  method BuildDdl(tableName: string, fields: seq<Field>) returns (sql: string)
    requires |fields| > 0
    ensures sql == DdlText(tableName, fields)
  {
    sql := DdlHead(tableName);
    assert fields[..0] == [];
    for i := 0 to |fields|
      invariant sql == DdlPrefix(tableName, fields, i)
    {
      DdlStep(tableName, fields, i);
      sql := sql + ColumnDef(fields[i]) + ",";
    }
    DdlFinish(tableName, fields);
    sql := sql[..|sql| - 1] + "\n);";
  }

  /** Neither the column name nor the type of `f` contains a comma. */
  predicate Plain(f: Field)
  {
    FreeOf(f.column, ",") && FreeOf(f.sqlType, ",")
  }

  lemma CommaFree(f: Field)
    requires ',' !in f.column && ',' !in f.sqlType
    ensures Plain(f)
  {
    assert forall i :: 0 <= i < |f.column| ==> f.column[i] in f.column;
    assert forall i :: 0 <= i < |f.sqlType| ==> f.sqlType[i] in f.sqlType;
  }

  lemma FieldsArePlainLow()
    ensures Plain(FIELDS[0]) && Plain(FIELDS[1]) && Plain(FIELDS[2]) && Plain(FIELDS[3]) && Plain(FIELDS[4])
  {
    CommaFree(FIELDS[0]); CommaFree(FIELDS[1]); CommaFree(FIELDS[2]); CommaFree(FIELDS[3]); CommaFree(FIELDS[4]);
  }

  lemma FieldsArePlainHigh()
    ensures Plain(FIELDS[5]) && Plain(FIELDS[6]) && Plain(FIELDS[7]) && Plain(FIELDS[8]) && Plain(FIELDS[9])
  {
    CommaFree(FIELDS[5]); CommaFree(FIELDS[6]); CommaFree(FIELDS[7]); CommaFree(FIELDS[8]); CommaFree(FIELDS[9]);
  }

  /** No column name or type of FIELDS contains a comma. */
  lemma FieldsArePlain()
    ensures forall k :: 0 <= k < |FIELDS| ==> Plain(FIELDS[k])
  {
    FieldsArePlainLow();
    FieldsArePlainHigh();
    forall k | 0 <= k < |FIELDS| ensures Plain(FIELDS[k]) {
      if k < 5 {
        assert k == 0 || k == 1 || k == 2 || k == 3 || k == 4;
      } else {
        assert k == 5 || k == 6 || k == 7 || k == 8 || k == 9;
      }
    }
  }

  lemma PlainColumnDef(f: Field)
    requires Plain(f)
    ensures FreeOf(ColumnDef(f), ",")
  {
    FreeOfAppend("\n\t", f.column, ",");
    FreeOfAppend("\n\t" + f.column, " ", ",");
    FreeOfAppend("\n\t" + f.column + " ", f.sqlType, ",");
    FreeOfAppend("\n\t" + f.column + " " + f.sqlType, " NOT NULL", ",");
  }

  /** Splitting the column block of the DDL at its commas gives back one
      `NAME TYPE NOT NULL` definition per field, in field order. */
  lemma DdlColumnsRecoverable(fields: seq<Field>)
    requires |fields| > 0 && forall k :: 0 <= k < |fields| ==> Plain(fields[k])
    ensures Split(Join(ColumnDefs(fields), ","), ",") == ColumnDefs(fields)
  {
    var defs := ColumnDefs(fields);
    forall k | 0 <= k < |defs| ensures FreeOf(defs[k], ",") {
      PlainColumnDef(fields[k]);
    }
    SplitJoin(defs, ",");
  }

  // ---------------------------------------------------------------------------
  // Row values

  /** A Python value held in `value` while a row is processed. */
  datatype Value = NoneValue | Str(s: string) | IntZero | FloatZero

  /** `value in BLANK_VALS`, BLANK_VALS being [None, "", " "]. */
  predicate IsBlank(cell: Option<string>)
  {
    cell == None || cell == Some("") || cell == Some(" ")
  }

  function FromCell(cell: Option<string>): Value
  {
    match cell
    case None => NoneValue
    case Some(s) => Str(s)
  }

  /** The type-driven default applied to a cell of `csv.DictReader`'s row. */
  function Normalise(sqlType: string, cell: Option<string>): (v: Value)
    ensures sqlType in QUOTED_TYPES ==> v.Str?
    ensures !IsBlank(cell) ==> v == FromCell(cell)
    ensures sqlType !in INT_TYPES && sqlType !in FLOAT_TYPES && sqlType !in QUOTED_TYPES ==> v == FromCell(cell)
  {
    if sqlType in INT_TYPES && IsBlank(cell) then IntZero
    else if sqlType in FLOAT_TYPES && IsBlank(cell) then FloatZero
    else if sqlType in QUOTED_TYPES && cell == None then Str("")
    else FromCell(cell)
  }

  /** `s.replace("'", "''")`. */
  function Escape(s: string): (r: string)
    ensures |r| >= |s|
  {
    if |s| == 0 then ""
    else (if s[0] == '\'' then "''" else [s[0]]) + Escape(s[1..])
  }

  /** `"'{}'".format(Escape(s))`. */
  function Quote(s: string): string
  {
    "'" + Escape(s) + "'"
  }

  /** How SQL reads the body of a string literal whose opening quote has been
      consumed: `''` stands for one quote, a lone quote closes the literal.
      Returns the content and the text after the closing quote. */
  function ReadLiteral(t: string): Option<(string, string)>
    decreases |t|
  {
    if |t| == 0 then None
    else if t[0] == '\'' then
      if |t| > 1 && t[1] == '\'' then
        match ReadLiteral(t[2..])
        case None => None
        case Some(p) => Some((['\''] + p.0, p.1))
      else Some(("", t[1..]))
    else
      match ReadLiteral(t[1..])
      case None => None
      case Some(p) => Some(([t[0]] + p.0, p.1))
  }

  /** An escaped value followed by the closing quote reads back as exactly that
      value, and reading resumes right after the closing quote, whatever
      follows (unless it is another quote, which would double the closing one). */
  lemma {:induction false} ReadEscaped(s: string, rest: string)
    requires |rest| == 0 || rest[0] != '\''
    ensures ReadLiteral(Escape(s) + "'" + rest) == Some((s, rest))
  {
    var t := Escape(s) + "'" + rest;
    if |s| == 0 {
      assert t == "'" + rest;
      assert t[1..] == rest;
    } else if s[0] == '\'' {
      assert t == "''" + (Escape(s[1..]) + "'" + rest);
      assert t[2..] == Escape(s[1..]) + "'" + rest;
      ReadEscaped(s[1..], rest);
      assert ['\''] + s[1..] == s;
    } else {
      assert t == [s[0]] + (Escape(s[1..]) + "'" + rest);
      assert t[1..] == Escape(s[1..]) + "'" + rest;
      ReadEscaped(s[1..], rest);
      assert [s[0]] + s[1..] == s;
    }
  }

  /** Strip the outer quotes and un-double the inner ones. */
  function Unquote(lit: string): Option<string>
  {
    if |lit| > 0 && lit[0] == '\'' then
      match ReadLiteral(lit[1..])
      case Some(p) => if p.1 == "" then Some(p.0) else None
      case None => None
    else None
  }

  lemma QuoteRoundTrip(s: string)
    ensures Unquote(Quote(s)) == Some(s)
  {
    ReadEscaped(s, "");
    assert Quote(s)[1..] == Escape(s) + "'" + "";
  }

  /** `"{}".format(value)` for a value that is not quoted. */
  function Bare(v: Value): string
  {
    match v
    case NoneValue => "None"
    case Str(s) => s
    case IntZero => "0"
    case FloatZero => "0.0"
  }

  /** The SQL text the script emits for one cell of a column of type `sqlType`. */
  function Literal(sqlType: string, cell: Option<string>): string
  {
    var v := Normalise(sqlType, cell);
    if sqlType in QUOTED_TYPES then Quote(v.s) else Bare(v)
  }

  /** The blank-value policy as it reaches the SQL text, column by column of FIELDS. */
  lemma BlankPolicy(cell: Option<string>)
    requires IsBlank(cell)
    ensures Literal("BIGINT", cell) == "0" && Literal("INT", cell) == "0"
    ensures Literal("DOUBLE PRECISION", cell) == "0.0"
    ensures Literal("BIGINT PRIMARY KEY", cell) == Bare(FromCell(cell))
    ensures Literal("TEXT", cell) == Literal("TIMESTAMP", cell) == Quote(if cell == None then "" else cell.value)
  {
  }

  /** Text and timestamp cells are emitted as quoted literals that read back as the
      (possibly defaulted) cell value; other columns are emitted bare. */
  lemma LiteralReadsBack(sqlType: string, cell: Option<string>)
    ensures sqlType in QUOTED_TYPES ==>
              Unquote(Literal(sqlType, cell)) == Some(if cell == None then "" else cell.value)
    ensures sqlType !in QUOTED_TYPES ==> Literal(sqlType, cell) == Bare(Normalise(sqlType, cell))
  {
    if sqlType in QUOTED_TYPES {
      QuoteRoundTrip(Normalise(sqlType, cell).s);
    }
  }

  // ---------------------------------------------------------------------------
  // INSERT statements

  /** A row of `csv.DictReader`: header name to cell (`None` when the line is short). */
  type Row = map<string, Option<string>>

  predicate Covers(fields: seq<Field>, row: Row)
  {
    forall i :: 0 <= i < |fields| ==> fields[i].name in row
  }

  function Columns(fields: seq<Field>): (r: seq<string>)
    ensures |r| == |fields|
    ensures forall i :: 0 <= i < |fields| ==> r[i] == fields[i].column
  {
    if |fields| == 0 then []
    else Columns(fields[..|fields| - 1]) + [fields[|fields| - 1].column]
  }

  function Literals(fields: seq<Field>, row: Row): (r: seq<string>)
    requires Covers(fields, row)
    ensures |r| == |fields|
  {
    if |fields| == 0 then []
    else
      var f := fields[|fields| - 1];
      Literals(fields[..|fields| - 1], row) + [Literal(f.sqlType, row[f.name])]
  }

  /** The first field, in field order, that the row lacks (`row[field]` raises KeyError). */
  function MissingField(fields: seq<Field>, row: Row): (r: Option<string>)
    ensures r == None <==> Covers(fields, row)
  {
    if |fields| == 0 then None
    else if fields[0].name !in row then Some(fields[0].name)
    else
      var r := MissingField(fields[1..], row);
      assert Covers(fields[1..], row) ==> Covers(fields, row) by {
        if Covers(fields[1..], row) {
          forall i | 0 <= i < |fields| ensures fields[i].name in row {
            if i > 0 { assert fields[i] == fields[1..][i - 1]; }
          }
        }
      }
      r
  }

  function InsertText(tableName: string, fields: seq<Field>, row: Row): string
    requires Covers(fields, row)
  {
    "INSERT INTO " + tableName + " (" + Join(Columns(fields), ", ") + ") "
      + "VALUES (" + Join(Literals(fields, row), ", ") + ");"
  }

  /** KeyError on the first missing field, otherwise the INSERT statement. */
  function InsertStatement(tableName: string, fields: seq<Field>, row: Row): Result<string, string>
  {
    match MissingField(fields, row)
    case Some(name) => Failure(name)
    case None => Success(InsertText(tableName, fields, row))
  }

  lemma {:induction false} MissingFieldIsFirst(fields: seq<Field>, row: Row, i: nat)
    requires i < |fields| && fields[i].name !in row
    requires forall j :: 0 <= j < i ==> fields[j].name in row
    ensures MissingField(fields, row) == Some(fields[i].name)
  {
    if i > 0 {
      MissingFieldIsFirst(fields[1..], row, i - 1);
    }
  }

  lemma PrefixLists(fields: seq<Field>, row: Row, i: nat)
    requires i < |fields|
    requires forall j :: 0 <= j <= i ==> fields[j].name in row
    ensures Covers(fields[..i], row) && Covers(fields[..i + 1], row)
    ensures Columns(fields[..i + 1]) == Columns(fields[..i]) + [fields[i].column]
    ensures Literals(fields[..i + 1], row) == Literals(fields[..i], row) + [Literal(fields[i].sqlType, row[fields[i].name])]
  {
    assert fields[..i + 1][..i] == fields[..i];
  }

  /** The column list after the loop has appended the first `i` columns. */
  function ColumnsPrefix(tableName: string, fields: seq<Field>, i: nat): string
    requires i <= |fields|
  {
    "INSERT INTO " + tableName + " (" + Terminated(Columns(fields[..i]), ", ")
  }

  /** The value list after the loop has appended the first `i` values. */
  function ValuesPrefix(fields: seq<Field>, row: Row, i: nat): string
    requires i <= |fields| && Covers(fields[..i], row)
  {
    "VALUES (" + Terminated(Literals(fields[..i], row), ", ")
  }

  lemma InsertStep(tableName: string, fields: seq<Field>, row: Row, i: nat)
    requires i < |fields|
    requires forall j :: 0 <= j <= i ==> fields[j].name in row
    ensures Covers(fields[..i], row) && Covers(fields[..i + 1], row)
    ensures ColumnsPrefix(tableName, fields, i + 1) == ColumnsPrefix(tableName, fields, i) + fields[i].column + ", "
    ensures ValuesPrefix(fields, row, i + 1)
            == ValuesPrefix(fields, row, i) + Literal(fields[i].sqlType, row[fields[i].name]) + ", "
  {
    PrefixLists(fields, row, i);
    TerminatedSnoc(Columns(fields[..i]), fields[i].column, ", ");
    TerminatedSnoc(Literals(fields[..i], row), Literal(fields[i].sqlType, row[fields[i].name]), ", ");
  }

  lemma InsertFinish(tableName: string, fields: seq<Field>, row: Row, c: string, v: string)
    requires |fields| > 0 && Covers(fields, row)
    requires c == ColumnsPrefix(tableName, fields, |fields|)
    requires v == ValuesPrefix(fields, row, |fields|)
    ensures |c| >= 2 && |v| >= 2
    ensures (c[..|c| - 2] + ")") + " " + (v[..|v| - 2] + ")") + ";" == InsertText(tableName, fields, row)
  {
    assert fields[..|fields|] == fields;
    var columns := "INSERT INTO " + tableName + " (" + Join(Columns(fields), ", ");
    var values := "VALUES (" + Join(Literals(fields, row), ", ");
    TerminatedIsJoin(Columns(fields), ", ");
    TerminatedIsJoin(Literals(fields, row), ", ");
    assert ColumnsPrefix(tableName, fields, |fields|) == columns + ", ";
    assert ValuesPrefix(fields, row, |fields|) == values + ", ";
    DropSeparator(columns, ", ");
    DropSeparator(values, ", ");
    assert c[..|c| - 2] == columns && v[..|v| - 2] == values;
  }

  /** The loop body's value handling: start from the cell, replace a blank
      number by its type's zero and a missing text by "", then quote text
      columns. */
  method RenderValue(sqlType: string, cell: Option<string>) returns (text: string)
    ensures text == Literal(sqlType, cell)
  {
    var value := FromCell(cell);
    if sqlType in INT_TYPES && IsBlank(cell) {
      value := IntZero;
    } else if sqlType in FLOAT_TYPES && IsBlank(cell) {
      value := FloatZero;
    } else if sqlType in QUOTED_TYPES && cell == None {
      value := Str("");
    }
    text := if sqlType in QUOTED_TYPES then "'" + Escape(value.s) + "'" else Bare(value);
  }

  /** The per-row loop: append each column name and each rendered value with a
      trailing ", ", then trim both and close them with ")".  The script passes
      FIELDS, which is not empty. */
  method BuildInsert(tableName: string, fields: seq<Field>, row: Row) returns (r: Result<string, string>)
    requires |fields| > 0
    ensures r == InsertStatement(tableName, fields, row)
  {
    var insertSql := "INSERT INTO " + tableName + " (";
    var valueSql := "VALUES (";
    assert fields[..0] == [];
    for i := 0 to |fields|
      invariant forall j :: 0 <= j < i ==> fields[j].name in row
      invariant Covers(fields[..i], row)
      invariant insertSql == ColumnsPrefix(tableName, fields, i)
      invariant valueSql == ValuesPrefix(fields, row, i)
    {
      var f := fields[i];
      insertSql := insertSql + f.column + ", ";
      if f.name !in row {
        MissingFieldIsFirst(fields, row, i);
        return Failure(f.name);
      }
      var text := RenderValue(f.sqlType, row[f.name]);
      valueSql := valueSql + text + ", ";
      InsertStep(tableName, fields, row, i);
    }
    assert Covers(fields, row);
    InsertFinish(tableName, fields, row, insertSql, valueSql);
    insertSql, valueSql := insertSql[..|insertSql| - 2] + ")", valueSql[..|valueSql| - 2] + ")";
    r := Success(insertSql + " " + valueSql + ";");
  }

  /** Values are built side by side with the columns: the i-th value is the
      rendering of the i-th field's cell. */
  lemma {:induction false} LiteralsAligned(fields: seq<Field>, row: Row)
    requires Covers(fields, row)
    ensures forall i :: 0 <= i < |fields| ==>
              Literals(fields, row)[i] == Literal(fields[i].sqlType, row[fields[i].name])
  {
    if |fields| > 0 {
      var init := fields[..|fields| - 1];
      assert Covers(init, row);
      LiteralsAligned(init, row);
      forall i | 0 <= i < |fields| - 1
        ensures Literals(fields, row)[i] == Literal(fields[i].sqlType, row[fields[i].name])
      {
        assert init[i] == fields[i];
      }
    }
  }

  /** Splitting the column list of an INSERT at ", " gives back the destination
      column names in field order. */
  lemma InsertColumnsRecoverable(fields: seq<Field>)
    requires |fields| > 0 && forall k :: 0 <= k < |fields| ==> Plain(fields[k])
    ensures Split(Join(Columns(fields), ", "), ", ") == Columns(fields)
  {
    SplitJoin(Columns(fields), ", ");
  }

  // ---------------------------------------------------------------------------
  // The script as a whole: DDL, one INSERT per downloaded row, the geometry
  // column, then commit.  The database is an oracle `accepts` that says whether
  // a statement executes without a ProgrammingError; the CSV rows are a parameter.

  /** Adds the Web Mercator geometry computed from X and Y, then drops X and Y. */
  function GeometrySql(tableName: string): string
  {
    "ALTER TABLE " + tableName + " ADD COLUMN geom_3857 geometry;"
      + "\nUPDATE " + tableName + " SET geom_3857 = ST_Transform(ST_SetSRID(ST_Point(x, y), 4326), 3857);"
      + "\nALTER TABLE " + tableName + " DROP COLUMN X, DROP COLUMN Y;"
  }

  /** How the script ends.  Only `Committed` reaches `cnxn.commit()`; every
      other ending leaves the transaction uncommitted.  `executed` lists the
      statements that ran before the ending. */
  datatype LoadOutcome =
    | ArgumentError(argError: ArgError)
    | ConnectionFailed
    | Rejected(statement: string, executed: seq<string>)
    | MissingColumn(name: string, executed: seq<string>)
    | Committed(executed: seq<string>)

  /** The row loop from row `i` on, `executed` having run already. */
  function LoadFrom(tableName: string, fields: seq<Field>, rows: seq<Row>, accepts: string -> bool,
                    i: nat, executed: seq<string>): LoadOutcome
    requires i <= |rows|
    decreases |rows| - i
  {
    if i == |rows| then
      var geometry := GeometrySql(tableName);
      if accepts(geometry) then Committed(executed + [geometry]) else Rejected(geometry, executed)
    else
      match InsertStatement(tableName, fields, rows[i])
      case Failure(name) => MissingColumn(name, executed)
      case Success(insert) =>
        if accepts(insert) then LoadFrom(tableName, fields, rows, accepts, i + 1, executed + [insert])
        else Rejected(insert, executed)
  }

  function LoadSpec(argv: seq<string>, connects: bool, accepts: string -> bool, rows: seq<Row>): LoadOutcome
  {
    match ParseArgs(argv)
    case Failure(e) => ArgumentError(e)
    case Success(settings) =>
      if !connects then ConnectionFailed
      else
        var ddl := DdlText(settings.tableName, FIELDS);
        if !accepts(ddl) then Rejected(ddl, [])
        else LoadFrom(settings.tableName, FIELDS, rows, accepts, 0, [ddl])
  }

  /** The script's main block, with the download replaced by `rows`. */
  method Run(argv: seq<string>, connects: bool, accepts: string -> bool, rows: seq<Row>)
    returns (outcome: LoadOutcome)
    ensures outcome == LoadSpec(argv, connects, accepts, rows)
  {
    var parsed := ParseArgs(argv);
    if parsed.Failure? {
      return ArgumentError(parsed.error);
    }
    var tableName := parsed.value.tableName;
    if !connects {
      return ConnectionFailed;
    }
    var sql := BuildDdl(tableName, FIELDS);
    if !accepts(sql) {
      return Rejected(sql, []);
    }
    var executed := [sql];
    var i := 0;
    while i < |rows|
      invariant 0 <= i <= |rows|
      invariant LoadFrom(tableName, FIELDS, rows, accepts, i, executed) == LoadSpec(argv, connects, accepts, rows)
    {
      var r := BuildInsert(tableName, FIELDS, rows[i]);
      if r.Failure? {
        return MissingColumn(r.error, executed);
      }
      if !accepts(r.value) {
        return Rejected(r.value, executed);
      }
      executed := executed + [r.value];
      i := i + 1;
    }
    sql := GeometrySql(tableName);
    if !accepts(sql) {
      return Rejected(sql, executed);
    }
    outcome := Committed(executed + [sql]);
  }

  /** Every row has every field and the database takes its INSERT. */
  predicate RowsLoad(tableName: string, fields: seq<Field>, rows: seq<Row>, accepts: string -> bool)
  {
    forall j :: 0 <= j < |rows| ==> Covers(fields, rows[j]) && accepts(InsertText(tableName, fields, rows[j]))
  }

  /** One INSERT per row, in row order. */
  function InsertTexts(tableName: string, fields: seq<Field>, rows: seq<Row>): (r: seq<string>)
    requires forall j :: 0 <= j < |rows| ==> Covers(fields, rows[j])
    ensures |r| == |rows|
    ensures forall j :: 0 <= j < |rows| ==> r[j] == InsertText(tableName, fields, rows[j])
  {
    if |rows| == 0 then []
    else [InsertText(tableName, fields, rows[0])] + InsertTexts(tableName, fields, rows[1..])
  }

  lemma RowsLoadCons(tableName: string, fields: seq<Field>, rows: seq<Row>, accepts: string -> bool)
    requires |rows| > 0
    ensures RowsLoad(tableName, fields, rows, accepts) <==>
              Covers(fields, rows[0]) && accepts(InsertText(tableName, fields, rows[0]))
              && RowsLoad(tableName, fields, rows[1..], accepts)
  {
    if Covers(fields, rows[0]) && accepts(InsertText(tableName, fields, rows[0]))
       && RowsLoad(tableName, fields, rows[1..], accepts) {
      forall j | 0 <= j < |rows|
        ensures Covers(fields, rows[j]) && accepts(InsertText(tableName, fields, rows[j]))
      {
        if j > 0 { assert rows[j] == rows[1..][j - 1]; }
      }
    }
  }

  /** The row loop commits exactly when every remaining row loads and the
      geometry step runs, and then it has executed one INSERT per row, in order. */
  lemma {:induction false} LoadFromCommits(tableName: string, fields: seq<Field>, rows: seq<Row>,
                                           accepts: string -> bool, i: nat, executed: seq<string>)
    requires i <= |rows|
    decreases |rows| - i
    ensures LoadFrom(tableName, fields, rows, accepts, i, executed).Committed?
            <==> RowsLoad(tableName, fields, rows[i..], accepts) && accepts(GeometrySql(tableName))
    ensures LoadFrom(tableName, fields, rows, accepts, i, executed).Committed? ==>
              LoadFrom(tableName, fields, rows, accepts, i, executed).executed
              == executed + InsertTexts(tableName, fields, rows[i..]) + [GeometrySql(tableName)]
  {
    if i < |rows| {
      var rest := rows[i..];
      assert rest[1..] == rows[i + 1..] && rest[0] == rows[i];
      RowsLoadCons(tableName, fields, rest, accepts);
      match InsertStatement(tableName, fields, rows[i])
      case Failure(_) =>
      case Success(insert) =>
        if accepts(insert) {
          LoadFromCommits(tableName, fields, rows, accepts, i + 1, executed + [insert]);
        }
    }
  }

  /** The script commits exactly when its arguments are valid, the connection
      opens, and every statement runs; it has then executed the DDL, one INSERT
      per row in order, and the geometry step. */
  lemma LoadCommits(argv: seq<string>, connects: bool, accepts: string -> bool, rows: seq<Row>)
    ensures var tableName := (if |argv| == 3 then argv[2] else DEFAULT_SCHEMA) + "." + TABLE;
            LoadSpec(argv, connects, accepts, rows).Committed? <==>
              2 <= |argv| <= 3 && connects && accepts(DdlText(tableName, FIELDS))
              && RowsLoad(tableName, FIELDS, rows, accepts) && accepts(GeometrySql(tableName))
    ensures var tableName := (if |argv| == 3 then argv[2] else DEFAULT_SCHEMA) + "." + TABLE;
            LoadSpec(argv, connects, accepts, rows).Committed? ==>
              LoadSpec(argv, connects, accepts, rows).executed
              == [DdlText(tableName, FIELDS)] + InsertTexts(tableName, FIELDS, rows) + [GeometrySql(tableName)]
  {
    var tableName := (if |argv| == 3 then argv[2] else DEFAULT_SCHEMA) + "." + TABLE;
    assert rows[0..] == rows;
    LoadFromCommits(tableName, FIELDS, rows, accepts, 0, [DdlText(tableName, FIELDS)]);
  }
}
