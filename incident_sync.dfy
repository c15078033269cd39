// PublicSafety/inct2pg.py: the incremental incident sync.  The script builds
// the download query, builds one parameterised INSERT from the CSV header,
// cleans each row and inserts it, deleting and re-inserting on a key
// conflict, then commits.  The database is modelled by the `Sync` class: the
// destination table as a map from key to row, with the last committed
// snapshot beside the pending (uncommitted) one.
module IncidentSync {
  import opened Results
  import opened Text

  const ODP_TABLE := "incidents_part1_part2"
  const GEOM := "the_geom"
  const WGS_84 := 4326
  const KEY_FIELD := "dc_number"

  /** ORDERED_FIELDS, each paired with its PRETTY_NAMES alias, in query order. */
  const ALIASES: seq<(string, string)> := [
    ("dc_key", "DC_NUMBER"),
    ("dc_dist", "DISTRICT"),
    ("psa", "PSA"),
    ("dispatch_date_time", "DATE_TIME_OCCUR"),
    ("objectid", "OBJECTID"),
    ("location_block", "LOCATION"),
    ("ucr_general", "UCR"),
    ("text_general_code", "CRIME_TYPE")
  ]

  // ---------------------------------------------------------------------------
  // The download query

  function Projection(alias: (string, string)): string
  {
    alias.0 + " as " + alias.1
  }

  function Projections(aliases: seq<(string, string)>): (r: seq<string>)
    ensures |r| == |aliases|
    ensures forall i :: 0 <= i < |aliases| ==> r[i] == Projection(aliases[i])
  {
    seq(|aliases|, i requires 0 <= i < |aliases| => Projection(aliases[i]))
  }

  const Y_COLUMN := "ST_Y(" + GEOM + ") as y"
  const X_COLUMN := "ST_X(" + GEOM + ") as x"
  const WKT_COLUMN := "ST_AsText(" + GEOM + ") as geom"

  /** The three geometry expressions appended after the aliased fields. */
  function GeometryColumns(): seq<string>
  {
    [Y_COLUMN, X_COLUMN, WKT_COLUMN]
  }

  /** The select list as the script assembles it with `join` and `+=`. */
  function SelectList(aliases: seq<(string, string)>): string
  {
    Join(Projections(aliases), ", ") + ", " + Y_COLUMN + ", " + X_COLUMN + ", " + WKT_COLUMN
  }

  lemma GeometryColumnsPlain()
    ensures forall k :: 0 <= k < |GeometryColumns()| ==> FreeOf(GeometryColumns()[k], ", ")
  {
    FreeOfAbsent(Y_COLUMN, ", ");
    FreeOfAbsent(X_COLUMN, ", ");
    FreeOfAbsent(WKT_COLUMN, ", ");
  }

  lemma ProjectionPlain(alias: (string, string))
    requires PlainAlias(alias)
    ensures FreeOf(Projection(alias), ", ")
  {
    FreeOfAbsent(alias.0, ", ");
    FreeOfAbsent(alias.1, ", ");
    FreeOfAbsent(" as ", ", ");
    FreeOfAppend(alias.0, " as ", ", ");
    FreeOfAppend(alias.0 + " as ", alias.1, ", ");
  }

  /** The `where` clause added when the table exists and has a latest date. */
  function DateFilter(maxDate: Option<string>): string
  {
    match maxDate
    case None => ""
    case Some(d) => " where dispatch_date_time > '" + d + "'"
  }

  function SourceQuery(maxDate: Option<string>): string
  {
    "SELECT " + SelectList(ALIASES) + " FROM " + ODP_TABLE + DateFilter(maxDate)
  }

  /** Neither a source field nor its alias contains a comma. */
  predicate PlainAlias(alias: (string, string))
  {
    ',' !in alias.0 && ',' !in alias.1
  }

  lemma AliasesArePlainLow()
    ensures PlainAlias(ALIASES[0]) && PlainAlias(ALIASES[1]) && PlainAlias(ALIASES[2]) && PlainAlias(ALIASES[3])
  {
  }

  lemma AliasesArePlainHigh()
    ensures PlainAlias(ALIASES[4]) && PlainAlias(ALIASES[5]) && PlainAlias(ALIASES[6]) && PlainAlias(ALIASES[7])
  {
  }

  lemma AliasesArePlain()
    ensures forall k :: 0 <= k < |ALIASES| ==> PlainAlias(ALIASES[k])
  {
    AliasesArePlainLow();
    AliasesArePlainHigh();
    forall k | 0 <= k < |ALIASES| ensures PlainAlias(ALIASES[k]) {
      if k < 4 {
        assert k == 0 || k == 1 || k == 2 || k == 3;
      } else {
        assert k == 4 || k == 5 || k == 6 || k == 7;
      }
    }
  }

  /** Splitting the select list at ", " gives one `field as ALIAS` per
      aliased field, in ORDERED_FIELDS order, followed by the y, x and geom
      expressions. */
  lemma SelectListRecoverable(aliases: seq<(string, string)>)
    requires |aliases| > 0
    requires forall k :: 0 <= k < |aliases| ==> PlainAlias(aliases[k])
    ensures Split(SelectList(aliases), ", ") == Projections(aliases) + GeometryColumns()
  {
    var p := Projections(aliases);
    var g := GeometryColumns();
    JoinSnoc(p, Y_COLUMN, ", ");
    JoinSnoc(p + [Y_COLUMN], X_COLUMN, ", ");
    JoinSnoc(p + [Y_COLUMN] + [X_COLUMN], WKT_COLUMN, ", ");
    assert p + [Y_COLUMN] + [X_COLUMN] + [WKT_COLUMN] == p + g;
    GeometryColumnsPlain();
    forall k | 0 <= k < |p + g| ensures FreeOf((p + g)[k], ", ") {
      if k < |p| {
        ProjectionPlain(aliases[k]);
      } else {
        assert (p + g)[k] == g[k - |p|];
      }
    }
    SplitJoin(p + g, ", ");
  }

  /** The query's select list reads back as the eight aliased fields in
      ORDERED_FIELDS order, `dc_key` first, then the geometry expressions. */
  lemma SourceQueryColumns()
    ensures Split(SelectList(ALIASES), ", ") == Projections(ALIASES) + GeometryColumns()
    ensures |Split(SelectList(ALIASES), ", ")| == 11
    ensures Split(SelectList(ALIASES), ", ")[0] == Projection(ALIASES[0]) && ALIASES[0].0 == "dc_key"
  {
    AliasesArePlain();
    SelectListRecoverable(ALIASES);
  }

  // ---------------------------------------------------------------------------
  // The parameterised INSERT

  function Wildcards(n: nat): (r: seq<string>)
    ensures |r| == n
    ensures forall i :: 0 <= i < n ==> r[i] == "%s"
  {
    seq(n, _ => "%s")
  }

  const INSERT_INTO := "insert into "
  const VALUES := " values ("
  const GEOM_CALL := ", ST_GeomFromText("
  /** The geometry placeholders: the WKT text and its SRID. */
  const GEOM_ARGS := "%s, %s)"

  /** One `%s` per header field but the last (the geometry), then the
      geometry call: `range(num_fields - 1)` is empty for an empty header. */
  function InsertSql(fullName: string, header: seq<string>): string
  {
    INSERT_INTO + fullName + "(" + Join(header, ", ") + ")"
      + VALUES + Join(Wildcards(if |header| > 0 then |header| - 1 else 0), ", ") + GEOM_CALL + GEOM_ARGS + ")"
  }

  /** psycopg2 takes one parameter per `%` placeholder. */
  function Placeholders(fullName: string, header: seq<string>): nat
  {
    CountChar(InsertSql(fullName, header), '%')
  }

  lemma InsertIntoCount()
    ensures CountChar(INSERT_INTO, '%') == 0
  {
    CountCharAbsent(INSERT_INTO, '%');
  }

  lemma ValuesCount()
    ensures CountChar(VALUES, '%') == 0
  {
    CountCharAbsent(VALUES, '%');
  }

  lemma GeomCallCount()
    ensures CountChar(GEOM_CALL, '%') == 0
  {
    CountCharAbsent(GEOM_CALL, '%');
  }

  lemma PlaceholderTextCounts()
    ensures CountChar(GEOM_ARGS, '%') == 2 && CountChar("%s", '%') == 1
    ensures CountChar("(", '%') == 0 && CountChar(")", '%') == 0 && CountChar(", ", '%') == 0
  {
  }

  /** With no `%` in the table or field names, the statement has one
      placeholder per header field plus one for the SRID, except that an empty
      header still leaves the two geometry placeholders. */
  lemma {:induction false} PlaceholderCount(fullName: string, header: seq<string>)
    requires '%' !in fullName
    requires forall i :: 0 <= i < |header| ==> '%' !in header[i]
    ensures Placeholders(fullName, header) == if |header| > 0 then |header| + 1 else 2
  {
    var n := if |header| > 0 then |header| - 1 else 0;
    CountCharAbsent(fullName, '%');
    forall i | 0 <= i < |header| ensures CountChar(header[i], '%') == 0 {
      CountCharAbsent(header[i], '%');
    }
    PlaceholderTextCounts();
    CountJoin(header, ", ", '%', 0);
    CountJoin(Wildcards(n), ", ", '%', 1);
    StatementCount(fullName, Join(header, ", "), Join(Wildcards(n), ", "), n);
  }

  lemma StatementCount(fullName: string, names: string, marks: string, n: nat)
    requires CountChar(fullName, '%') == 0 && CountChar(names, '%') == 0 && CountChar(marks, '%') == n
    ensures CountChar(INSERT_INTO + fullName + "(" + names + ")" + VALUES + marks + GEOM_CALL + GEOM_ARGS + ")", '%') == n + 2
  {
    InsertIntoCount();
    ValuesCount();
    GeomCallCount();
    PlaceholderTextCounts();
    CountSum(fullName, names, marks);
  }

  /** The character count of the statement, piece by piece. */
  lemma CountSum(fullName: string, names: string, marks: string)
    ensures CountChar(INSERT_INTO + fullName + "(" + names + ")" + VALUES + marks + GEOM_CALL + GEOM_ARGS + ")", '%')
            == CountChar(INSERT_INTO, '%') + CountChar(fullName, '%') + CountChar("(", '%') + CountChar(names, '%')
               + CountChar(")", '%') + CountChar(VALUES, '%') + CountChar(marks, '%') + CountChar(GEOM_CALL, '%')
               + CountChar(GEOM_ARGS, '%') + CountChar(")", '%')
  {
    var a := INSERT_INTO;
    var b := a + fullName;
    var c := b + "(";
    var d := c + names;
    var e := d + ")";
    var f := e + VALUES;
    var g := f + marks;
    var h := g + GEOM_CALL;
    var i := h + GEOM_ARGS;
    CountCharAppend(a, fullName, '%');
    CountCharAppend(b, "(", '%');
    CountCharAppend(c, names, '%');
    CountCharAppend(d, ")", '%');
    CountCharAppend(e, VALUES, '%');
    CountCharAppend(f, marks, '%');
    CountCharAppend(g, GEOM_CALL, '%');
    CountCharAppend(h, GEOM_ARGS, '%');
    CountCharAppend(i, ")", '%');
  }

  /** Whatever the names, the geometry call contributes two placeholders. */
  lemma PlaceholdersAtLeastTwo(fullName: string, header: seq<string>)
    ensures Placeholders(fullName, header) >= 2
  {
    var n := if |header| > 0 then |header| - 1 else 0;
    CountSum(fullName, Join(header, ", "), Join(Wildcards(n), ", "));
    PlaceholderTextCounts();
  }

  // ---------------------------------------------------------------------------
  // Row cleaning

  /** A statement parameter: SQL NULL, a text value, or the integer SRID. */
  datatype Param = Null | Text(s: string) | Int(i: int)

  function Clean(cell: string): Param
  {
    if cell == "" then Null else Text(cell)
  }

  /** The value a cleaned cell held in the CSV. */
  function Restore(p: Param): string
  {
    match p
    case Null => ""
    case Text(s) => s
    case Int(_) => ""
  }

  /** Every empty cell becomes NULL and every other cell is kept: the row
      keeps its length and each cell can be restored. */
  function CleanRow(row: seq<string>): (r: seq<Param>)
    ensures |r| == |row|
    ensures forall i :: 0 <= i < |row| ==> (r[i] == Null <==> row[i] == "") && Restore(r[i]) == row[i]
  {
    seq(|row|, i requires 0 <= i < |row| => Clean(row[i]))
  }

  /** The statement's parameters: the cleaned row, then the SRID. */
  function Params(row: seq<string>): (p: seq<Param>)
    ensures |p| == |row| + 1 && p[..|row|] == CleanRow(row) && p[|row|] == Int(WGS_84)
  {
    CleanRow(row) + [Int(WGS_84)]
  }

  /** A row whose length matches the header fills the statement's placeholders. */
  lemma ParamsFillPlaceholders(fullName: string, header: seq<string>, row: seq<string>)
    requires '%' !in fullName
    requires forall i :: 0 <= i < |header| ==> '%' !in header[i]
    requires |header| > 0
    ensures |Params(row)| == Placeholders(fullName, header) <==> |row| == |header|
  {
    PlaceholderCount(fullName, header);
  }

  // ---------------------------------------------------------------------------
  // The destination table

  /** The destination table: each stored row under its DC_NUMBER key. */
  type Table = map<Param, seq<Param>>

  /** Every row is stored under its own first cell, which is never NULL. */
  predicate Keyed(t: Table)
  {
    forall k :: k in t ==> k != Null && |t[k]| > 0 && t[k][0] == k
  }

  /** `None` stands for a table that does not exist. */
  predicate KeyedOrAbsent(t: Option<Table>)
  {
    t.Some? ==> Keyed(t.value)
  }

  /** Why a run stops before `connection.commit()`. */
  datatype Abort =
    | SchemaMissing      // the schema check fails and the script exits
    | NoMaxDate          // the table exists but is empty: `max_date.strftime` raises
    | EmptyDownload      // no header line: `rows.pop(0)` raises
    | ParameterMismatch  // the row does not fill the statement's placeholders
    | MissingTable       // a statement names a table that does not exist
    | RowRejected        // the database refuses the row for another reason
    | NullKey            // a NULL key fails the primary key again on the re-insert

  /** What one `execute(insert_sql, row)` does to the open transaction. */
  datatype InsertOutcome = Inserted | Conflict | NoTable | Refused

  /** The database's answer to an insert: no table, a refusal by the oracle
      `rejects` (types, constraints other than the key), an IntegrityError on a
      NULL or present key, or success. */
  function InsertOutcomeOf(t: Option<Table>, row: seq<Param>, rejects: seq<Param> -> bool): InsertOutcome
    requires |row| > 0
  {
    if t.None? then NoTable
    else if rejects(row) then Refused
    else if row[0] == Null || row[0] in t.value then Conflict
    else Inserted
  }

  /** One row as the script handles it: insert; on IntegrityError
      `connection.rollback()` back to the last commit, delete the key, insert
      again.  The result is the new pending table. */
  function RowAsWritten(committed: Option<Table>, pending: Option<Table>, row: seq<Param>,
                        rejects: seq<Param> -> bool): Result<Option<Table>, Abort>
    requires |row| > 0
  {
    match InsertOutcomeOf(pending, row, rejects)
    case Inserted => Success(Some(pending.value[row[0] := row]))
    case NoTable => Failure(MissingTable)
    case Refused => Failure(RowRejected)
    case Conflict =>
      if committed.None? then Failure(MissingTable)
      else
        var rest := committed.value - {row[0]};
        match InsertOutcomeOf(Some(rest), row, rejects)
        case Inserted => Success(Some(rest[row[0] := row]))
        case Conflict => Failure(NullKey)
        case _ => Failure(RowRejected)
  }

  /** One row with the conflict handled inside the transaction: a savepoint
      before the insert, and on IntegrityError a rollback to that savepoint
      only, then the delete and the second insert. */
  function RowWithSavepoint(pending: Option<Table>, row: seq<Param>, rejects: seq<Param> -> bool): (r: Result<Option<Table>, Abort>)
    requires |row| > 0
    ensures r.Success? <==> pending.Some? && !rejects(row) && row[0] != Null
    ensures r.Success? ==> r.value.Some? && row[0] in r.value.value && r.value.value[row[0]] == row
    ensures r.Success? ==> forall k :: k != row[0] ==>
              (k in r.value.value <==> k in pending.value) && (k in pending.value ==> r.value.value[k] == pending.value[k])
  {
    match InsertOutcomeOf(pending, row, rejects)
    case Inserted => Success(Some(pending.value[row[0] := row]))
    case NoTable => Failure(MissingTable)
    case Refused => Failure(RowRejected)
    case Conflict =>
      var rest := pending.value - {row[0]};
      match InsertOutcomeOf(Some(rest), row, rejects)
      case Inserted => Success(Some(rest[row[0] := row]))
      case Conflict => Failure(NullKey)
      case _ => Failure(RowRejected)
  }

  /** The row loop as written, from the pending table on. */
  function LoadRowsAsWritten(committed: Option<Table>, pending: Option<Table>, rows: seq<seq<string>>,
                             placeholders: nat, rejects: seq<Param> -> bool): Result<Option<Table>, Abort>
    requires placeholders >= 2
    decreases |rows|
  {
    if |rows| == 0 then Success(pending)
    else if |Params(rows[0])| != placeholders then Failure(ParameterMismatch)
    else
      match RowAsWritten(committed, pending, CleanRow(rows[0]), rejects)
      case Failure(e) => Failure(e)
      case Success(next) => LoadRowsAsWritten(committed, next, rows[1..], placeholders, rejects)
  }

  /** The row loop with the savepoint, from the pending table on. */
  function LoadRows(pending: Option<Table>, rows: seq<seq<string>>, placeholders: nat,
                    rejects: seq<Param> -> bool): Result<Option<Table>, Abort>
    requires placeholders >= 2
    decreases |rows|
  {
    if |rows| == 0 then Success(pending)
    else if |Params(rows[0])| != placeholders then Failure(ParameterMismatch)
    else
      match RowWithSavepoint(pending, CleanRow(rows[0]), rejects)
      case Failure(e) => Failure(e)
      case Success(next) => LoadRows(next, rows[1..], placeholders, rejects)
  }

  /** The part of a run before the row loop: the schema check, the query (with
      the date filter when the table exists), the DDL when it does not, and the
      download.  `table` is the committed table at the start, so the
      `table_exists` check is `table.Some?`; the schema check, the latest date,
      the DDL file and the download (`fetch` maps the query to the CSV lines)
      are oracles.  On success: the table the rows go into, and the lines. */
  function Prelude(table: Option<Table>, schemaExists: bool, maxDate: Option<string>, ddlFound: bool,
                   fetch: string -> seq<seq<string>>): (r: Result<(Option<Table>, seq<seq<string>>), Abort>)
    ensures r.Success? ==> |r.value.1| > 0
  {
    if !schemaExists then Failure(SchemaMissing)
    else if table.Some? && maxDate.None? then Failure(NoMaxDate)
    else
      var data := fetch(SourceQuery(if table.Some? then maxDate else None));
      if |data| == 0 then Failure(EmptyDownload)
      else Success((if table.None? && ddlFound then Some(map[]) else table, data))
  }

  /** The whole run as the script is written: the committed table afterwards,
      or why nothing was committed. */
  function SyncSpecAsWritten(table: Option<Table>, schemaExists: bool, maxDate: Option<string>, ddlFound: bool,
                             fetch: string -> seq<seq<string>>, rejects: seq<Param> -> bool, fullName: string): Result<Option<Table>, Abort>
  {
    match Prelude(table, schemaExists, maxDate, ddlFound, fetch)
    case Failure(e) => Failure(e)
    case Success((start, data)) =>
      PlaceholdersAtLeastTwo(fullName, data[0]);
      LoadRowsAsWritten(table, start, data[1..], Placeholders(fullName, data[0]), rejects)
  }

  /** The whole run with the savepoint correction. */
  function SyncSpec(table: Option<Table>, schemaExists: bool, maxDate: Option<string>, ddlFound: bool,
                    fetch: string -> seq<seq<string>>, rejects: seq<Param> -> bool, fullName: string): Result<Option<Table>, Abort>
  {
    match Prelude(table, schemaExists, maxDate, ddlFound, fetch)
    case Failure(e) => Failure(e)
    case Success((start, data)) =>
      PlaceholdersAtLeastTwo(fullName, data[0]);
      LoadRows(start, data[1..], Placeholders(fullName, data[0]), rejects)
  }

  // ---------------------------------------------------------------------------
  // What a run leaves in the table

  function Cleaned(rows: seq<seq<string>>): (r: seq<seq<Param>>)
    ensures |r| == |rows| && forall j :: 0 <= j < |rows| ==> r[j] == CleanRow(rows[j])
  {
    seq(|rows|, j requires 0 <= j < |rows| => CleanRow(rows[j]))
  }

  /** Every row fills the placeholders, is not refused, and has a key. */
  predicate RowsFit(rows: seq<seq<string>>, placeholders: nat, rejects: seq<Param> -> bool)
  {
    forall j :: 0 <= j < |rows| ==>
      |Params(rows[j])| == placeholders && |rows[j]| > 0 && !rejects(CleanRow(rows[j])) && CleanRow(rows[j])[0] != Null
  }

  predicate NonEmptyRows(rows: seq<seq<Param>>)
  {
    forall j :: 0 <= j < |rows| ==> |rows[j]| > 0
  }

  /** The rows stored one after the other, each under its first cell. */
  function UpsertAll(t: Table, rows: seq<seq<Param>>): Table
    requires NonEmptyRows(rows)
    decreases |rows|
  {
    if |rows| == 0 then t else UpsertAll(t[rows[0][0] := rows[0]], rows[1..])
  }

  /** The last of the rows whose first cell is `k`. */
  function LastRowFor(rows: seq<seq<Param>>, k: Param): Option<seq<Param>>
    requires NonEmptyRows(rows)
    decreases |rows|
  {
    if |rows| == 0 then None
    else
      match LastRowFor(rows[1..], k)
      case Some(r) => Some(r)
      case None => if rows[0][0] == k then Some(rows[0]) else None
  }

  /** Storing the rows in order keeps every earlier key, adds every row's key,
      and leaves under each key the last row that has it. */
  lemma {:induction false} UpsertAllLastWriteWins(t: Table, rows: seq<seq<Param>>)
    requires NonEmptyRows(rows)
    decreases |rows|
    ensures forall k :: k in UpsertAll(t, rows) <==> k in t || LastRowFor(rows, k).Some?
    ensures forall k :: LastRowFor(rows, k).Some? ==> UpsertAll(t, rows)[k] == LastRowFor(rows, k).value
    ensures forall k :: k in t && LastRowFor(rows, k).None? ==> UpsertAll(t, rows)[k] == t[k]
  {
    if |rows| > 0 {
      UpsertAllLastWriteWins(t[rows[0][0] := rows[0]], rows[1..]);
    }
  }

  /** Every row's key has a last row. */
  lemma {:induction false} LastRowForFound(rows: seq<seq<Param>>, j: nat)
    requires NonEmptyRows(rows) && j < |rows|
    decreases |rows|
    ensures LastRowFor(rows, rows[j][0]).Some?
  {
    if j > 0 {
      LastRowForFound(rows[1..], j - 1);
    }
  }

  /** No downloaded row is lost: every row's key is in the table afterwards. */
  lemma UpsertAllKeepsEveryRow(t: Table, rows: seq<seq<Param>>)
    requires NonEmptyRows(rows)
    ensures forall j :: 0 <= j < |rows| ==> rows[j][0] in UpsertAll(t, rows)
  {
    UpsertAllLastWriteWins(t, rows);
    forall j | 0 <= j < |rows| ensures rows[j][0] in UpsertAll(t, rows) {
      LastRowForFound(rows, j);
    }
  }

  /** Keyed tables stay keyed. */
  lemma {:induction false} UpsertAllKeyed(t: Table, rows: seq<seq<Param>>)
    requires Keyed(t) && NonEmptyRows(rows)
    requires forall j :: 0 <= j < |rows| ==> rows[j][0] != Null
    decreases |rows|
    ensures Keyed(UpsertAll(t, rows))
  {
    if |rows| > 0 {
      UpsertAllKeyed(t[rows[0][0] := rows[0]], rows[1..]);
    }
  }

  /** The row loop (with the savepoint) succeeds exactly when every row fits,
      and then it has stored every row, the last one per key winning. */
  lemma {:induction false} LoadRowsUpserts(t: Table, rows: seq<seq<string>>, placeholders: nat, rejects: seq<Param> -> bool)
    requires placeholders >= 2
    decreases |rows|
    ensures LoadRows(Some(t), rows, placeholders, rejects).Success? <==> RowsFit(rows, placeholders, rejects)
    ensures RowsFit(rows, placeholders, rejects) ==> NonEmptyRows(Cleaned(rows))
    ensures RowsFit(rows, placeholders, rejects) ==>
              LoadRows(Some(t), rows, placeholders, rejects) == Success(Some(UpsertAll(t, Cleaned(rows))))
  {
    if |rows| > 0 {
      var rest := rows[1..];
      assert RowsFit(rows, placeholders, rejects) ==> RowsFit(rest, placeholders, rejects) by {
        if RowsFit(rows, placeholders, rejects) {
          forall j | 0 <= j < |rest|
            ensures |Params(rest[j])| == placeholders && |rest[j]| > 0 && !rejects(CleanRow(rest[j])) && CleanRow(rest[j])[0] != Null
          {
            assert rest[j] == rows[j + 1];
          }
        }
      }
      if |Params(rows[0])| == placeholders {
        var row := CleanRow(rows[0]);
        match RowWithSavepoint(Some(t), row, rejects)
        case Failure(_) =>
        case Success(next) =>
          LoadRowsUpserts(next.value, rest, placeholders, rejects);
          if RowsFit(rest, placeholders, rejects) {
            forall j | 0 <= j < |rows|
              ensures |Params(rows[j])| == placeholders && |rows[j]| > 0 && !rejects(CleanRow(rows[j])) && CleanRow(rows[j])[0] != Null
            {
              if j > 0 { assert rows[j] == rest[j - 1]; }
            }
            assert Cleaned(rows)[1..] == Cleaned(rest);
            assert next.value == t[row[0] := row];
          }
      }
    }
  }

  /** The corrected run (with the savepoint) that reaches the download, into a
      table that exists or was just created, commits exactly when every
      downloaded row fits, and then the table holds every row, the last one
      per key winning. */
  lemma SyncUpserts(table: Option<Table>, schemaExists: bool, maxDate: Option<string>, ddlFound: bool,
                    fetch: string -> seq<seq<string>>, rejects: seq<Param> -> bool, fullName: string)
    requires schemaExists && (table.Some? ==> maxDate.Some?) && (table.Some? || ddlFound)
    requires |fetch(SourceQuery(if table.Some? then maxDate else None))| > 0
    ensures var data := fetch(SourceQuery(if table.Some? then maxDate else None));
            var n := Placeholders(fullName, data[0]);
            var start := if table.Some? then table.value else map[];
            var spec := SyncSpec(table, schemaExists, maxDate, ddlFound, fetch, rejects, fullName);
            (spec.Success? <==> RowsFit(data[1..], n, rejects))
            && (RowsFit(data[1..], n, rejects) ==>
                  NonEmptyRows(Cleaned(data[1..])) && spec == Success(Some(UpsertAll(start, Cleaned(data[1..])))))
  {
    var data := fetch(SourceQuery(if table.Some? then maxDate else None));
    PlaceholdersAtLeastTwo(fullName, data[0]);
    LoadRowsUpserts(if table.Some? then table.value else map[], data[1..], Placeholders(fullName, data[0]), rejects);
  }

  /** When the download holds only the header, the run (as written and with
      the correction alike) commits the table as it was, or the empty table it
      created: no insert and no delete. */
  lemma ZeroRowsKeepTable(table: Option<Table>, maxDate: Option<string>, ddlFound: bool,
                          fetch: string -> seq<seq<string>>, rejects: seq<Param> -> bool, fullName: string)
    requires table.Some? ==> maxDate.Some?
    requires |fetch(SourceQuery(if table.Some? then maxDate else None))| == 1
    ensures SyncSpecAsWritten(table, true, maxDate, ddlFound, fetch, rejects, fullName)
            == Success(if table.None? && ddlFound then Some(map[]) else table)
    ensures SyncSpec(table, true, maxDate, ddlFound, fetch, rejects, fullName)
            == Success(if table.None? && ddlFound then Some(map[]) else table)
  {
    var data := fetch(SourceQuery(if table.Some? then maxDate else None));
    assert data[1..] == [];
  }

  /** After a key conflict, the script's rollback leaves the committed rows
      and the conflicting row, which now holds the new values: every row
      inserted earlier in the run under another new key is gone. */
  lemma RowAsWrittenDiscards(committed: Table, pending: Table, row: seq<Param>, rejects: seq<Param> -> bool)
    requires |row| > 0 && InsertOutcomeOf(Some(pending), row, rejects) == Conflict
    requires RowAsWritten(Some(committed), Some(pending), row, rejects).Success?
    ensures var after := RowAsWritten(Some(committed), Some(pending), row, rejects).value.value;
            (forall k :: k in after <==> k in committed || k == row[0])
            && after[row[0]] == row
            && (forall k :: k in committed && k != row[0] ==> after[k] == committed[k])
            && (forall k :: k in pending && k !in committed && k != row[0] ==> k !in after)
  {
  }

  /** A download fits exactly when its first row does and the rest fit. */
  lemma RowsFitCons(rows: seq<seq<string>>, placeholders: nat, rejects: seq<Param> -> bool)
    requires |rows| > 0
    ensures RowsFit(rows, placeholders, rejects) <==>
              (|Params(rows[0])| == placeholders && |rows[0]| > 0 && !rejects(CleanRow(rows[0])) && CleanRow(rows[0])[0] != Null
               && RowsFit(rows[1..], placeholders, rejects))
  {
    var rest := rows[1..];
    if RowsFit(rest, placeholders, rejects) && |Params(rows[0])| == placeholders && |rows[0]| > 0
       && !rejects(CleanRow(rows[0])) && CleanRow(rows[0])[0] != Null {
      forall j | 0 <= j < |rows|
        ensures |Params(rows[j])| == placeholders && |rows[j]| > 0 && !rejects(CleanRow(rows[j])) && CleanRow(rows[j])[0] != Null
      {
        if j > 0 { assert rows[j] == rest[j - 1]; }
      }
    }
    if RowsFit(rows, placeholders, rejects) {
      forall j | 0 <= j < |rest|
        ensures |Params(rest[j])| == placeholders && |rest[j]| > 0 && !rejects(CleanRow(rest[j])) && CleanRow(rest[j])[0] != Null
      {
        assert rest[j] == rows[j + 1];
      }
    }
  }

  /** Stored rows whose keys are new to `t` and to each other: no insert of
      theirs meets a key conflict. */
  predicate DistinctNewKeys(t: Table, rows: seq<seq<Param>>)
    requires NonEmptyRows(rows)
  {
    (forall j :: 0 <= j < |rows| ==> rows[j][0] !in t)
    && (forall i, j :: 0 <= i < j < |rows| ==> rows[i][0] != rows[j][0])
  }

  lemma DistinctNewKeysCons(t: Table, rows: seq<seq<Param>>)
    requires NonEmptyRows(rows) && |rows| > 0
    ensures NonEmptyRows(rows[1..])
    ensures DistinctNewKeys(t, rows) <==>
              rows[0][0] !in t && DistinctNewKeys(t[rows[0][0] := rows[0]], rows[1..])
  {
    var rest := rows[1..];
    var t' := t[rows[0][0] := rows[0]];
    assert forall j :: 0 <= j < |rest| ==> rest[j] == rows[j + 1];
    if rows[0][0] !in t && DistinctNewKeys(t', rest) {
      forall i, j | 0 <= i < j < |rows| ensures rows[i][0] != rows[j][0] {
        if i > 0 { assert rows[i] == rest[i - 1]; }
        assert rows[j] == rest[j - 1];
        assert rest[j - 1][0] !in t';
      }
      forall j | 0 <= j < |rows| ensures rows[j][0] !in t {
        if j > 0 { assert rows[j] == rest[j - 1]; assert rest[j - 1][0] !in t'; }
      }
    }
    if DistinctNewKeys(t, rows) {
      forall j | 0 <= j < |rest| ensures rest[j][0] !in t' {
        assert rest[j] == rows[j + 1];
        assert rows[0][0] != rows[j + 1][0];
      }
      forall i, j | 0 <= i < j < |rest| ensures rest[i][0] != rest[j][0] {
        assert rest[i] == rows[i + 1] && rest[j] == rows[j + 1];
      }
    }
  }

  /** The row loop as written, for every input.  With a committed table it
      succeeds exactly when every row fits.  What it leaves is either every
      row stored on top of the starting table, when no row met a key conflict;
      or, for some row j after which no row meets a conflict, only the rows
      from j on stored on top of the committed table: the rows of the run
      before j are lost. */
  lemma {:induction false} LoadRowsAsWrittenSuffix(committed: Option<Table>, t: Table, rows: seq<seq<string>>,
                                                   placeholders: nat, rejects: seq<Param> -> bool)
    requires placeholders >= 2
    decreases |rows|
    ensures var r := LoadRowsAsWritten(committed, Some(t), rows, placeholders, rejects);
            var cs := Cleaned(rows);
            (committed.Some? ==> (r.Success? <==> RowsFit(rows, placeholders, rejects)))
            && (r.Success? ==>
                  RowsFit(rows, placeholders, rejects) && NonEmptyRows(cs) && r.value.Some?
                  && ((r.value.value == UpsertAll(t, cs) && DistinctNewKeys(t, cs))
                      || (committed.Some? && exists j :: 0 <= j < |rows| && r.value.value == UpsertAll(committed.value, cs[j..])
                                                         && DistinctNewKeys(committed.value[cs[j][0] := cs[j]], cs[j + 1..]))))
  {
    var r := LoadRowsAsWritten(committed, Some(t), rows, placeholders, rejects);
    if |rows| > 0 {
      var rest := rows[1..];
      RowsFitCons(rows, placeholders, rejects);
      if |Params(rows[0])| == placeholders {
        var row := CleanRow(rows[0]);
        assert Cleaned(rows)[0] == row && Cleaned(rows)[1..] == Cleaned(rest);
        RowAsWrittenStep(committed, t, row, rejects);
        match RowAsWritten(committed, Some(t), row, rejects)
        case Failure(_) =>
        case Success(next) =>
          LoadRowsAsWrittenSuffix(committed, next.value, rest, placeholders, rejects);
          if r.Success? {
            SuffixShift(committed, t, next.value, Cleaned(rows), r.value.value);
          }
      }
    }
  }

  /** One row as written: it succeeds only for a row that is not refused and
      has a key, and always does for such a row when a committed table exists.
      A new key stores the row on top of the pending table; a key conflict
      stores it on top of the committed one. */
  lemma RowAsWrittenStep(committed: Option<Table>, t: Table, row: seq<Param>, rejects: seq<Param> -> bool)
    requires |row| > 0
    ensures var r := RowAsWritten(committed, Some(t), row, rejects);
            (r.Success? ==> !rejects(row) && row[0] != Null)
            && (committed.Some? && !rejects(row) && row[0] != Null ==> r.Success?)
            && (r.Success? && row[0] !in t ==> r.value == Some(t[row[0] := row]))
            && (r.Success? && row[0] in t ==> committed.Some? && r.value == Some(committed.value[row[0] := row]))
  {
    if committed.Some? {
      assert (committed.value - {row[0]})[row[0] := row] == committed.value[row[0] := row];
    }
  }

  /** Moves the as-written loop's description from the rest of the rows to all
      of them, once the first row's step is known. */
  lemma SuffixShift(committed: Option<Table>, t: Table, next: Table, cs: seq<seq<Param>>, result: Table)
    requires NonEmptyRows(cs) && |cs| > 0
    requires (cs[0][0] !in t && next == t[cs[0][0] := cs[0]])
             || (committed.Some? && next == committed.value[cs[0][0] := cs[0]])
    requires (result == UpsertAll(next, cs[1..]) && DistinctNewKeys(next, cs[1..]))
             || (committed.Some? && exists j :: 0 <= j < |cs[1..]| && result == UpsertAll(committed.value, cs[1..][j..])
                                                && DistinctNewKeys(committed.value[cs[1..][j][0] := cs[1..][j]], cs[1..][j + 1..]))
    ensures (result == UpsertAll(t, cs) && DistinctNewKeys(t, cs))
            || (committed.Some? && exists j :: 0 <= j < |cs| && result == UpsertAll(committed.value, cs[j..])
                                               && DistinctNewKeys(committed.value[cs[j][0] := cs[j]], cs[j + 1..]))
  {
    if result == UpsertAll(next, cs[1..]) && DistinctNewKeys(next, cs[1..]) {
      if cs[0][0] !in t && next == t[cs[0][0] := cs[0]] {
        DistinctNewKeysCons(t, cs);
      } else {
        assert cs[0..] == cs;
        assert result == UpsertAll(committed.value, cs[0..]);
      }
    } else {
      var j :| 0 <= j < |cs[1..]| && result == UpsertAll(committed.value, cs[1..][j..])
               && DistinctNewKeys(committed.value[cs[1..][j][0] := cs[1..][j]], cs[1..][j + 1..]);
      assert cs[1..][j..] == cs[j + 1..] && cs[1..][j] == cs[j + 1] && cs[1..][j + 1..] == cs[j + 2..];
    }
  }

  /** The row loop as written when nothing is committed yet (a first run, into
      the table the same run created): it succeeds exactly when every row fits
      and no two rows share a key, because the first conflict's rollback drops
      the table itself.  It then holds every row. */
  lemma {:induction false} FirstRunNeedsDistinctKeys(t: Table, rows: seq<seq<string>>,
                                                     placeholders: nat, rejects: seq<Param> -> bool)
    requires placeholders >= 2
    decreases |rows|
    ensures var r := LoadRowsAsWritten(None, Some(t), rows, placeholders, rejects);
            (r.Success? <==> RowsFit(rows, placeholders, rejects) && NonEmptyRows(Cleaned(rows)) && DistinctNewKeys(t, Cleaned(rows)))
            && (r.Success? ==> r.value == Some(UpsertAll(t, Cleaned(rows))))
  {
    if |rows| > 0 {
      var rest := rows[1..];
      RowsFitCons(rows, placeholders, rejects);
      if |Params(rows[0])| == placeholders {
        var row := CleanRow(rows[0]);
        assert Cleaned(rows)[0] == row && Cleaned(rows)[1..] == Cleaned(rest);
        FirstRunNeedsDistinctKeys(t[row[0] := row], rest, placeholders, rejects);
        if RowsFit(rows, placeholders, rejects) {
          DistinctNewKeysCons(t, Cleaned(rows));
        }
      }
    }
  }

  /** The run as written, for every input that reaches the download into a
      table that exists or was just created.  Into an existing table it
      commits exactly when every row fits, and the table then holds the
      download from some row on (at least its last row) stored on top of the
      old table.  On a
      first run it commits exactly when every row fits and no key repeats,
      and the table then holds every row. */
  lemma SyncAsWritten(table: Option<Table>, schemaExists: bool, maxDate: Option<string>, ddlFound: bool,
                      fetch: string -> seq<seq<string>>, rejects: seq<Param> -> bool, fullName: string)
    requires schemaExists && (table.Some? ==> maxDate.Some?) && (table.Some? || ddlFound)
    requires |fetch(SourceQuery(if table.Some? then maxDate else None))| > 0
    ensures var data := fetch(SourceQuery(if table.Some? then maxDate else None));
            var n := Placeholders(fullName, data[0]);
            var rows := data[1..];
            var spec := SyncSpecAsWritten(table, schemaExists, maxDate, ddlFound, fetch, rejects, fullName);
            (table.Some? ==>
               (spec.Success? <==> RowsFit(rows, n, rejects))
               && (spec.Success? ==>
                     NonEmptyRows(Cleaned(rows))
                     && exists j :: 0 <= j && (j == 0 || j < |rows|)
                                    && spec == Success(Some(UpsertAll(table.value, Cleaned(rows)[j..])))))
            && (table.None? ==>
               (spec.Success? <==> RowsFit(rows, n, rejects) && NonEmptyRows(Cleaned(rows)) && DistinctNewKeys(map[], Cleaned(rows)))
               && (spec.Success? ==> spec == Success(Some(UpsertAll(map[], Cleaned(rows))))))
  {
    var data := fetch(SourceQuery(if table.Some? then maxDate else None));
    var n := Placeholders(fullName, data[0]);
    var rows := data[1..];
    PlaceholdersAtLeastTwo(fullName, data[0]);
    if table.Some? {
      LoadRowsAsWrittenSuffix(table, table.value, rows, n, rejects);
      assert Cleaned(rows)[0..] == Cleaned(rows);
    } else {
      FirstRunNeedsDistinctKeys(map[], rows, n, rejects);
    }
  }

  /** A counterexample: with key 1 committed, a run downloading key 2 and then
      a newer key 1 commits only key 1 as written, while the savepoint version
      keeps both. */
  lemma RollbackLosesEarlierRows()
    ensures var committed := Some(map[Text("1") := [Text("1"), Text("a")]]);
            var rows := [["2", "b"], ["1", "c"]];
            var rejectNone := (r: seq<Param>) => false;
            LoadRowsAsWritten(committed, committed, rows, 3, rejectNone)
              == Success(Some(map[Text("1") := [Text("1"), Text("c")]]))
            && LoadRows(committed, rows, 3, rejectNone)
              == Success(Some(map[Text("1") := [Text("1"), Text("c")], Text("2") := [Text("2"), Text("b")]]))
  {
    var c := map[Text("1") := [Text("1"), Text("a")]];
    var rows := [["2", "b"], ["1", "c"]];
    var rejectNone := (r: seq<Param>) => false;
    var r2 := [Text("2"), Text("b")];
    var r1 := [Text("1"), Text("c")];
    assert CleanRow(rows[0]) == r2 && CleanRow(rows[1]) == r1;
    assert rows[1..] == [rows[1]] && rows[1..][1..] == [];
    var afterFirst := c[Text("2") := r2];
    assert RowAsWritten(Some(c), Some(c), r2, rejectNone) == Success(Some(afterFirst));
    assert RowAsWritten(Some(c), Some(afterFirst), r1, rejectNone) == Success(Some((c - {Text("1")})[Text("1") := r1]));
    assert (c - {Text("1")})[Text("1") := r1] == map[Text("1") := r1];
    assert RowWithSavepoint(Some(c), r2, rejectNone) == Success(Some(afterFirst));
    assert (afterFirst - {Text("1")})[Text("1") := r1] == map[Text("1") := r1, Text("2") := r2];
    assert RowWithSavepoint(Some(afterFirst), r1, rejectNone) == Success(Some(map[Text("1") := r1, Text("2") := r2]));
  }

  // ---------------------------------------------------------------------------
  // The database connection

  class Sync {
    /** The table as of the last commit; `None` when it does not exist. */
    var committed: Option<Table>
    /** The table as the open transaction sees it. */
    var pending: Option<Table>
    /** The table at the last savepoint of the open transaction. */
    var savepoint: Option<Table>

    predicate Valid()
      reads this
    {
      KeyedOrAbsent(committed) && KeyedOrAbsent(pending) && KeyedOrAbsent(savepoint)
    }

    constructor(table: Option<Table>)
      requires KeyedOrAbsent(table)
      ensures Valid()
      ensures committed == table && pending == table && savepoint == table
    {
      committed, pending, savepoint := table, table, table;
    }

    /** Runs the DDL: an empty table, not yet committed. */
    method CreateTable()
      requires Valid() && pending.None?
      modifies this
      ensures Valid()
      ensures pending == Some(map[]) && committed == old(committed) && savepoint == old(savepoint)
    {
      pending := Some(map[]);
    }

    method Insert(row: seq<Param>, rejects: seq<Param> -> bool) returns (outcome: InsertOutcome)
      requires Valid() && |row| > 0
      modifies this
      ensures Valid()
      ensures outcome == InsertOutcomeOf(old(pending), row, rejects)
      ensures pending == if outcome == Inserted then Some(old(pending).value[row[0] := row]) else old(pending)
      ensures committed == old(committed) && savepoint == old(savepoint)
    {
      if pending.None? {
        return NoTable;
      }
      if rejects(row) {
        return Refused;
      }
      var key := row[0];
      if key == Null || key in pending.value {
        return Conflict;
      }
      pending := Some(pending.value[key := row]);
      outcome := Inserted;
    }

    /** `delete from T where dc_number = key`: fails when the table is absent. */
    method Delete(key: Param) returns (ok: bool)
      requires Valid()
      modifies this
      ensures Valid()
      ensures ok == old(pending).Some?
      ensures pending == if ok then Some(old(pending).value - {key}) else old(pending)
      ensures committed == old(committed) && savepoint == old(savepoint)
    {
      if pending.None? {
        return false;
      }
      pending := Some(pending.value - {key});
      ok := true;
    }

    /** `connection.rollback()`: the whole transaction is discarded. */
    method Rollback()
      requires Valid()
      modifies this
      ensures Valid()
      ensures pending == old(committed) && committed == old(committed) && savepoint == old(savepoint)
    {
      pending := committed;
    }

    method Savepoint()
      requires Valid()
      modifies this
      ensures Valid()
      ensures savepoint == old(pending) && pending == old(pending) && committed == old(committed)
    {
      savepoint := pending;
    }

    method RollbackToSavepoint()
      requires Valid()
      modifies this
      ensures Valid()
      ensures pending == old(savepoint) && savepoint == old(savepoint) && committed == old(committed)
    {
      pending := savepoint;
    }

    /** `connection.commit()`. */
    method Commit()
      requires Valid()
      modifies this
      ensures Valid()
      ensures committed == old(pending) && pending == old(pending) && savepoint == old(savepoint)
    {
      committed := pending;
    }

    /** The loop body as written: insert; on a key conflict roll the whole
        transaction back, delete the key and insert again. */
    method ApplyRowAsWritten(row: seq<Param>, rejects: seq<Param> -> bool) returns (abort: Option<Abort>)
      requires Valid() && |row| > 0
      modifies this
      ensures Valid() && committed == old(committed)
      ensures var spec := RowAsWritten(old(committed), old(pending), row, rejects);
              (spec.Success? ==> abort == None && pending == spec.value)
              && (spec.Failure? ==> abort == Some(spec.error))
    {
      var outcome := Insert(row, rejects);
      if outcome == Inserted {
        return None;
      } else if outcome == NoTable {
        return Some(MissingTable);
      } else if outcome == Refused {
        return Some(RowRejected);
      }
      Rollback();
      var deleted := Delete(row[0]);
      if !deleted {
        return Some(MissingTable);
      }
      outcome := Insert(row, rejects);
      if outcome == Inserted {
        abort := None;
      } else if outcome == Conflict {
        abort := Some(NullKey);
      } else {
        abort := Some(RowRejected);
      }
    }

    /** The loop body with a savepoint: a conflict undoes only the failed
        insert, then the key is deleted and the row inserted again. */
    method ApplyRow(row: seq<Param>, rejects: seq<Param> -> bool) returns (abort: Option<Abort>)
      requires Valid() && |row| > 0
      modifies this
      ensures Valid() && committed == old(committed)
      ensures var spec := RowWithSavepoint(old(pending), row, rejects);
              (spec.Success? ==> abort == None && pending == spec.value)
              && (spec.Failure? ==> abort == Some(spec.error))
    {
      Savepoint();
      var outcome := Insert(row, rejects);
      if outcome == Inserted {
        return None;
      } else if outcome == NoTable {
        return Some(MissingTable);
      } else if outcome == Refused {
        return Some(RowRejected);
      }
      RollbackToSavepoint();
      var deleted := Delete(row[0]);
      if !deleted {
        return Some(MissingTable);
      }
      outcome := Insert(row, rejects);
      if outcome == Inserted {
        abort := None;
      } else if outcome == Conflict {
        abort := Some(NullKey);
      } else {
        abort := Some(RowRejected);
      }
    }

    /** Everything before the row loop: the schema check (a missing schema
        closes the connection and exits), the query, the DDL when no table
        exists, and the download.  Nothing is committed. */
    method Prepare(schemaExists: bool, maxDate: Option<string>, ddlFound: bool, fetch: string -> seq<seq<string>>)
      returns (r: Result<seq<seq<string>>, Abort>)
      requires Valid() && pending == committed
      modifies this
      ensures Valid() && committed == old(committed)
      ensures var spec := Prelude(old(committed), schemaExists, maxDate, ddlFound, fetch);
              (r.Success? <==> spec.Success?)
              && (spec.Success? ==> r.value == spec.value.1 && pending == spec.value.0)
              && (spec.Failure? ==> r.error == spec.error)
    {
      if !schemaExists {
        Rollback();
        return Failure(SchemaMissing);
      }
      var query := "SELECT " + SelectList(ALIASES) + " FROM " + ODP_TABLE;
      if committed.Some? {
        if maxDate.None? {
          return Failure(NoMaxDate);
        }
        query := query + DateFilter(maxDate);
        assert query == SourceQuery(maxDate);
      } else {
        assert query == SourceQuery(None);
        if ddlFound {
          CreateTable();
        }
      }
      var data := fetch(query);
      if |data| == 0 {
        return Failure(EmptyDownload);
      }
      r := Success(data);
    }

    /** The `for row in rows` loop as written: each row is checked against the
        statement's placeholders and handled by `ApplyRowAsWritten`; the first
        failure stops it. */
    method LoadAllAsWritten(rows: seq<seq<string>>, placeholders: nat, rejects: seq<Param> -> bool)
      returns (abort: Option<Abort>)
      requires Valid() && placeholders >= 2
      modifies this
      ensures Valid() && committed == old(committed)
      ensures var spec := LoadRowsAsWritten(old(committed), old(pending), rows, placeholders, rejects);
              (spec.Success? ==> abort == None && pending == spec.value)
              && (spec.Failure? ==> abort == Some(spec.error))
    {
      ghost var start := pending;
      assert rows[0..] == rows;
      var i := 0;
      while i < |rows|
        invariant 0 <= i <= |rows|
        invariant Valid() && committed == old(committed)
        invariant LoadRowsAsWritten(committed, pending, rows[i..], placeholders, rejects)
                  == LoadRowsAsWritten(committed, start, rows, placeholders, rejects)
      {
        assert rows[i..][1..] == rows[i + 1..];
        if |Params(rows[i])| != placeholders {
          return Some(ParameterMismatch);
        }
        abort := ApplyRowAsWritten(CleanRow(rows[i]), rejects);
        if abort.Some? {
          return;
        }
        i := i + 1;
      }
      abort := None;
    }

    /** The script's main block after the connection is open, as written.  Only
        a run that reaches the final commit changes the committed table, and it
        then holds what `SyncSpecAsWritten` says; a run that stops early
        commits nothing. */
    method Run(schemaExists: bool, maxDate: Option<string>, ddlFound: bool,
               fetch: string -> seq<seq<string>>, rejects: seq<Param> -> bool, fullName: string)
      returns (outcome: Result<nat, Abort>)
      requires Valid() && pending == committed
      modifies this
      ensures Valid()
      ensures var spec := SyncSpecAsWritten(old(committed), schemaExists, maxDate, ddlFound, fetch, rejects, fullName);
              (outcome.Success? <==> spec.Success?)
              && (spec.Success? ==> committed == spec.value)
              && (spec.Failure? ==> outcome.error == spec.error && committed == old(committed))
    {
      var prepared := Prepare(schemaExists, maxDate, ddlFound, fetch);
      if prepared.Failure? {
        return Failure(prepared.error);
      }
      var data := prepared.value;
      var placeholders := CountChar(InsertSql(fullName, data[0]), '%');
      PlaceholdersAtLeastTwo(fullName, data[0]);
      var abort := LoadAllAsWritten(data[1..], placeholders, rejects);
      if abort.Some? {
        return Failure(abort.value);
      }
      Commit();
      outcome := Success(|data| - 1);
    }

    /** The row loop with the savepoint correction: each row is handled by
        `ApplyRow`; the first failure stops it. */
    method LoadAllWithSavepoint(rows: seq<seq<string>>, placeholders: nat, rejects: seq<Param> -> bool)
      returns (abort: Option<Abort>)
      requires Valid() && placeholders >= 2
      modifies this
      ensures Valid() && committed == old(committed)
      ensures var spec := LoadRows(old(pending), rows, placeholders, rejects);
              (spec.Success? ==> abort == None && pending == spec.value)
              && (spec.Failure? ==> abort == Some(spec.error))
    {
      ghost var start := pending;
      assert rows[0..] == rows;
      var i := 0;
      while i < |rows|
        invariant 0 <= i <= |rows|
        invariant Valid() && committed == old(committed)
        invariant LoadRows(pending, rows[i..], placeholders, rejects) == LoadRows(start, rows, placeholders, rejects)
      {
        assert rows[i..][1..] == rows[i + 1..];
        if |Params(rows[i])| != placeholders {
          return Some(ParameterMismatch);
        }
        abort := ApplyRow(CleanRow(rows[i]), rejects);
        if abort.Some? {
          return;
        }
        i := i + 1;
      }
      abort := None;
    }

    /** The main block with the savepoint correction: it commits what
        `SyncSpec` says, or nothing. */
    method RunWithSavepoint(schemaExists: bool, maxDate: Option<string>, ddlFound: bool,
                            fetch: string -> seq<seq<string>>, rejects: seq<Param> -> bool, fullName: string)
      returns (outcome: Result<nat, Abort>)
      requires Valid() && pending == committed
      modifies this
      ensures Valid()
      ensures var spec := SyncSpec(old(committed), schemaExists, maxDate, ddlFound, fetch, rejects, fullName);
              (outcome.Success? <==> spec.Success?)
              && (spec.Success? ==> committed == spec.value)
              && (spec.Failure? ==> outcome.error == spec.error && committed == old(committed))
    {
      var prepared := Prepare(schemaExists, maxDate, ddlFound, fetch);
      if prepared.Failure? {
        return Failure(prepared.error);
      }
      var data := prepared.value;
      var placeholders := CountChar(InsertSql(fullName, data[0]), '%');
      PlaceholdersAtLeastTwo(fullName, data[0]);
      var abort := LoadAllWithSavepoint(data[1..], placeholders, rejects);
      if abort.Some? {
        return Failure(abort.value);
      }
      Commit();
      outcome := Success(|data| - 1);
    }
  }
}
