# Philadelphia crime-incident tools, modelled in Dafny

This project models the sequential logic of four scripts from the
OpenDataPhillyTools repository. Each script downloads Philadelphia crime
incidents and loads them into PostGIS, or computes statistics over them.

- **Incremental incident sync** (`PublicSafety/inct2pg.py`, module `IncidentSync`).
  - The download query is built from the ordered field list and the alias map. A `where dispatch_date_time > '<max_date>'` filter is added when the table already exists.
  - One parameterised INSERT is built from the CSV header. Each row is cleaned: empty strings become NULL and the WGS 84 SRID is appended.
  - Each row is inserted, and a key conflict is handled by a delete and a second insert.
  - The database is the `Sync` class. It holds the committed table, the pending table of the open transaction and a savepoint, each a map from the DC_NUMBER key to the stored row. Its methods model `insert`, `delete`, `rollback`, `commit` and the table creation.
  - `Sync.Run` is the script body as written, proved against the specification function `SyncSpecAsWritten`. Its row loop rolls back the whole transaction on a key conflict.
  - `Sync.RunWithSavepoint` is the corrected run, proved against `SyncSpec`. Its row loop undoes only the failed insert (see Findings).
- **Full-load SQL text** (`inct_create.py`, module `FullLoad`).
  - The command line gives the table name.
  - The DDL is built by appending with `+=` and trimming.
  - Blank values are normalised by column type. Text and timestamp values are quoted with `'` doubled.
  - The column list and the value list of each INSERT are built in the same loop, then trimmed.
  - The script as a whole runs the DDL, one INSERT per row and the geometry step, then commits. This is `FullLoad.Run`, against `LoadSpec`.
- **Combinatorics** (`PublicSafety/crimeStats.py`, module `CrimeStats`).
  - `combination` divides factorials. The model computes the quotient exactly and proves that the division leaves no remainder.
  - The hypergeometric cumulative sum is a loop that accumulates reals.
- **Police areas** (`PublicSafety/crimeGeometry.py`, module `CrimeGeometry`).
  - The `PSA` and `District` constructors are functions that return the area or the `CrimeGeometryError` or `TypeError` the source raises.
  - `getIncidentQuery` is modelled as a string function.

`results.dfy` holds `Option` and `Result`. `text.dfy` holds the string helpers that model Python's `join`, the trailing-separator trim, `split` and counting characters. It also holds their round-trip lemmas.

Three facts about the code that the model keeps:

- In `inct_create.py`, `dc_key` has the type `BIGINT PRIMARY KEY`. That type is not in the integer list, so a blank key is not set to 0.
- In `inct_create.py`, a TEXT or TIMESTAMP value becomes `""` only when it is `None`. The values `""` and `" "` pass through unchanged.
- In `inct2pg.py`, a first run commits only when no key repeats in the download. The first key conflict rolls back the table created in the same run, and the run aborts (`IncidentSync.FirstRunNeedsDistinctKeys`).

## Model

| member | source | states |
|---|---|---|
| IncidentSync.SelectListRecoverable | PublicSafety/inct2pg.py:102-104 | For any comma-free aliases, splitting the select list at ", " gives one `field as ALIAS` per field, in order, then the y, x and geom expressions |
| IncidentSync.SourceQueryColumns | PublicSafety/inct2pg.py:46-47 | The query's select list reads back as the eight ORDERED_FIELDS projections plus the three geometry expressions, eleven in all, with `dc_key` first |
| IncidentSync.PlaceholderCount | PublicSafety/inct2pg.py:131-140 | With no `%` in the names, the INSERT has `len(header) + 1` placeholders for a non-empty header: one per field but the geometry, plus the WKT text and the SRID. An empty header still leaves 2 |
| IncidentSync.PlaceholdersAtLeastTwo | PublicSafety/inct2pg.py:137-140 | Whatever the names, the geometry call contributes at least two placeholders |
| IncidentSync.CleanRow | PublicSafety/inct2pg.py:151 | Keeps the row length. A cell becomes NULL exactly when it is "", and every cell restores to its CSV text |
| IncidentSync.ParamsFillPlaceholders | PublicSafety/inct2pg.py:131-159 | A row fills the statement's placeholders exactly when it has as many cells as the header |
| IncidentSync.RowWithSavepoint | PublicSafety/inct2pg.py:155-164 | One row, conflict handled inside the transaction. It succeeds exactly when the table exists, the row is not refused and its key is not NULL. The table then holds exactly the new row under that key, and every other key is unchanged |
| IncidentSync.UpsertAllLastWriteWins | PublicSafety/inct2pg.py:148-164 | Storing rows in order keeps every earlier key and adds every row's key. Under each key it leaves the last row with that key, and untouched keys keep their rows |
| IncidentSync.UpsertAllKeepsEveryRow | PublicSafety/inct2pg.py:148-164 | No downloaded row's key is missing from the table afterwards |
| IncidentSync.UpsertAllKeyed | PublicSafety/inct2pg.py:155-164 | Every row stays stored under its own non-NULL first cell |
| IncidentSync.LoadRowsUpserts | PublicSafety/inct2pg.py:141-166 | The row loop succeeds exactly when every row fits the placeholders, is not refused and has a key. Its result is then the last-write-wins upsert of all cleaned rows |
| IncidentSync.RowAsWrittenStep | PublicSafety/inct2pg.py:155-164 | One row as written succeeds only for a row that is not refused and has a key. With a committed table it always succeeds for such a row. A key new to the pending table stores the row on top of it. A key already present (a conflict) stores the row on top of the committed table |
| IncidentSync.LoadRowsAsWrittenSuffix | PublicSafety/inct2pg.py:148-164 | The row loop as written, for all inputs. With a committed table it succeeds exactly when every row fits. It then leaves one of two things. Either every row is stored on top of the starting table, and every key was new and distinct. Or, for some row j after which no key conflicts, only the rows from j on are stored on top of the committed table |
| IncidentSync.FirstRunNeedsDistinctKeys | PublicSafety/inct2pg.py:148-164 | With nothing committed, the row loop as written succeeds exactly when every row fits and its keys are new and pairwise distinct. It then holds every row |
| IncidentSync.SyncAsWritten | PublicSafety/inct2pg.py:93-170 | The run as written, into an existing table: it commits exactly when every row fits, and then holds the old table updated with the download from some row on, always including the last row. On a first run it commits exactly when every row fits and no key repeats, and then holds every row |
| IncidentSync.SyncUpserts | PublicSafety/inct2pg.py:93-170 | Corrected run (with the savepoint): a run that reaches the download into an existing or newly created table commits exactly when every row fits. The committed table is then the upsert of the download into the old (or empty) table |
| IncidentSync.ZeroRowsKeepTable | PublicSafety/inct2pg.py:141-170 | As written and corrected alike, a download with only the header commits the table unchanged, or the empty table just created: no insert, no delete |
| IncidentSync.RowAsWrittenDiscards | PublicSafety/inct2pg.py:158-164 | As written, a conflict leaves exactly the committed keys plus the conflicting one. The conflicting key holds the new row, and the other committed keys keep their committed rows. Every row inserted earlier in the run under another new key is gone |
| IncidentSync.RollbackLosesEarlierRows | PublicSafety/inct2pg.py:148-170 | Counterexample: with key 1 committed, downloading key 2 then key 1 commits only key 1 as written, while the savepoint version keeps both |
| IncidentSync.Sync.constructor | PublicSafety/inct2pg.py:93 | The connection starts with the committed table as the pending and savepoint state |
| IncidentSync.Sync.CreateTable | PublicSafety/inct2pg.py:116-122 | The DDL creates an empty, uncommitted table where there was none |
| IncidentSync.Sync.Insert | PublicSafety/inct2pg.py:159 | The insert fails on a missing table or a refused row, and conflicts on a NULL or present key. Otherwise it adds the row under its key. Nothing else changes |
| IncidentSync.Sync.Delete | PublicSafety/inct2pg.py:162-163 | Removes the key from the pending table. It fails, changing nothing, when the table does not exist |
| IncidentSync.Sync.Rollback | PublicSafety/inct2pg.py:161 | The pending table returns to the last committed one |
| IncidentSync.Sync.Savepoint | PublicSafety/inct2pg.py:158-161 | Records the pending table (used by the corrected conflict path) |
| IncidentSync.Sync.RollbackToSavepoint | PublicSafety/inct2pg.py:160-161 | Restores the pending table recorded by the savepoint (corrected conflict path) |
| IncidentSync.Sync.Commit | PublicSafety/inct2pg.py:170 | The committed table becomes the pending one |
| IncidentSync.Sync.ApplyRowAsWritten | PublicSafety/inct2pg.py:155-164 | The loop body as written: insert, and on conflict roll back to the commit, delete and insert again. Its result is `RowAsWritten` of the old state, and the committed table is unchanged |
| IncidentSync.Sync.ApplyRow | PublicSafety/inct2pg.py:155-164 | The loop body with a savepoint. Its result is `RowWithSavepoint` of the old pending table, and the committed table is unchanged |
| IncidentSync.Sync.Prepare | PublicSafety/inct2pg.py:93-129 | Everything before the row loop: the schema check, the query with the date filter when the table exists, the DDL when it does not, and the download. It yields the lines and pending table `Prelude` gives, or its abort, and commits nothing |
| IncidentSync.Sync.LoadAllAsWritten | PublicSafety/inct2pg.py:148-164 | The row loop as written: it stops at the first row that does not fill the placeholders or fails, with the error `LoadRowsAsWritten` names. Otherwise it leaves the pending table `LoadRowsAsWritten` gives. The committed table is untouched |
| IncidentSync.Sync.Run | PublicSafety/inct2pg.py:93-170 | The whole run as written. It succeeds exactly when `SyncSpecAsWritten` does, and then commits that table. Any abort leaves the committed table as it was |
| IncidentSync.Sync.LoadAllWithSavepoint | PublicSafety/inct2pg.py:148-164 | Corrected row loop: as `LoadAllAsWritten`, but each row goes through `ApplyRow`, with the result `LoadRows` gives |
| IncidentSync.Sync.RunWithSavepoint | PublicSafety/inct2pg.py:93-170 | Corrected whole run: it succeeds exactly when `SyncSpec` does, and then commits that table. Any abort leaves the committed table as it was |
| FullLoad.ParseArgs | inct_create.py:60-74 | Fewer than one argument or more than two is an error. Otherwise the connection is the first argument and the table is `schema.ODP_CRIME_INCIDENTS`, with the schema defaulting to `public` |
| FullLoad.BuildDdl | inct_create.py:87-92 | The accumulated and trimmed DDL is `DROP TABLE IF EXISTS T;`, then `CREATE TABLE T` with the comma-joined `NAME TYPE NOT NULL` definitions, closed by `\n);` |
| FullLoad.FieldsArePlain | inct_create.py:28-53 | No column name or type in FIELDS or NEW_FIELDS contains a comma |
| FullLoad.DdlColumnsRecoverable | inct_create.py:87-92 | Splitting the DDL's column block at commas gives back one definition per field, in order |
| FullLoad.Normalise | inct_create.py:110-117 | A TEXT or TIMESTAMP column always yields a string value. A cell that is not blank passes through unchanged, and so does any cell whose type is in none of the three lists |
| FullLoad.Escape | inct_create.py:120 | Doubling apostrophes never shortens the text |
| FullLoad.ReadEscaped | inct_create.py:120 | An escaped value followed by the closing quote reads back as exactly that value, with reading resuming after the quote |
| FullLoad.QuoteRoundTrip | inct_create.py:120 | Stripping the outer quotes and un-doubling the inner ones gives back the original value |
| FullLoad.BlankPolicy | inct_create.py:112-117 | A blank cell gives `0` for BIGINT and INT and `0.0` for DOUBLE PRECISION. A blank `dc_key` (BIGINT PRIMARY KEY) is left as it is. TEXT and TIMESTAMP columns quote the cell, with `None` turned into "" |
| FullLoad.LiteralReadsBack | inct_create.py:112-120 | A text or timestamp literal reads back as the cell, with None read as "". Other types are emitted bare |
| FullLoad.MissingField | inct_create.py:108-110 | No field is missing exactly when the row has every field (the KeyError case) |
| FullLoad.MissingFieldIsFirst | inct_create.py:108-110 | The KeyError names the first missing field in field order |
| FullLoad.RenderValue | inct_create.py:110-121 | The step-by-step reassignment of `value` yields the literal the type policy prescribes |
| FullLoad.BuildInsert | inct_create.py:106-124 | The per-row loop raises KeyError on the first missing field. Otherwise it yields `INSERT INTO T (cols) VALUES (vals);`, with both lists joined by ", " after the trailing separator is trimmed |
| FullLoad.LiteralsAligned | inct_create.py:106-121 | The i-th value is the rendering of the i-th field's cell, so columns and values line up |
| FullLoad.InsertColumnsRecoverable | inct_create.py:106-123 | Splitting the column list at ", " gives back the destination names in field order |
| FullLoad.InsertTexts | inct_create.py:103-124 | One INSERT per row, in row order |
| FullLoad.Run | inct_create.py:57-147 | The script body, with the download as `rows` and the database as an acceptance oracle, yields the outcome `LoadSpec` prescribes |
| FullLoad.RowsLoadCons | inct_create.py:105-130 | All rows load exactly when the first one does and the rest do |
| FullLoad.LoadFromCommits | inct_create.py:105-145 | The row loop commits exactly when every remaining row has every field, every INSERT runs and the geometry step runs. It has then executed one INSERT per row, in order |
| FullLoad.LoadCommits | inct_create.py:57-147 | The script commits exactly when the arguments are valid, the connection opens and every statement runs. It has then executed the DDL, one INSERT per row and the geometry SQL |
| CrimeStats.Factorial | PublicSafety/crimeStats.py:9-10 | `math.factorial` is positive |
| CrimeStats.Binom | PublicSafety/crimeStats.py:10 | Pascal's binomial is positive exactly when k <= n |
| CrimeStats.BinomFactorials | PublicSafety/crimeStats.py:10 | `C(n,k) * ((n-k)! * k!) == n!`, so the division in `combination` is exact |
| CrimeStats.Combination | PublicSafety/crimeStats.py:7-10 | `n! / ((n-k)! k!)` equals the binomial coefficient and divides exactly |
| CrimeStats.CombinationSymmetric | PublicSafety/crimeStats.py:10 | `combination(n, k) == combination(n, n-k)` |
| CrimeStats.CombinationEdges | PublicSafety/crimeStats.py:10 | `combination(n, 0) == combination(n, n) == 1` |
| CrimeStats.HyperAsWrittenDefinedIff | PublicSafety/crimeStats.py:46-49 | The loop finishes without ValueError exactly when x < 0, or x <= G, x <= n and n <= N - G |
| CrimeStats.HyperAsWrittenStaysUndefined | PublicSafety/crimeStats.py:47-48 | Once a prefix of the loop raises, every longer loop raises |
| CrimeStats.Hypergeometric | PublicSafety/crimeStats.py:46-49 | The accumulator loop returns the as-written sum, or the ValueError. x < 0 gives 0 |
| CrimeStats.HyperCdfIsRatio | PublicSafety/crimeStats.py:46-49 | The sum of terms equals `(Σ C(G,i) C(N-G,n-i)) / C(N,n)` |
| CrimeStats.Vandermonde | PublicSafety/crimeStats.py:46-49 | `Σ_{i<=n} C(G,i) C(M,n-i) == C(G+M,n)`, so the terms sum to 1 |
| CrimeStats.HyperCdfIsProbability | PublicSafety/crimeStats.py:37-40 | The p-value lies in [0, 1] |
| CrimeStats.HyperCdfComplete | PublicSafety/crimeStats.py:46-49 | For x >= n the sum is exactly 1 |
| CrimeStats.HyperCdfMonotone | PublicSafety/crimeStats.py:47-48 | Terms are non-negative, so the result never decreases as x grows |
| CrimeStats.HyperAsWrittenAgrees | PublicSafety/crimeStats.py:46-49 | Where the loop does not raise and x >= 0, it returns the hypergeometric CDF |
| CrimeStats.HyperAsWrittenIsProbability | PublicSafety/crimeStats.py:37-49 | Whenever the loop does not raise, its result is a probability |
| CrimeStats.HypergeometricRaisesOnValidSample | PublicSafety/crimeStats.py:47-48 | Counterexample: N=2, G=1, n=2, x=1 raises, although the CDF there is 1.0 |
| CrimeGeometry.NewPsa | PublicSafety/crimeGeometry.py:35-41 | PSA(s) succeeds exactly when s is non-empty, with areaID s and district s[0]. Otherwise it raises CrimeGeometryError("…PSA number not long enough.") |
| CrimeGeometry.NewDistrict | PublicSafety/crimeGeometry.py:22-30 | District(d, []) has no psaList. A list of PSA objects is kept as given. A list whose first element is neither a string nor a PSA leaves psaList None. The areaID is d |
| CrimeGeometry.PsasOfStrings | PublicSafety/crimeGeometry.py:27-28 | The comprehension over strings succeeds exactly when all are non-empty. It then gives one PSA per string, in order. Otherwise it raises CrimeGeometryError |
| CrimeGeometry.DistrictFromStrings | PublicSafety/crimeGeometry.py:22-41 | A district from PSA strings holds one PSA per string, in order and of the same length, and fails if any string is empty |
| CrimeGeometry.GetIncidentQuery | PublicSafety/crimeGeometry.py:13-17 | The query starts with `SELECT * FROM <table>` and ends with `<condition>;` |
| CrimeGeometry.IncidentQueryQuotesAreaId | PublicSafety/crimeGeometry.py:13-17 | The quoted literal reads back as areaID exactly when areaID has no apostrophe, because there is no escaping |

## Left out

- The HTTP download, the curl subprocess, CSV parsing, the temporary CSV file and `os.remove`. The downloaded lines are a parameter: `fetch` in `IncidentSync`, `rows` in `FullLoad`.
- The contents of `sql/crime_incident.ddl` are not part of this model. `Sync.CreateTable` yields an empty table keyed by DC_NUMBER. The DDL file being missing is the `ddlFound` flag: the script only prints then, and the table stays absent.
- `src/lib/handlers.py` (PgHandler). The schema check is the input `schemaExists`. Table existence is whether a committed table exists. The latest date is the input `maxDate`, a string standing for the rendered datetime.
- psycopg2 and PostgreSQL semantics beyond keys. In `IncidentSync` an IntegrityError is a NULL or already-present key, and every other refusal (types, malformed SQL, other constraints) is the oracle `rejects`. Connecting is the flag `connects`, and connection errors in inct2pg.py happen before the modelled part.
- FullLoad.LoadSpec: whether the database accepts a statement depends only on its text (the oracle `accepts`). Key uniqueness across rows is not modelled. A `dc_key` that repeats in the download raises an IntegrityError that inct_create.py:126-130 does not catch, so nothing is committed. The model commits whenever `accepts` holds for both INSERTs.
- argparse, `sys.exit`, `exit()` and every `print`. An exit or an uncaught exception is an `Abort` or `LoadOutcome` value that commits nothing.
- The PostGIS functions (`ST_GeomFromText`, `ST_Transform` and the rest) and the reprojection. They appear only as SQL text.
- FullLoad.FIELDS: Python 2 dict iteration order is not modelled. FIELDS and NEW_FIELDS are merged into one fixed sequence of `Field` records, and the loops are proved for any field sequence.
- IncidentSync.ALIASES: ORDERED_FIELDS and PRETTY_NAMES are merged into one sequence of (field, alias) pairs.
- CrimeStats.Combination: under Python 3, `/` is true division, so the source returns a float. For large n that float is rounded. Once the quotient exceeds the float range (for example `combination(2000, 1000)`), Python raises OverflowError. The model returns the exact integer quotient and does not model the float type, its rounding or the overflow.
- CrimeStats.Combination requires `k <= n`. The ValueError that `factorial` raises otherwise is modelled where the script reaches it, as `None` from `HyperAsWritten`.
- CrimeStats.Hypergeometric: Python 3 float division and rounding are not modelled. Every term is an exact real.
- CrimeGeometry.PsaOf: a list element that is neither a string nor an area object is taken to be non-indexable, so `PSA(x)` raises TypeError. An indexable non-string element is not modelled.
- `CrimeGeometryError.__str__` (PublicSafety/crimeGeometry.py:49-50) is not modelled. It refers to a `message` attribute that Python 3 exceptions lack.
- CrimeGeometry.GetIncidentQuery: the default `condition=""` is not modelled. Callers pass the condition explicitly.

## Findings

| source | as written | input that shows it | evidently intended | confidence | as-written member | corrected member |
|---|---|---|---|---|---|---|
| PublicSafety/inct2pg.py:161 | On a key conflict, `connection.rollback()` discards the whole open transaction. That includes every row inserted earlier in the run and a table created in the run, before the delete and the re-insert. | Committed key 1; the download holds key 2, then a newer key 1. Only key 1 is committed. On a first run, any repeated key aborts the run (`FirstRunNeedsDistinctKeys`). | Undo only the failed insert (a savepoint), so every downloaded row is kept and the last row per key wins. | not executed | IncidentSync.RollbackLosesEarlierRows | IncidentSync.LoadRowsUpserts |
| PublicSafety/crimeStats.py:47-48 | Every term calls `combination(N - G, n - i)` even when `n - i > N - G`, so `factorial` of a negative number raises ValueError. | N=2, G=1, n=2, x=1: the i=0 term needs C(1, 2). | Impossible counts contribute 0, giving the hypergeometric CDF (1.0 here). | not executed | CrimeStats.HypergeometricRaisesOnValidSample | CrimeStats.HyperCdfIsProbability |
