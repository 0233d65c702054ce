# golas row-to-record mapping, in Dafny

A model of the small mapping engine in package `golas`. It turns the rows of a
query cursor into records of type `Jet`. It has four parts.

- **Column cells** (`cells.dfy`, module `Cells`). There are nine single-field
  cell types: `ID`, `PilotID`, `AirportID`, `Name`, `Color`, `UUID`,
  `Identifier`, `Cargo` and `Manifest`. Each implements `ColumnType`.
  - They are one class `Cell` with a constant `kind` and a mutable `val`.
  - `val` holds the Go type that cell type declares: `int`, `string`,
    `null.String` or `[]byte`. The invariant `Valid` keeps it so.
  - The per-type constants are encoded exactly as the nine methods spell them.
    `Name`, `PilotID` and `AirportID` answer `"id"`; `Identifier` answers
    `"UUID"`; `Color` answers `"Color"`.
  - `GetValPointer` (`&c.val`) is the cell itself. A write through it changes
    that cell's `val` and nothing else.
- **The `Jet` record descriptor** (`jet.dfy`, module `Jets`). `Jet` holds
  nine distinct cells. `GetColumnNames` is the comma-joined column list.
  `GetPointers` gives the nine scan targets in field order.
- **The reflective walk** (`reflect.dfy`, module `Reflect`). A struct is seen
  as its ordered list of fields. An exported field either leads to a cell (its
  address is a `ColumnType`) or is some other field. `StrutForScan` keeps the
  scan target of each column field, in order. Reflection refuses to turn an
  unexported field back into an interface value, so the walk panics at the
  first unexported field. Each cell type's only field, `val`, is unexported.
- **The materializers** (`query.dfy`, module `Materializers`).
  - `Query` probes each fresh record for `RowStruct`. A record that passes is
    scanned through `GetPointers` and kept. Any other record is dropped
    silently.
  - `QueryReflect` scans every fresh record through `StrutForScan` and keeps
    it. For a cell type it panics on the first row.
  - Both drop the error returned by `rows.Scan`.

The query executor is `rows.dfy` (module `Rows`). A query outcome is either a
failure or a cursor, given as the sequence of its rows. `Scan` copies a row
into a target list by position.

## Model

| member | source | states |
|---|---|---|
| `Cells.Zero` | golas/gola.go:339 | the zero value `new(T)` puts in a field has that field's Go type |
| `Cells.Cell.constructor` | golas/gola.go:267-269 | a fresh cell of each type holds the zero value of its `val` type |
| `Cells.Cell.GetId` | golas/gola.go:271-273 | a cell's `val` always has the Go type its cell type declares |
| `Cells.Cell.SetId` | golas/gola.go:275-277 | after `SetId(v)`, `GetId()` returns `v`; only this cell changes; the type invariant is kept |
| `Cells.Cell.GetValPointer` | golas/gola.go:287-289 | by definition, the scan target is this cell's own storage, of this cell's type |
| `Cells.Cell.GetColumnName` | golas/gola.go:279-281 | the column name as each of the nine methods spells it; exactly `ID`, `PilotID`, `AirportID` and `Name` report `"id"`, exactly `UUID` and `Identifier` report `"UUID"` |
| `Cells.Cell.IsPrimaryKey` | golas/gola.go:283-285 | every cell type answers true |
| `Cells.Cell.GetTableType` | golas/gola.go:291-293 | every cell type returns `table`, the nil `*UserTable`, inside a non-nil `TableType` |
| `Cells.GetTableName` | golas/gola.go:13-15 | by definition, the table name is `"users"`, also for the nil `table` |
| `Cells.CellTypeConstants` | golas/gola.go:283-293 | every cell type is a primary key, and all nine return the same non-nil `TableType` holding `table`, the nil `*UserTable`, whose name is `"users"` |
| `Rows.ScanOutcome` | golas/gola.go:344 | a scan succeeds exactly when the row has one value per target and each value fits its target |
| `Rows.ScannedFacts` | golas/gola.go:344 | a successful scan leaves exactly the row in the targets; a count mismatch writes nothing; every target keeps a value of its own type |
| `Rows.Scan` | golas/gola.go:344 | writes the fitting prefix of the row into the targets by position, changes nothing else, and reports the outcome |
| `Jets.Jet.constructor` | golas/gola.go:31-41 | `new(Jet)` gives nine fresh cells of the nine types, all at zero |
| `Jets.Jet.GetColumnNames` | golas/gola.go:295-297 | the 64-character column list, which splits on `,` into `id`, `pilot_id`, `airport_id`, `name`, `color`, `uuid`, `identifier`, `cargo`, `manifest` |
| `Jets.Jet.Fields` | golas/gola.go:31-41 | Jet's nine embedded fields, in declaration order, are exported and each address is a `ColumnType` |
| `Jets.Jet.GetPointers` | golas/gola.go:299-311 | nine targets, ID through Manifest in declaration order, pairwise distinct, all inside the record |
| `Jets.ColumnNamesSplit` | golas/gola.go:295-311 | the column list has as many names as `GetPointers` has targets |
| `Jets.SplitJoin` | golas/gola.go:295-297 | splitting a join of comma-free names gives the names back |
| `Jets.CellNamesAgainstDescriptor` | golas/gola.go:195-197 | the per-cell names as written agree with the descriptor list only at `ID`, and differ at the other eight positions |
| `Jets.ReflectedPointers` | golas/gola.go:372-382 | the reflective walk over Jet's fields gives exactly `GetPointers`, element by element |
| `Reflect.ColumnPointers` | golas/gola.go:374-380 | the walk yields at most one target per field |
| `Reflect.ColumnPointersMembers` | golas/gola.go:377-378 | every target comes from a column field, and every column field's cell is a target |
| `Reflect.ColumnPointersConcat` | golas/gola.go:375-380 | the walk keeps field order: walking `a + b` is walking `a`, then `b` |
| `Reflect.ColumnPointersAllColumns` | golas/gola.go:372-382 | no field is skipped exactly when every field is a column field, and then target i is field i's cell |
| `Reflect.FirstUnexported` | golas/gola.go:375-377 | the position of the first unexported field, where the walk stops, or the field count when all fields are exported |
| `Reflect.StrutForScan` | golas/gola.go:372-382 | the loop returns the column-field targets in field order when every field is exported, and otherwise panics at the first unexported field |
| `Materializers.Record.AsRowStruct` | golas/gola.go:341 | the `RowStruct` probe succeeds exactly for a `*Jet` |
| `Materializers.Record.StructFields` | golas/gola.go:267-269 | the walk sees an unexported field exactly in the nine cell types (their `val`) |
| `Materializers.New` | golas/gola.go:339 | `new(T)` gives a fresh record of type T with every field at zero |
| `Materializers.ProbeRow` | golas/gola.go:339-346 | a row yields a kept, fresh record filled from that row exactly when `*T` is a `RowStruct` |
| `Materializers.ReflectRow` | golas/gola.go:363-366 | for a cell type the walk panics at `val`; for any other type the row yields a fresh record filled from it |
| `Materializers.ProbeRows` | golas/gola.go:338-347 | when `*T` is a `RowStruct`, the loop keeps one record per row, in row order, each filled from its row and owning objects no other record shares; otherwise it keeps none |
| `Materializers.Query` | golas/gola.go:328-350 | a failed query is fatal; otherwise one fresh record per row in row order when `*T` is a `RowStruct`, else an empty result and no error |
| `Materializers.QueryReflect` | golas/gola.go:352-370 | a failed query is fatal; a cell type panics on the first row; otherwise one fresh record per row, in row order, each filled from its row |
| `Materializers.CompareMaterializers` | golas/gola.go:362-367 | on one cursor, `Query[Jet]` and `QueryReflect[Jet]` return as many records as rows, with equal field values in the same order, sharing no object |
| `Materializers.QueryReflectTwice` | golas/gola.go:352-370 | running `QueryReflect[T]` twice on one cursor ends the same way both times, and when both return, gives equal field values in the same order, owned independently |
| `Materializers.QueryTwice` | golas/gola.go:338-347 | running `Query[T]` twice on one cursor gives equal field values in the same order, owned independently |

## Left out

- The `database/sql` machinery (`db.Query`, `rows.Next`, `rows.Scan`) and the
  test driver are not part of this model. A query outcome is a failure or a
  finite row sequence. `Rows.Scan` stands for `rows.Scan`.
  - It checks the column count first and then assigns position by position.
  - It requires distinct targets. database/sql also accepts a repeated target,
    where the later column wins. Both callers pass distinct targets:
    `GetPointers` at golas/gola.go:344 and `StrutForScan` at golas/gola.go:365.
  - Its conversion rule is simplified: a value fits a target only when it has
    the target's Go type. The driver's own conversions are foreign code.
- `log.Fatal` ends the process. Here it is the outcome `Fatal(err)`, which is
  not a normal return.
- Go `reflect` is not modelled. A struct's fields are an ordered list in which
  each field is either a column field (with its cell) or another field.
- Generic `T` ranges over the package's own struct types: `Jet`, the nine cell
  types and `UserTable`. Only `*Jet` has the `RowStruct` methods.
- `Jet` embeds its cells by value. Here it holds nine distinct cell
  references. Distinctness stands in for "each embedded field is its own
  storage".
- `Setup` and the global `_connstr` (golas/gola.go:322-326) are not modelled.
  The global is written and never read in the package.
- `null.String` is an option of string. Go `int` is modelled as Go `int` on a
  64-bit platform; on a 32-bit platform it is narrower. The engine does no
  arithmetic on it.
- `Jets.Jet.GetColumnNames` is not written as the one 64-character literal.
  It is the comma-join of the nine names `id`, `pilot_id`, … `manifest`, which
  is the same string.
- `QueryStruct`, `QueryFunc`, `QueryStructReflect` and `DoScan` (called at
  select_test.go:96, 145, 183 and 207) are not in golas/gola.go and are not
  modelled.
- `Query` and `QueryReflect` never check `rows.Err()` and never close `rows`
  (golas/gola.go:338-347, 362-367). An iteration error ends the Go loop
  early with a shorter result. The model folds this into the cursor's row
  sequence: the rows are the ones `rows.Next` delivered.
- With zero rows, or when `*T` is not a `RowStruct`, Go returns a nil slice
  (`var result []*T`, golas/gola.go:329, 349). `Returned([])` does not tell a
  nil slice from an empty one.
- Go `[]byte` values share storage: `SetId` keeps the caller's slice and
  `GetId` hands back the same backing array. `seq<byte>` is a value, so this
  aliasing is not modelled.
- The panic in `QueryReflect` is an outcome, `Panic(field)`, not a process
  abort. Its message text is not modelled.
- The benchmark file `select_test.go` drives third-party mappers and is not
  modelled. Its 5-record expectation for `Query[Jet]` and `QueryReflect[Jet]`
  on a 5-row cursor follows from `Materializers.CompareMaterializers` with
  five rows.
- Both materializers discard the error from `rows.Scan` (golas/gola.go:344,
  365), so a failed decode aborts nothing and the record is appended anyway.
