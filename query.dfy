/** The two generic materializers, Query (capability probing) and QueryReflect
    (reflective field walk). Each allocates a fresh record for every row of the
    cursor and scans the row into it. */
module Materializers {
  import opened Cells
  import opened Rows
  import opened Reflect
  import opened Jets

  /** The package's struct types, which the type parameter T ranges over here. */
  datatype GoType = JetType | CellType(kind: CellKind) | UserTableType
  {
    /** Whether *T has RowStruct's method set (GetColumnNames and GetPointers). */
    predicate IsRowStruct()
    {
      JetType?
    }

    /** Whether the struct declares an unexported field: each cell type's `val`. */
    predicate HasUnexportedField()
    {
      CellType?
    }
  }

  /** A *T, pointing at a record allocated by `new(T)`. */
  datatype Record = JetRecord(jet: Jet) | CellRecord(cell: Cell) | TableRecord(table: UserTable)
  {
    function Type(): GoType
    {
      match this
      case JetRecord(_) => JetType
      case CellRecord(c) => CellType(c.kind)
      case TableRecord(_) => UserTableType
    }

    predicate Valid()
    {
      JetRecord? ==> jet.Valid()
    }

    ghost function Repr(): set<object>
    {
      match this
      case JetRecord(j) => {j} + j.Repr()
      case CellRecord(c) => {c}
      case TableRecord(t) => {t}
    }

    /** The values held by the record's fields, in field order. */
    ghost function Contents(): seq<Value>
      reads Repr()
      requires Valid()
    {
      match this
      case JetRecord(j) => Vals(j.GetPointers())
      case CellRecord(c) => [c.val]
      case TableRecord(_) => []
    }

    /** `interface{}(u).(RowStruct)`: succeeds only for a Jet. */
    function AsRowStruct(): (rs: Option<Jet>)
      ensures rs.Some? <==> Type().IsRowStruct()
      ensures rs.Some? ==> rs.value == jet
    {
      match this
      case JetRecord(j) => Some(j)
      case _ => None
    }

    /** The struct's declared fields, as reflection lists them. A cell type's only
        field is the unexported `val`; Jet's nine embedded fields are exported. */
    function StructFields(): (fields: seq<StructField>)
      requires Valid()
      ensures AllExported(fields) <==> !Type().HasUnexportedField()
    {
      match this
      case JetRecord(j) => j.Fields()
      case CellRecord(_) =>
        var fields := [UnexportedField("val")];
        assert fields[0].UnexportedField?;
        fields
      case TableRecord(_) => []
    }
  }

  /** Contents of `new(T)`: every field at its zero value. */
  function ZeroContents(t: GoType): seq<Value>
  {
    match t
    case JetType => ZeroJet()
    case CellType(k) => [Zero(k.ValueKind())]
    case UserTableType => []
  }

  /** Contents of a fresh record of type t after a row has been scanned into it.
      Only a Jet has scan targets; every other type stays at its zero value. */
  function Materialized(t: GoType, row: Row): (vs: seq<Value>)
    ensures |vs| == |ZeroContents(t)|
  {
    match t
    case JetType => Scanned(row, Layout, ZeroJet())
    case _ => ZeroContents(t)
  }

  /** What a materializer hands back: its result; or the process ends in
      log.Fatal; or reflection panics at the named field. */
  datatype Outcome = Fatal(err: string) | Panic(field: string) | Returned(records: seq<Record>)

  /** One pass of QueryReflect's loop: the record it appends, or the field reflection panicked at. */
  datatype RowResult = Kept(record: Record) | RowPanic(field: string)

  /** `r` is a well-formed record of type t holding what scanning `row` into a fresh one gives. */
  ghost predicate Filled(t: GoType, r: Record, row: Row)
    reads r.Repr()
  {
    r.Type() == t && r.Valid() && r.Contents() == Materialized(t, row)
  }

  /** No two records share an object. */
  ghost predicate Separate(records: seq<Record>)
  {
    forall k, l :: 0 <= k < l < |records| ==> records[k].Repr() !! records[l].Repr()
  }

  /** `records` were built from `rows`, one each and in order, from objects
      inside `made`, and no two of them share an object. */
  ghost predicate Built(t: GoType, records: seq<Record>, rows: seq<Row>, made: set<object>)
    reads made
  {
    |records| == |rows| &&
    (forall m :: 0 <= m < |records| ==> records[m].Repr() <= made) &&
    Separate(records) &&
    forall m :: 0 <= m < |records| ==> Filled(t, records[m], rows[m])
  }

  /** A record filled from row k, sharing no object with `made`, extends what was built from the rows before k. */
  lemma BuiltAppend(t: GoType, records: seq<Record>, rows: seq<Row>, k: nat, made: set<object>, r: Record)
    requires k < |rows|
    requires Built(t, records, rows[..k], made)
    requires Filled(t, r, rows[k]) && r.Repr() !! made
    ensures Built(t, records + [r], rows[..k + 1], made + r.Repr())
  {
    var records', rows', made' := records + [r], rows[..k + 1], made + r.Repr();
    assert rows' == rows[..k] + [rows[k]];
    forall k, l | 0 <= k < l < |records'|
      ensures records'[k].Repr() !! records'[l].Repr()
    {
      assert records'[k] == records[k];
      assert records[k].Repr() <= made;
    }
    forall m | 0 <= m < |records'|
      ensures records'[m].Repr() <= made' && Filled(t, records'[m], rows'[m])
    {
      if m < |records| {
        assert records'[m] == records[m] && rows'[m] == rows[m];
      }
    }
  }

  /** `new(T)` */
  method New(t: GoType) returns (r: Record)
    ensures r.Type() == t && r.Valid() && fresh(r.Repr())
    ensures r.JetRecord? ==> r.jet.ValuesValid()
    ensures r.Contents() == ZeroContents(t)
  {
    match t
    case JetType =>
      var j := new Jet();
      r := JetRecord(j);
    case CellType(k) =>
      var c := new Cell(k);
      r := CellRecord(c);
    case UserTableType =>
      var u := new UserTable();
      r := TableRecord(u);
  }

  /** The call `rs.GetColumnNames()` in Query's loop, whose result is unused.
      It sits in a method of its own so that the column list's properties stay
      out of the scan's proof. */
  method DescribeColumns(rs: Jet)
  {
    var _ := rs.GetColumnNames();
  }

  /** The body of Query's loop for one row: allocate, probe for RowStruct, and
      only on success scan the row through GetPointers and keep the record. The
      scan's error is dropped. */
  method ProbeRow(t: GoType, row: Row) returns (kept: Option<Record>)
    ensures kept.Some? <==> t.IsRowStruct()
    ensures kept.Some? ==> Filled(t, kept.value, row) && fresh(kept.value.Repr())
  {
    var u := New(t);
    match u.AsRowStruct()
    case Some(rs) =>
      DescribeColumns(rs);
      var data := rs.GetPointers();
      assert u.Contents() == Vals(data) == ZeroJet();
      var _ := Scan(row, data);
      assert Vals(data) == Scanned(row, Layout, ZeroJet());
      kept := Some(u);
    case None =>
      kept := None;
  }

  /** The body of QueryReflect's loop for one row: allocate, collect the scan
      targets by walking the fields, scan (dropping the error), keep the record.
      For a cell type the walk panics at its unexported `val`. */
  method ReflectRow(t: GoType, row: Row) returns (res: RowResult)
    ensures res.RowPanic? <==> t.HasUnexportedField()
    ensures res.RowPanic? ==> res.field == "val"
    ensures res.Kept? ==> Filled(t, res.record, row) && fresh(res.record.Repr())
  {
    var r := New(t);
    assert r.JetRecord? ==> Vals(r.jet.GetPointers()) == ZeroJet();
    var walked := StrutForScan(r.StructFields());
    if walked.Panicked? {
      return RowPanic(walked.field);
    }
    var data := walked.pointers;
    match r {
      case JetRecord(j) =>
        ReflectedPointers(j);
        assert data == j.GetPointers();
        assert Vals(data) == ZeroJet();
        var _ := Scan(row, data);
        assert Vals(data) == Scanned(row, Layout, ZeroJet());
      case CellRecord(_) =>
        assert false;
      case TableRecord(_) =>
        assert data == [];
        var _ := Scan(row, data);
    }
    return Kept(r);
  }

  /** Query's cursor loop: for each row, ProbeRow's record, if any, is appended. */
  method ProbeRows(t: GoType, rows: seq<Row>) returns (result: seq<Record>, ghost made: set<object>)
    ensures fresh(made)
    ensures t.IsRowStruct() ==> Built(t, result, rows, made)
    ensures !t.IsRowStruct() ==> result == []
  {
    result, made := [], {};
    for k := 0 to |rows|
      invariant fresh(made)
      invariant t.IsRowStruct() ==> Built(t, result, rows[..k], made)
      invariant !t.IsRowStruct() ==> result == []
    {
      var kept := ProbeRow(t, rows[k]);
      if kept.Some? {
        BuiltAppend(t, result, rows, k, made, kept.value);
        result := result + [kept.value];
        made := made + kept.value.Repr();
      }
    }
    assert rows[..|rows|] == rows;
  }

  /** Query[T]: one fresh, filled record per row in row order when *T is a
      RowStruct; otherwise every row is skipped and the result is empty. */
  method Query(t: GoType, db: QueryResult) returns (out: Outcome)
    ensures db.QueryFailed? ==> out == Fatal(db.err)
    ensures db.Cursor? ==> out.Returned?
    ensures db.Cursor? && t.IsRowStruct() ==>
              |out.records| == |db.rows| && Separate(out.records) &&
              forall k :: 0 <= k < |db.rows| ==> Filled(t, out.records[k], db.rows[k])
    ensures db.Cursor? && !t.IsRowStruct() ==> out.records == []
    ensures out.Returned? ==> forall k :: 0 <= k < |out.records| ==> fresh(out.records[k].Repr())
  {
    if db.QueryFailed? {
      return Fatal(db.err);
    }
    var result, made := ProbeRows(t, db.rows);
    return Returned(result);
  }

  /** QueryReflect[T]: one fresh record per row in row order, for every T
      without unexported fields; a cell type panics on the first row. */
  method QueryReflect(t: GoType, db: QueryResult) returns (out: Outcome)
    ensures db.QueryFailed? ==> out == Fatal(db.err)
    ensures db.Cursor? && t.HasUnexportedField() && |db.rows| > 0 ==> out == Panic("val")
    ensures db.Cursor? && (!t.HasUnexportedField() || db.rows == []) ==>
              out.Returned? && |out.records| == |db.rows| && Separate(out.records) &&
              forall k :: 0 <= k < |db.rows| ==> Filled(t, out.records[k], db.rows[k])
    ensures out.Returned? ==> forall k :: 0 <= k < |out.records| ==> fresh(out.records[k].Repr())
  {
    if db.QueryFailed? {
      return Fatal(db.err);
    }
    var rows := db.rows;
    var result: seq<Record> := [];
    ghost var made: set<object> := {};
    for k := 0 to |rows|
      invariant fresh(made)
      invariant Built(t, result, rows[..k], made)
      invariant t.HasUnexportedField() ==> k == 0
    {
      var res := ReflectRow(t, rows[k]);
      if res.RowPanic? {
        return Panic(res.field);
      }
      var r := res.record;
      BuiltAppend(t, result, rows, k, made, r);
      result := result + [r];
      made := made + r.Repr();
    }
    assert rows[..|rows|] == rows;
    return Returned(result);
  }

  /** On the same cursor, Query[Jet] and QueryReflect[Jet] return as many records
      as there are rows, with equal field values in the same order (each is what
      scanning its row gives), and the two results share no object. */
  method CompareMaterializers(db: QueryResult) returns (viaProbe: Outcome, viaReflect: Outcome)
    ensures viaProbe.Fatal? <==> db.QueryFailed?
    ensures viaReflect.Fatal? <==> db.QueryFailed?
    ensures db.Cursor? ==>
              viaProbe.Returned? && viaReflect.Returned? &&
              |viaProbe.records| == |viaReflect.records| == |db.rows| &&
              forall k :: 0 <= k < |db.rows| ==>
                Filled(JetType, viaProbe.records[k], db.rows[k]) &&
                Filled(JetType, viaReflect.records[k], db.rows[k]) &&
                viaProbe.records[k].Contents() == viaReflect.records[k].Contents() &&
                viaProbe.records[k].Repr() !! viaReflect.records[k].Repr()
  {
    viaProbe := Query(JetType, db);
    label probed:
    viaReflect := QueryReflect(JetType, db);
    if db.Cursor? {
      var a, b := viaProbe.records, viaReflect.records;
      forall k | 0 <= k < |db.rows|
        ensures Filled(JetType, a[k], db.rows[k]) && a[k].Repr() !! b[k].Repr()
      {
        assert old@probed(allocated(a[k].Repr()));
        assert unchanged@probed(a[k].Repr());
        assert fresh@probed(b[k].Repr());
      }
    }
  }

  /** Running Query[T] twice on the same cursor gives two results of the same
      length with equal field values in the same order, owned independently. */
  method QueryTwice(t: GoType, db: QueryResult) returns (first: Outcome, second: Outcome)
    ensures first.Fatal? <==> db.QueryFailed?
    ensures second.Fatal? <==> db.QueryFailed?
    ensures first.Returned? ==>
              second.Returned? && |first.records| == |second.records| &&
              forall k :: 0 <= k < |first.records| ==>
                first.records[k].Type() == second.records[k].Type() &&
                first.records[k].Valid() && second.records[k].Valid() &&
                first.records[k].Contents() == second.records[k].Contents() &&
                first.records[k].Repr() !! second.records[k].Repr()
  {
    first := Query(t, db);
    label ran:
    second := Query(t, db);
    if db.Cursor? && t.IsRowStruct() {
      var a, b := first.records, second.records;
      forall k | 0 <= k < |a|
        ensures Filled(t, a[k], db.rows[k]) && a[k].Repr() !! b[k].Repr()
      {
        assert old@ran(allocated(a[k].Repr()));
        assert unchanged@ran(a[k].Repr());
        assert fresh@ran(b[k].Repr());
      }
    }
  }

  /** Running QueryReflect[T] twice on the same cursor ends the same way both
      times; when both return, they give the same number of records with equal
      field values in the same order, owned independently. */
  method QueryReflectTwice(t: GoType, db: QueryResult) returns (first: Outcome, second: Outcome)
    ensures first.Fatal? <==> db.QueryFailed?
    ensures !first.Returned? ==> first == second
    ensures first.Returned? ==>
              second.Returned? && |first.records| == |second.records| &&
              forall k :: 0 <= k < |first.records| ==>
                first.records[k].Type() == second.records[k].Type() &&
                first.records[k].Valid() && second.records[k].Valid() &&
                first.records[k].Contents() == second.records[k].Contents() &&
                first.records[k].Repr() !! second.records[k].Repr()
  {
    first := QueryReflect(t, db);
    label ran:
    second := QueryReflect(t, db);
    if db.Cursor? && (!t.HasUnexportedField() || db.rows == []) {
      var a, b := first.records, second.records;
      forall k | 0 <= k < |a|
        ensures Filled(t, a[k], db.rows[k]) && a[k].Repr() !! b[k].Repr()
      {
        assert old@ran(allocated(a[k].Repr()));
        assert unchanged@ran(a[k].Repr());
        assert fresh@ran(b[k].Repr());
      }
    }
  }
}
