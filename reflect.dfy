/** The reflective field walk: a struct is seen as its declared fields in order.
    An exported field either has an address that satisfies ColumnType (it leads
    to a cell) or not; an unexported field cannot be turned back into an
    interface value, and reflection panics when asked to. */
module Reflect {
  import opened Cells

  datatype StructField =
    | ColumnField(name: string, cell: Cell)   // exported; its address is a ColumnType
    | OtherField(name: string)                // exported; its address is no ColumnType
    | UnexportedField(name: string)           // `Interface()` on its address panics

  /** What the walk ends with: the collected scan targets, or a panic at the named field. */
  datatype WalkResult = Walked(pointers: seq<Cell>) | Panicked(field: string)

  predicate AllExported(fields: seq<StructField>)
  {
    forall i :: 0 <= i < |fields| ==> !fields[i].UnexportedField?
  }

  /** The index of the first unexported field, or the field count if there is none. */
  function FirstUnexported(fields: seq<StructField>): (i: nat)
    ensures i <= |fields| && AllExported(fields[..i])
    ensures i < |fields| <==> !AllExported(fields)
    ensures i < |fields| ==> fields[i].UnexportedField?
  {
    if fields == [] then 0
    else if fields[0].UnexportedField? then 0
    else
      var i := 1 + FirstUnexported(fields[1..]);
      assert forall j :: 1 <= j < |fields| ==> fields[j] == fields[1..][j - 1];
      assert forall j :: 1 <= j < i ==> fields[..i][j] == fields[1..][..i - 1][j - 1];
      i
  }

  /** The scan targets of the column fields, in field order. */
  function ColumnPointers(fields: seq<StructField>): (ptrs: seq<Cell>)
    ensures |ptrs| <= |fields|
  {
    if fields == [] then []
    else
      var init, last := fields[..|fields| - 1], fields[|fields| - 1];
      ColumnPointers(init) + (if last.ColumnField? then [last.cell] else [])
  }

  /** The walk keeps the cells of the column fields and nothing else. */
  lemma {:induction false} ColumnPointersMembers(fields: seq<StructField>)
    ensures forall k :: 0 <= k < |ColumnPointers(fields)| ==>
              exists i :: 0 <= i < |fields| && fields[i].ColumnField? && fields[i].cell == ColumnPointers(fields)[k]
    ensures forall i :: 0 <= i < |fields| && fields[i].ColumnField? ==> fields[i].cell in ColumnPointers(fields)
  {
    if fields != [] {
      var init, last := fields[..|fields| - 1], fields[|fields| - 1];
      ColumnPointersMembers(init);
      var ptrs, before := ColumnPointers(fields), ColumnPointers(init);
      assert ptrs == before + (if last.ColumnField? then [last.cell] else []);
      forall k | 0 <= k < |ptrs|
        ensures exists i :: 0 <= i < |fields| && fields[i].ColumnField? && fields[i].cell == ptrs[k]
      {
        if k < |before| {
          var p := ColumnPointers(init)[k];
          assert exists i :: 0 <= i < |init| && init[i].ColumnField? && init[i].cell == p;
          var i :| 0 <= i < |init| && init[i].ColumnField? && init[i].cell == p;
          assert fields[i] == init[i] && ptrs[k] == before[k];
        } else {
          var i := |fields| - 1;
          assert fields[i] == last && last.ColumnField? && ptrs[k] == last.cell;
        }
      }
      forall i | 0 <= i < |fields| && fields[i].ColumnField?
        ensures fields[i].cell in ptrs
      {
        if i < |init| {
          assert init[i] == fields[i];
        }
      }
    } else {
      assert ColumnPointers(fields) == [];
    }
  }

  /** The walk distributes over concatenation of field lists: it keeps field order. */
  lemma {:induction false} ColumnPointersConcat(a: seq<StructField>, b: seq<StructField>)
    ensures ColumnPointers(a + b) == ColumnPointers(a) + ColumnPointers(b)
    decreases |b|
  {
    if b == [] {
      assert a + b == a;
    } else {
      var b', x := b[..|b| - 1], b[|b| - 1];
      assert (a + b)[..|a + b| - 1] == a + b';
      ColumnPointersConcat(a, b');
    }
  }

  predicate AllColumns(fields: seq<StructField>)
  {
    forall i :: 0 <= i < |fields| ==> fields[i].ColumnField?
  }

  /** All fields are column fields exactly when no field is skipped, and then target i is field i's cell. */
  lemma {:induction false} ColumnPointersAllColumns(fields: seq<StructField>)
    ensures AllColumns(fields) <==> |ColumnPointers(fields)| == |fields|
    ensures AllColumns(fields) ==> forall i :: 0 <= i < |fields| ==> ColumnPointers(fields)[i] == fields[i].cell
  {
    if fields != [] {
      var init, last := fields[..|fields| - 1], fields[|fields| - 1];
      assert fields == init + [last];
      ColumnPointersAllColumns(init);
      var ptrs := ColumnPointers(fields);
      assert ptrs == ColumnPointers(init) + (if last.ColumnField? then [last.cell] else []);
      if AllColumns(fields) {
        assert AllColumns(init) by {
          forall i | 0 <= i < |init| ensures init[i].ColumnField? {
            assert init[i] == fields[i];
          }
        }
      } else if AllColumns(init) {
        assert !last.ColumnField?;
      } else {
        assert |ColumnPointers(init)| < |init|;
      }
    }
  }

  /** StrutForScan: walks the fields in order and keeps the value pointer of each
      field whose address is a ColumnType; it panics at the first unexported field. */
  method StrutForScan(fields: seq<StructField>) returns (r: WalkResult)
    ensures r.Walked? <==> AllExported(fields)
    ensures r.Walked? ==> r.pointers == ColumnPointers(fields)
    ensures r.Panicked? ==> r.field == fields[FirstUnexported(fields)].name
  {
    var pointers := [];
    var i := 0;
    while i < |fields|
      invariant 0 <= i <= |fields|
      invariant AllExported(fields[..i]) && i <= FirstUnexported(fields)
      invariant pointers == ColumnPointers(fields[..i])
    {
      assert fields[..i + 1][..i] == fields[..i];
      if fields[i].UnexportedField? {
        return Panicked(fields[i].name);
      }
      if fields[i].ColumnField? {
        pointers := pointers + [fields[i].cell.GetValPointer()];
      }
      i := i + 1;
    }
    assert fields[..|fields|] == fields;
    return Walked(pointers);
  }
}
