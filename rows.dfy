/** The query executor as the materializers see it: the outcome of running a
    query (a failure, or the rows of a cursor, consumed once and in order) and
    the positional `Scan` that copies the current row into a list of scan
    targets. */
module Rows {
  import opened Cells

  type Row = seq<Value>

  /** What `db.Query` hands back. */
  datatype QueryResult = QueryFailed(err: string) | Cursor(rows: seq<Row>)

  datatype ScanError =
    | CountMismatch(columns: nat, destinations: nat)  // "expected ... destination arguments in Scan, not ..."
    | ConversionError(column: nat)                    // a column value that the target cannot hold

  /** The cell types of a target list, which fix what each position accepts. */
  function Kinds(dest: seq<Cell>): (ks: seq<CellKind>)
    ensures |ks| == |dest| && forall i :: 0 <= i < |dest| ==> ks[i] == dest[i].kind
  {
    seq(|dest|, i requires 0 <= i < |dest| => dest[i].kind)
  }

  /** The current contents of a target list. */
  function Vals(dest: seq<Cell>): (vs: seq<Value>)
    reads dest
    ensures |vs| == |dest| && forall i :: 0 <= i < |dest| ==> vs[i] == dest[i].val
  {
    seq(|dest|, i reads dest requires 0 <= i < |dest| => dest[i].val)
  }

  predicate Distinct(dest: seq<Cell>)
  {
    forall i, j :: 0 <= i < j < |dest| ==> dest[i] != dest[j]
  }

  ghost predicate AllValid(dest: seq<Cell>)
    reads dest
  {
    forall i :: 0 <= i < |dest| ==> dest[i].Valid()
  }

  predicate Fits(v: Value, k: CellKind)
  {
    v.Kind() == k.ValueKind()
  }

  /** Length of the longest prefix of `row` whose values fit the cell types `kinds`. */
  function Accepted(row: Row, kinds: seq<CellKind>): (n: nat)
    requires |row| == |kinds|
    ensures n <= |row|
    ensures forall m :: 0 <= m < n ==> Fits(row[m], kinds[m])
    ensures n < |row| ==> !Fits(row[n], kinds[n])
  {
    if row == [] || !Fits(row[0], kinds[0]) then 0
    else 1 + Accepted(row[1..], kinds[1..])
  }

  /** How many leading targets a scan of `row` writes. */
  function Written(row: Row, kinds: seq<CellKind>): (n: nat)
    ensures n <= |kinds|
  {
    if |row| != |kinds| then 0 else Accepted(row, kinds)
  }

  /** The error a scan of `row` into targets of cell types `kinds` reports, if any. */
  function ScanOutcome(row: Row, kinds: seq<CellKind>): (e: Option<ScanError>)
    ensures e == None <==> |row| == |kinds| && forall m :: 0 <= m < |row| ==> Fits(row[m], kinds[m])
    ensures e.Some? && e.value.ConversionError? ==>
              |row| == |kinds| && e.value.column == Written(row, kinds) < |row| && !Fits(row[e.value.column], kinds[e.value.column])
  {
    if |row| != |kinds| then Some(CountMismatch(|row|, |kinds|))
    else if Accepted(row, kinds) < |row| then Some(ConversionError(Accepted(row, kinds)))
    else None
  }

  /** Target contents after a scan of `row`, starting from contents `before`. */
  function Scanned(row: Row, kinds: seq<CellKind>, before: seq<Value>): (after: seq<Value>)
    requires |before| == |kinds|
  {
    seq(|kinds|, i requires 0 <= i < |kinds| => if i < Written(row, kinds) then row[i] else before[i])
  }

  /** A successful scan leaves exactly the row in the targets; a count mismatch leaves
      them as they were; and a scan keeps every target holding a value of its own type. */
  lemma ScannedFacts(row: Row, kinds: seq<CellKind>, before: seq<Value>)
    requires |before| == |kinds|
    requires forall i :: 0 <= i < |kinds| ==> Fits(before[i], kinds[i])
    ensures ScanOutcome(row, kinds) == None ==> Scanned(row, kinds, before) == row
    ensures |row| != |kinds| ==> Scanned(row, kinds, before) == before
    ensures forall i :: 0 <= i < |kinds| ==> Fits(Scanned(row, kinds, before)[i], kinds[i])
  {
    var after := Scanned(row, kinds, before);
    if ScanOutcome(row, kinds) == None {
      assert Written(row, kinds) == |row|;
      assert forall i :: 0 <= i < |row| ==> after[i] == row[i];
    }
    if |row| != |kinds| {
      assert Written(row, kinds) == 0;
      assert forall i :: 0 <= i < |kinds| ==> after[i] == before[i];
    }
  }

  /** database/sql's `Rows.Scan(dest...)`: with as many targets as columns, copies
      column i into target i, from the first column on, and stops at the first
      value its target cannot hold; earlier targets keep what was written. */
  method Scan(row: Row, dest: seq<Cell>) returns (err: Option<ScanError>)
    requires Distinct(dest) && AllValid(dest)
    modifies set i | 0 <= i < |dest| :: dest[i]
    ensures err == ScanOutcome(row, Kinds(dest))
    ensures Vals(dest) == Scanned(row, Kinds(dest), old(Vals(dest)))
    ensures AllValid(dest)
  {
    if |dest| != |row| {
      assert Written(row, Kinds(dest)) == 0;
      return Some(CountMismatch(|row|, |dest|));
    }
    var i := 0;
    while i < |dest|
      invariant 0 <= i <= |dest|
      invariant forall m :: 0 <= m < i ==> Fits(row[m], dest[m].kind)
      invariant forall m :: 0 <= m < |dest| ==> dest[m].val == if m < i then row[m] else old(dest[m].val)
      invariant AllValid(dest)
    {
      if !Fits(row[i], dest[i].kind) {
        return Some(ConversionError(i));
      }
      dest[i].val := row[i];
      i := i + 1;
    }
    assert Written(row, Kinds(dest)) == |dest|;
    return None;
  }
}
