/** The Jet record: a struct embedding the nine column cells, together with its
    hand-written descriptor methods GetColumnNames and GetPointers. */
module Jets {
  import opened Cells
  import opened Rows
  import opened Reflect

  /** The embedded cell types of Jet, in declaration order. */
  const Layout: seq<CellKind> := [ID, PilotID, AirportID, Name, Color, UUID, Identifier, Cargo, Manifest]

  /** The column list that GetColumnNames joins with commas. */
  const DescriptorColumns: seq<string> :=
    ["id", "pilot_id", "airport_id", "name", "color", "uuid", "identifier", "cargo", "manifest"]

  /** Contents of a freshly allocated (zero) Jet. */
  function ZeroJet(): (vs: seq<Value>)
    ensures |vs| == |Layout| && forall i :: 0 <= i < |Layout| ==> Fits(vs[i], Layout[i])
  {
    seq(|Layout|, i requires 0 <= i < |Layout| => Zero(Layout[i].ValueKind()))
  }

  /** The comma-join in which the column list is stated: the pieces with `sep` between them. */
  function Join(parts: seq<string>, sep: char): string
  {
    if |parts| == 0 then ""
    else if |parts| == 1 then parts[0]
    else parts[0] + [sep] + Join(parts[1..], sep)
  }

  /** The split used to state the column-list property: the pieces between
      occurrences of `sep`; never empty. */
  function Split(s: string, sep: char): (parts: seq<string>)
    ensures |parts| >= 1
  {
    if s == [] then [""]
    else
      var rest := Split(s[1..], sep);
      if s[0] == sep then [""] + rest else [[s[0]] + rest[0]] + rest[1..]
  }

  lemma {:induction false} SplitWord(w: string, sep: char, t: string)
    requires sep !in w
    ensures Split(w, sep) == [w]
    ensures Split(w + [sep] + t, sep) == [w] + Split(t, sep)
  {
    if w == [] {
      assert w + [sep] + t == [sep] + t;
      assert ([sep] + t)[1..] == t;
    } else {
      SplitWord(w[1..], sep, t);
      assert (w + [sep] + t)[1..] == w[1..] + [sep] + t;
      assert [w[0]] + w[1..] == w;
    }
  }

  /** Splitting a join of separator-free pieces gives the pieces back. */
  lemma {:induction false} SplitJoin(parts: seq<string>, sep: char)
    requires |parts| >= 1
    requires forall i :: 0 <= i < |parts| ==> sep !in parts[i]
    ensures Split(Join(parts, sep), sep) == parts
  {
    if |parts| == 1 {
      SplitWord(parts[0], sep, "");
    } else {
      SplitWord(parts[0], sep, Join(parts[1..], sep));
      SplitJoin(parts[1..], sep);
    }
  }

  class Jet {
    const id: Cell
    const pilotId: Cell
    const airportId: Cell
    const name: Cell
    const color: Cell
    const uuid: Cell
    const identifier: Cell
    const cargo: Cell
    const manifest: Cell

    /** Each embedded field holds a cell of its own type. */
    predicate Valid()
    {
      id.kind == ID && pilotId.kind == PilotID && airportId.kind == AirportID &&
      name.kind == Name && color.kind == Color && uuid.kind == UUID &&
      identifier.kind == Identifier && cargo.kind == Cargo && manifest.kind == Manifest
    }

    ghost function Repr(): set<object>
    {
      {id, pilotId, airportId, name, color, uuid, identifier, cargo, manifest}
    }

    /** Every embedded cell holds a value of its field's type. */
    ghost predicate ValuesValid()
      reads Repr()
    {
      id.Valid() && pilotId.Valid() && airportId.Valid() && name.Valid() && color.Valid() &&
      uuid.Valid() && identifier.Valid() && cargo.Valid() && manifest.Valid()
    }

    /** `new(Jet)`: nine fresh zero cells. */
    constructor ()
      ensures Valid() && ValuesValid() && fresh(Repr())
      ensures Vals(GetPointers()) == ZeroJet()
    {
      var c0 := new Cell(ID);
      var c1 := new Cell(PilotID);
      var c2 := new Cell(AirportID);
      var c3 := new Cell(Name);
      var c4 := new Cell(Color);
      var c5 := new Cell(UUID);
      var c6 := new Cell(Identifier);
      var c7 := new Cell(Cargo);
      var c8 := new Cell(Manifest);
      id, pilotId, airportId, name, color, uuid, identifier, cargo, manifest := c0, c1, c2, c3, c4, c5, c6, c7, c8;
      new;
      ghost var ptrs := GetPointers();
      assert forall i :: 0 <= i < |Layout| ==> ptrs[i].val == Zero(Layout[i].ValueKind());
    }

    /** The constant "id,pilot_id,airport_id,name,color,uuid,identifier,cargo,manifest",
        spelled as the comma-join of its nine names so that proofs can take it apart. */
    function GetColumnNames(): (names: string)
      ensures Split(names, ',') == DescriptorColumns
      ensures |names| == 64
    {
      assert forall i :: 0 <= i < |DescriptorColumns| ==> ',' !in DescriptorColumns[i];
      SplitJoin(DescriptorColumns, ',');
      Join(DescriptorColumns, ',')
    }

    /** The scan targets of the nine embedded cells: one per field, in
        declaration order, pairwise distinct, all inside this record. */
    function GetPointers(): (ptrs: seq<Cell>)
      requires Valid()
      ensures Kinds(ptrs) == Layout
      ensures Distinct(ptrs)
      ensures forall i :: 0 <= i < |ptrs| ==> ptrs[i] in Repr()
    {
      [id.GetValPointer(), pilotId.GetValPointer(), airportId.GetValPointer(),
       name.GetValPointer(), color.GetValPointer(), uuid.GetValPointer(),
       identifier.GetValPointer(), cargo.GetValPointer(), manifest.GetValPointer()]
    }

    /** The struct as the reflective walk sees it: the nine embedded fields, in
        declaration order; the address of each is a ColumnType. */
    function Fields(): (fields: seq<StructField>)
      ensures AllExported(fields) && AllColumns(fields)
    {
      [ColumnField("ID", id), ColumnField("PilotID", pilotId), ColumnField("AirportID", airportId),
       ColumnField("Name", name), ColumnField("Color", color), ColumnField("UUID", uuid),
       ColumnField("Identifier", identifier), ColumnField("Cargo", cargo), ColumnField("Manifest", manifest)]
    }
  }

  /** The column list has as many names as GetPointers has targets: one per embedded field. */
  lemma ColumnNamesSplit(j: Jet)
    requires j.Valid()
    ensures |Split(j.GetColumnNames(), ',')| == |j.GetPointers()| == |Layout|
  {
  }

  /** The per-cell column names do not follow the descriptor: only the first position agrees. */
  lemma CellNamesAgainstDescriptor(j: Jet)
    requires j.Valid()
    ensures j.GetPointers()[0].GetColumnName() == DescriptorColumns[0]
    ensures forall i :: 1 <= i < |Layout| ==> j.GetPointers()[i].GetColumnName() != DescriptorColumns[i]
  {
  }

  /** Walking Jet's fields by reflection yields exactly GetPointers, element by element. */
  lemma ReflectedPointers(j: Jet)
    requires j.Valid()
    ensures ColumnPointers(j.Fields()) == j.GetPointers()
  {
    var fields, ptrs := j.Fields(), j.GetPointers();
    ColumnPointersAllColumns(fields);
    var walked := ColumnPointers(fields);
    assert |walked| == |ptrs|;
    forall i | 0 <= i < |ptrs|
      ensures walked[i] == ptrs[i]
    {
      assert walked[i] == fields[i].cell;
    }
  }
}
