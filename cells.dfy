/** Column cells: the nine single-field Go types of package golas that implement
    ColumnType (ID, PilotID, AirportID, Name, Color, UUID, Identifier, Cargo,
    Manifest), and the values a row delivers into them. */
module Cells {

  datatype Option<T> = None | Some(value: T)

  newtype byte = x: int | 0 <= x < 256

  /** Go's `int` on a 64-bit platform. */
  newtype Int64 = x: int | -0x8000_0000_0000_0000 <= x < 0x8000_0000_0000_0000

  /** null.String: a string together with a validity flag; Some(s) is a valid s, None is SQL NULL. */
  type NullString = Option<string>

  /** The four Go types that a cell's `val` field can have. */
  datatype ValueKind = IntKind | StringKind | NullStringKind | BytesKind

  /** A value of one of those four Go types: what a scan writes into a cell. */
  datatype Value =
    | IntValue(i: Int64)
    | StringValue(s: string)
    | NullStringValue(ns: NullString)
    | BytesValue(b: seq<byte>)
  {
    function Kind(): ValueKind {
      match this
      case IntValue(_) => IntKind
      case StringValue(_) => StringKind
      case NullStringValue(_) => NullStringKind
      case BytesValue(_) => BytesKind
    }
  }

  /** Go's zero value of each kind: 0, "", an invalid null.String and a nil byte slice. */
  function Zero(k: ValueKind): (v: Value)
    ensures v.Kind() == k
  {
    match k
    case IntKind => IntValue(0)
    case StringKind => StringValue("")
    case NullStringKind => NullStringValue(None)
    case BytesKind => BytesValue([])
  }

  /** Which of the nine column cell types a cell is. */
  datatype CellKind = ID | PilotID | AirportID | Name | Color | UUID | Identifier | Cargo | Manifest
  {
    /** The Go type of the `val` field each cell type declares. */
    function ValueKind(): ValueKind {
      match this
      case ID | PilotID | AirportID => IntKind
      case Name | UUID | Identifier => StringKind
      case Color => NullStringKind
      case Cargo | Manifest => BytesKind
    }
  }

  /** The empty struct type UserTable. */
  class UserTable {
    constructor ()
    {
    }
  }

  /** UserTable.GetTableName: its receiver is never dereferenced, so it answers for nil too. */
  function GetTableName(t: UserTable?): (name: string)
    ensures name == "users"
  {
    "users"
  }

  /** The package variable `table`. Nothing assigns it, so it keeps its zero value, the nil pointer. */
  const table: UserTable? := null

  /** A value of the interface type TableType: the nil interface, or an interface
      holding a *UserTable, which may itself be the nil pointer. */
  datatype TableType = NilInterface | HoldsUserTable(ptr: UserTable?)

  /** One column cell: a Go struct with a single field `val`, used through a pointer. */
  class Cell {
    const kind: CellKind
    var val: Value

    /** `val` has the Go type that the cell's type declares for it. */
    ghost predicate Valid()
      reads this
    {
      val.Kind() == kind.ValueKind()
    }

    /** `new(T)` for a cell type: the cell holds the zero value of its field's type. */
    constructor (kind: CellKind)
      ensures this.kind == kind && val == Zero(kind.ValueKind())
    {
      this.kind := kind;
      val := Zero(kind.ValueKind());
    }

    function GetId(): (v: Value)
      reads this
      requires Valid()
      ensures v.Kind() == kind.ValueKind()
    {
      val
    }

    /** The parameter's Go type is the field's type, hence the requires. */
    method SetId(v: Value)
      requires Valid()
      requires v.Kind() == kind.ValueKind()
      modifies this
      ensures Valid() && GetId() == v
    {
      val := v;
    }

    /** The constant column name each cell type reports, exactly as each of the
        nine methods spells it: four types share "id" and two share "UUID". */
    function GetColumnName(): (name: string)
      ensures name == "id" <==> kind in {ID, PilotID, AirportID, Name}
      ensures name == "UUID" <==> kind in {UUID, Identifier}
    {
      match kind
      case ID | PilotID | AirportID | Name => "id"
      case UUID | Identifier => "UUID"
      case Color => "Color"
      case Cargo => "Cargo"
      case Manifest => "Manifest"
    }

    /** Every cell type claims to be a primary key. */
    function IsPrimaryKey(): (pk: bool)
      ensures pk
    {
      true
    }

    /** Every cell type returns `table`, the nil *UserTable, inside a non-nil TableType. */
    function GetTableType(): (t: TableType)
      ensures t != NilInterface && t.ptr == table && t.ptr == null
    {
      HoldsUserTable(table)
    }

    /** `&c.val`: the scan target. A Go pointer to the field is modelled by the cell
        itself, so a write through it changes this cell's `val` and nothing else. */
    function GetValPointer(): (p: Cell)
      ensures p == this && p.kind == kind
    {
      this
    }
  }

  /** Every cell type's accessors agree: primary key, and the one shared `table`
      inside a non-nil TableType, whose name is "users". */
  lemma CellTypeConstants(c: Cell, d: Cell)
    ensures c.IsPrimaryKey() && d.IsPrimaryKey()
    ensures c.GetTableType() == d.GetTableType() == HoldsUserTable(table)
    ensures GetTableName(c.GetTableType().ptr) == "users"
  {
  }
}
