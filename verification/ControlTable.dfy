/**
 * Address allocation of the servo motor control table: rows of a CSV file become items that occupy
 * consecutive address intervals (control_table.cpp, control_table_item_descriptor.cpp).
 */
module ControlTable {
  import opened Options

  const UINT16 := 0x1_0000

  datatype ValueType = KUInt8 | KInt8 | KUInt16 | KInt16 | KUInt32 | KInt32 | KUInt64 | KInt64 | KFloat | KDouble

  datatype ErrorCode = Success | ColumnSizeError | AlreadyRecorded | BadType

  /** A tokenised line: its number of columns, and the columns with the type and the name of the item. */
  datatype Row = Row(columns: nat, typeName: string, name: string)

  /** The interval of an item, in `uint16_t` arithmetic. */
  datatype Descriptor = Descriptor(valueType: ValueType, initialAddress: nat, finalAddress: nat)

  // ---- the two width computations -----------------------------------------------------------------------------

  datatype Parsed = Parsed(valueType: ValueType, numBytes: nat)

  /** The type column as `ProcessLine` reads it. */
  function ParseType(typeName: string): Option<Parsed> {
    if typeName == "uint8_t" then Some(Parsed(KUInt8, 1))
    else if typeName == "int8_t" then Some(Parsed(KInt8, 1))
    else if typeName == "uint16_t" then Some(Parsed(KUInt16, 2))
    else if typeName == "int16_t" then Some(Parsed(KInt16, 2))
    else if typeName == "uint32_t" then Some(Parsed(KUInt32, 4))
    else if typeName == "int32_t" then Some(Parsed(KInt32, 4))
    else if typeName == "uint64_t" then Some(Parsed(KUInt64, 8))
    else if typeName == "int64_t" then Some(Parsed(KInt64, 8))
    else if typeName == "float" then Some(Parsed(KFloat, 4))
    else if typeName == "double" then Some(Parsed(KDouble, 8))
    else None
  }

  /** The ten type names, and the widths that go with them. */
  lemma TypeNames(typeName: string)
    ensures ParseType("uint8_t") == Some(Parsed(KUInt8, 1)) && ParseType("int8_t") == Some(Parsed(KInt8, 1))
    ensures ParseType("uint16_t") == Some(Parsed(KUInt16, 2)) && ParseType("int16_t") == Some(Parsed(KInt16, 2))
    ensures ParseType("uint32_t") == Some(Parsed(KUInt32, 4)) && ParseType("int32_t") == Some(Parsed(KInt32, 4))
    ensures ParseType("uint64_t") == Some(Parsed(KUInt64, 8)) && ParseType("int64_t") == Some(Parsed(KInt64, 8))
    ensures ParseType("float") == Some(Parsed(KFloat, 4)) && ParseType("double") == Some(Parsed(KDouble, 8))
    ensures ParseType(typeName).Some? <==>
      typeName in {"uint8_t", "int8_t", "uint16_t", "int16_t", "uint32_t", "int32_t", "uint64_t", "int64_t",
                   "float", "double"}
  {
  }

  /** The width the descriptor's constructor computes for itself. */
  function NumBytes(t: ValueType): nat {
    match t
    case KUInt8 | KInt8 => 1
    case KUInt16 | KInt16 => 2
    case KUInt32 | KInt32 | KFloat => 4
    case KUInt64 | KInt64 | KDouble => 8
  }

  function MakeDescriptor(t: ValueType, initialAddress: nat): Descriptor {
    Descriptor(t, initialAddress, (initialAddress + NumBytes(t)) % UINT16)
  }

  // ---- acceptable rows ----------------------------------------------------------------------------------------

  /** The names taken once the first n rows have been added to a table that holds those in `base`. */
  function Names(base: set<string>, rows: seq<Row>, n: nat): set<string>
    requires n <= |rows|
  {
    if n == 0 then base else Names(base, rows, n - 1) + {rows[n - 1].name}
  }

  /** A name is taken if the table had it or an earlier row has it. */
  lemma {:induction false} TakenIff(base: set<string>, rows: seq<Row>, n: nat, name: string)
    requires n <= |rows|
    ensures name in Names(base, rows, n) <==> name in base || exists i :: 0 <= i < n && rows[i].name == name
    decreases n
  {
    if n > 0 {
      TakenIff(base, rows, n - 1, name);
    }
  }

  lemma {:induction false} NameListed(base: set<string>, rows: seq<Row>, i: nat, n: nat)
    requires i < n <= |rows|
    ensures rows[i].name in Names(base, rows, n)
    decreases n
  {
    if i < n - 1 {
      NameListed(base, rows, i, n - 1);
    }
  }

  lemma {:induction false} BaseListed(base: set<string>, rows: seq<Row>, n: nat)
    requires n <= |rows|
    ensures base <= Names(base, rows, n)
  {
    if n > 0 {
      BaseListed(base, rows, n - 1);
    }
  }

  /** The verdict on a row when the rows before it have been accepted. */
  function Verdict(base: set<string>, rows: seq<Row>, i: nat): ErrorCode
    requires i < |rows|
  {
    if rows[i].columns != 12 then ColumnSizeError
    else if rows[i].name in Names(base, rows, i) then AlreadyRecorded
    else if ParseType(rows[i].typeName).None? then BadType
    else Success
  }

  predicate Acceptable(base: set<string>, rows: seq<Row>, n: nat) {
    n <= |rows| && forall i :: 0 <= i < n ==> Verdict(base, rows, i) == Success
  }

  function Width(row: Row): nat {
    var t := ParseType(row.typeName);
    if t.None? then 0 else t.value.numBytes
  }

  /** The number of bytes of the first n rows. */
  function Offset(rows: seq<Row>, n: nat): nat
    requires n <= |rows|
  {
    if n == 0 then 0 else Offset(rows, n - 1) + Width(rows[n - 1])
  }

  /** Addresses are `uint16_t`. */
  function Address(rows: seq<Row>, n: nat): nat
    requires n <= |rows|
  {
    Offset(rows, n) % UINT16
  }

  predicate ItemOf(rows: seq<Row>, i: nat, table: map<string, Descriptor>)
    requires i < |rows|
  {
    rows[i].name in table &&
    ParseType(rows[i].typeName) == Some(Parsed(table[rows[i].name].valueType, Width(rows[i]))) &&
    table[rows[i].name].initialAddress == Address(rows, i) &&
    table[rows[i].name].finalAddress == Address(rows, i + 1)
  }

  /**
   * The table after the first n rows have been loaded into `base`: what was there is still there, and each
   * row has a descriptor of its type, at its offset modulo 2^16.
   */
  predicate Allocated(base: map<string, Descriptor>, rows: seq<Row>, n: nat, table: map<string, Descriptor>) {
    Acceptable(base.Keys, rows, n) &&
    table.Keys == Names(base.Keys, rows, n) &&
    (forall name :: name in base ==> name in table && table[name] == base[name]) &&
    forall i :: 0 <= i < n ==> ItemOf(rows, i, table)
  }

  class ControlTable {
    var descriptors: map<string, Descriptor>

    constructor ()
      ensures descriptors == map[]
    {
      descriptors := map[];
    }

    /** `ProcessLine`: allocates one item behind the last one. */
    method ProcessLine(row: Row, lastAddress: nat) returns (error: ErrorCode, newAddress: nat)
      modifies this
      ensures error == (if row.columns != 12 then ColumnSizeError
                        else if row.name in old(descriptors) then AlreadyRecorded
                        else if ParseType(row.typeName).None? then BadType
                        else Success)
      ensures error != Success ==> descriptors == old(descriptors) && newAddress == lastAddress
      ensures error == Success ==>
        descriptors == old(descriptors)[row.name :=
          Descriptor(ParseType(row.typeName).value.valueType, lastAddress, (lastAddress + Width(row)) % UINT16)] &&
        newAddress == (lastAddress + Width(row)) % UINT16 &&
        Width(row) == ParseType(row.typeName).value.numBytes
    {
      newAddress := lastAddress;
      if row.columns != 12 {
        return ColumnSizeError, newAddress;
      }
      if row.name in descriptors {
        return AlreadyRecorded, newAddress;
      }
      var parsed := ParseType(row.typeName);
      if parsed.None? {
        return BadType, newAddress;
      }
      descriptors := descriptors[row.name := MakeDescriptor(parsed.value.valueType, lastAddress)];
      newAddress := (lastAddress + parsed.value.numBytes) % UINT16;
      error := Success;
    }

    /**
     * `Load`: stops at the first row it cannot accept and keeps the ones before it. The table need not be
     * fresh: addresses start at 0 again, and names already there are taken.
     */
    method Load(rows: seq<Row>) returns (error: ErrorCode, ghost accepted: nat)
      modifies this
      ensures Allocated(old(descriptors), rows, accepted, descriptors)
      ensures if accepted == |rows| then error == Success
              else error == Verdict(old(descriptors).Keys, rows, accepted) != Success
    {
      hide ParseType;
      hide Address;
      hide Width;
      hide ItemOf;
      var lastAddress, n := 0, 0;
      StartAddress(rows);
      while n < |rows|
        invariant n <= |rows| && Allocated(old(descriptors), rows, n, descriptors)
        invariant lastAddress == Address(rows, n)
      {
        ghost var before := descriptors;
        error, lastAddress := ProcessLine(rows[n], lastAddress);
        assert error == Verdict(old(descriptors).Keys, rows, n);
        if error != Success {
          accepted := n;
          return;
        }
        NextAddress(rows, n);
        OneMoreRow(old(descriptors), rows, n, before, descriptors[rows[n].name]);
        n := n + 1;
      }
      error, accepted := Success, n;
    }
  }

  lemma StartAddress(rows: seq<Row>)
    ensures Address(rows, 0) == 0
  {
  }

  lemma NextAddress(rows: seq<Row>, n: nat)
    requires n < |rows|
    ensures Address(rows, n + 1) == (Address(rows, n) + Width(rows[n])) % UINT16
  {
    hide Width;
  }

  lemma OneMoreRow(base: map<string, Descriptor>, rows: seq<Row>, n: nat, table: map<string, Descriptor>, d: Descriptor)
    requires n < |rows| && Allocated(base, rows, n, table) && Verdict(base.Keys, rows, n) == Success
    requires ParseType(rows[n].typeName) == Some(Parsed(d.valueType, Width(rows[n])))
    requires d.initialAddress == Address(rows, n) && d.finalAddress == Address(rows, n + 1)
    ensures Allocated(base, rows, n + 1, table[rows[n].name := d])
  {
    hide ParseType;
    hide Address;
    var more := table[rows[n].name := d];
    BaseListed(base.Keys, rows, n);
    forall i | 0 <= i < n
      ensures ItemOf(rows, i, more)
    {
      NameListed(base.Keys, rows, i, n);
      assert ItemOf(rows, i, table);
    }
    assert more.Keys == table.Keys + {rows[n].name};
  }

  // ---- tiling -------------------------------------------------------------------------------------------------

  lemma {:induction false} OffsetsAscend(rows: seq<Row>, i: nat, n: nat)
    requires i <= n <= |rows|
    ensures Offset(rows, i) <= Offset(rows, n)
    decreases n - i
  {
    if i < n {
      OffsetsAscend(rows, i, n - 1);
    }
  }

  lemma WidthPositive(row: Row)
    requires ParseType(row.typeName).Some?
    ensures 1 <= Width(row) <= 8
    ensures Width(row) == NumBytes(ParseType(row.typeName).value.valueType)
  {
  }

  /** Address a belongs to the item of row i. */
  predicate Covers(rows: seq<Row>, table: map<string, Descriptor>, i: nat, a: int) {
    i < |rows| && rows[i].name in table &&
    table[rows[i].name].initialAddress <= a < table[rows[i].name].finalAddress
  }

  /** The item of row i has its full width and starts where the one before it ends. */
  predicate Abuts(rows: seq<Row>, table: map<string, Descriptor>, i: nat)
    requires i < |rows|
  {
    rows[i].name in table &&
    table[rows[i].name].finalAddress == table[rows[i].name].initialAddress + Width(rows[i]) &&
    table[rows[i].name].initialAddress ==
      if i > 0 && rows[i - 1].name in table then table[rows[i - 1].name].finalAddress else 0
  }

  /** The intervals follow each other in row order without gap or overlap, starting at 0. */
  predicate Tiles(rows: seq<Row>, n: nat, table: map<string, Descriptor>)
    requires n <= |rows|
  {
    forall i :: 0 <= i < n ==> Abuts(rows, table, i)
  }

  /** The intervals tile the address space exactly when the accepted rows total at most 65535 bytes. */
  lemma TilesIffFits(base: map<string, Descriptor>, rows: seq<Row>, n: nat, table: map<string, Descriptor>)
    requires Allocated(base, rows, n, table)
    ensures Tiles(rows, n, table) <==> Offset(rows, n) < 65536
  {
    hide Width;
    hide Names;
    hide Verdict;
    if Offset(rows, n) < UINT16 {
      forall i: nat | i < n
        ensures Abuts(rows, table, i)
      {
        Placed(base, rows, i, n, table);
        if i > 0 {
          Placed(base, rows, i - 1, n, table);
        }
      }
    } else {
      var i := Wraps(rows, n);
      WidthOfRow(base.Keys, rows, i, n);
      assert ItemOf(rows, i, table);
      assert !Abuts(rows, table, i);
    }
  }

  lemma Placed(base: map<string, Descriptor>, rows: seq<Row>, i: nat, n: nat, table: map<string, Descriptor>)
    requires Allocated(base, rows, n, table) && i < n && Offset(rows, n) < UINT16
    ensures rows[i].name in table
    ensures table[rows[i].name].initialAddress == Offset(rows, i)
    ensures table[rows[i].name].finalAddress == Offset(rows, i + 1)
    ensures Offset(rows, i) < Offset(rows, i + 1) == Offset(rows, i) + Width(rows[i])
  {
    hide Address;
    hide Offset;
    hide Names;
    hide Verdict;
    NoWrap(base.Keys, rows, i, n);
    assert ItemOf(rows, i, table);
  }

  lemma NoWrap(base: set<string>, rows: seq<Row>, i: nat, n: nat)
    requires Acceptable(base, rows, n) && i < n && Offset(rows, n) < UINT16
    ensures Address(rows, i) == Offset(rows, i) && Address(rows, i + 1) == Offset(rows, i + 1)
    ensures Offset(rows, i) < Offset(rows, i + 1) == Offset(rows, i) + Width(rows[i])
  {
    hide Width;
    hide Verdict;
    OffsetsAscend(rows, i, n);
    OffsetsAscend(rows, i + 1, n);
    WidthOfRow(base, rows, i, n);
  }

  lemma WidthOfRow(base: set<string>, rows: seq<Row>, i: nat, n: nat)
    requires Acceptable(base, rows, n) && i < n
    ensures 1 <= Width(rows[i]) <= 8
  {
    assert Verdict(base, rows, i) == Success;
    WidthPositive(rows[i]);
  }

  /** The first row that does not fit. */
  lemma {:induction false} Wraps(rows: seq<Row>, n: nat) returns (i: nat)
    requires n <= |rows| && Offset(rows, n) >= UINT16
    ensures i < n && Offset(rows, i) < UINT16 <= Offset(rows, i + 1)
    decreases n
  {
    if Offset(rows, n - 1) >= UINT16 {
      i := Wraps(rows, n - 1);
    } else {
      i := n - 1;
    }
  }

  /**
   * Tiling: as long as the accepted rows fit, every address below the last one belongs to exactly one
   * item, and no item reaches beyond; also when a later row was rejected.
   */
  lemma EveryAddressOnce(base: map<string, Descriptor>, rows: seq<Row>, n: nat, table: map<string, Descriptor>, a: int)
    requires Allocated(base, rows, n, table) && Offset(rows, n) < UINT16
    ensures 0 <= a < Offset(rows, n) <==> exists i :: 0 <= i < n && Covers(rows, table, i, a)
    ensures forall i, j :: 0 <= i < n && 0 <= j < n && Covers(rows, table, i, a) && Covers(rows, table, j, a) ==> i == j
  {
    assert n <= |rows|;
    hide Allocated;
    hide Offset;
    hide Covers;
    if 0 <= a < Offset(rows, n) {
      var i := Owner(rows, n, a);
      CoversIff(base, rows, n, table, i, a);
    }
    forall i: nat | i < n && Covers(rows, table, i, a)
      ensures 0 <= a < Offset(rows, n)
    {
      CoversIff(base, rows, n, table, i, a);
      OffsetsAscend(rows, i + 1, n);
    }
    forall i: nat, j: nat | i < j < n && Covers(rows, table, i, a)
      ensures !Covers(rows, table, j, a)
    {
      Apart(base, rows, n, table, i, j, a);
    }
  }

  /** Address a belongs to the item of that name. */
  predicate NameCovers(table: map<string, Descriptor>, name: string, a: int) {
    name in table && table[name].initialAddress <= a < table[name].finalAddress
  }

  /**
   * For a table that was empty before, these are all the items there are: every address below the last
   * one belongs to exactly one name, and no name reaches beyond. Items of an earlier load overlap them,
   * since addresses start at 0 again.
   */
  lemma EveryAddressOneName(rows: seq<Row>, n: nat, table: map<string, Descriptor>, a: int)
    requires Allocated(map[], rows, n, table) && Offset(rows, n) < UINT16
    ensures 0 <= a < Offset(rows, n) <==> exists name :: NameCovers(table, name, a)
    ensures forall x, y :: NameCovers(table, x, a) && NameCovers(table, y, a) ==> x == y
  {
    EveryAddressOnce(map[], rows, n, table, a);
    var empty: map<string, Descriptor> := map[];
    assert empty.Keys == {};
    assert n <= |rows| && table.Keys == Names({}, rows, n);
    hide Allocated;
    hide Offset;
    hide Names;
    if 0 <= a < Offset(rows, n) {
      var i :| 0 <= i < n && Covers(rows, table, i, a);
      assert NameCovers(table, rows[i].name, a);
    }
    forall name | NameCovers(table, name, a)
      ensures 0 <= a < Offset(rows, n)
      ensures exists i :: 0 <= i < n && rows[i].name == name && Covers(rows, table, i, a)
    {
      var i := RowOf(rows, n, name);
      assert Covers(rows, table, i, a);
    }
    forall x, y | NameCovers(table, x, a) && NameCovers(table, y, a)
      ensures x == y
    {
      var i :| 0 <= i < n && rows[i].name == x && Covers(rows, table, i, a);
      var j :| 0 <= j < n && rows[j].name == y && Covers(rows, table, j, a);
    }
  }

  lemma {:induction false} RowOf(rows: seq<Row>, n: nat, name: string) returns (i: nat)
    requires n <= |rows| && name in Names({}, rows, n)
    ensures i < n && rows[i].name == name
  {
    if rows[n - 1].name == name {
      i := n - 1;
    } else {
      i := RowOf(rows, n - 1, name);
    }
  }

  lemma Apart(base: map<string, Descriptor>, rows: seq<Row>, n: nat, table: map<string, Descriptor>,
              i: nat, j: nat, a: int)
    requires Allocated(base, rows, n, table) && Offset(rows, n) < UINT16 && i < j < n
    ensures !(Covers(rows, table, i, a) && Covers(rows, table, j, a))
  {
    hide Covers;
    hide Offset;
    CoversIff(base, rows, n, table, i, a);
    CoversIff(base, rows, n, table, j, a);
    OffsetsAscend(rows, i + 1, j);
  }

  lemma CoversIff(base: map<string, Descriptor>, rows: seq<Row>, n: nat, table: map<string, Descriptor>, i: nat, a: int)
    requires Allocated(base, rows, n, table) && Offset(rows, n) < UINT16 && i < n
    ensures Covers(rows, table, i, a) <==> Offset(rows, i) <= a < Offset(rows, i + 1)
  {
    Placed(base, rows, i, n, table);
  }

  lemma {:induction false} Owner(rows: seq<Row>, n: nat, a: nat) returns (i: nat)
    requires n <= |rows| && a < Offset(rows, n)
    ensures i < n && Offset(rows, i) <= a < Offset(rows, i + 1)
    decreases n
  {
    if a < Offset(rows, n - 1) {
      i := Owner(rows, n - 1, a);
    } else {
      i := n - 1;
    }
  }
}
