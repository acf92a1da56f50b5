/** Where each (packet source, packet type, payload index) keeps its byte in the
    observation cache: the `nr_bytes` / `bytestart` tables and the two
    translators (one for the byte path, one for the bit path) that pick a row
    and a column of them. */
module Layout {
  import opened Bytes
  import opened Wrappers

  /** sizeValSeen: the number of slots in the observation cache. */
  const SizeValSeen: nat := 302
  const PcktpStart: byte := 0x08
  const PcktpEnd: byte := 0x0F
  /** PCKTP_ARR_SZ: 13 columns per row, see ColumnsSpanTypes. */
  const Columns: nat := 13

  /** PCKTP_ARR_SZ = PCKTP_END - PCKTP_START + 6. */
  lemma ColumnsSpanTypes()
    ensures Columns == (PcktpEnd - PcktpStart) as nat + 6
  {
  }
  const Rows: nat := 2

  /** nr_bytes: the number of cache slots reserved for each (row, column). */
  const NrBytes: seq<seq<nat>> := [
    [0, 0, 0, 0, 0, 20, 20, 20, 8, 15, 21, 36, 42],
    [0, 20, 20, 20, 0, 20, 20, 20, 0, 0, 0, 0, 0]]

  /** bytestart: the first cache slot of each (row, column). */
  const ByteStart: seq<seq<nat>> := [
    [0, 0, 0, 0, 0, 0, 20, 40, 60, 68, 83, 104, 140],
    [182, 182, 202, 222, 242, 242, 262, 282, 302, 302, 302, 302, 302]]

  /** A (pts, pti) pair: row and column of the tables. */
  datatype Address = Address(row: nat, col: nat)

  predicate InTable(a: Address) { a.row < Rows && a.col < Columns }

  function Nr(a: Address): nat
    requires InTable(a)
  {
    NrBytes[a.row][a.col]
  }

  function Start(a: Address): nat
    requires InTable(a)
  {
    ByteStart[a.row][a.col]
  }

  // ---------------------------------------------------------------------
  // The byte-path translator: explicit switches on source and type.

  /** pts in the byte path: 0x40 (ESP pseudo-packets) is row 1, every other source row 0. */
  function ByteRow(src: byte): nat
  {
    if src == 0x40 then 1 else 0
  }

  /** pti in the byte path; None is the `0xFF` "unmapped" marker. */
  function ByteColumn(ptype: byte): Option<nat>
  {
    if 0x0C <= ptype <= 0x0F then Some((ptype - PcktpStart) as nat)
    else if ptype == 0x0B then Some(8)
    else if ptype == 0x12 then Some(9)
    else if ptype == 0x18 then Some(10)
    else if ptype == 0x27 then Some(11)
    else if ptype == 0x2D then Some(12)
    else None
  }

  function ByteAddress(src: byte, ptype: byte): (r: Option<Address>)
    ensures r.Some? ==> InTable(r.value)
  {
    match ByteColumn(ptype)
    case None => None
    case Some(col) => Some(Address(ByteRow(src), col))
  }

  /** What the byte-path translator does with every type byte: 0x0C..0x0F
      keep their offset from 0x08, the H-link lengths 0x0B, 0x12, 0x18,
      0x27, 0x2D take columns 8..12, and 0x08..0x0A (and all others) are
      unmapped; the row is 1 exactly for source 0x40. */
  lemma ByteAddressTable(src: byte, ptype: byte)
    ensures ByteAddress(src, ptype).Some? <==>
      (0x0C <= ptype <= 0x0F || ptype in {0x0B, 0x12, 0x18, 0x27, 0x2D})
    ensures ptype in {0x08, 0x09, 0x0A} ==> ByteAddress(src, ptype).None?
    ensures ptype == 0x0B ==> ByteAddress(src, ptype) == Some(Address(ByteRow(src), 8))
    ensures ptype == 0x2D ==> ByteAddress(src, ptype) == Some(Address(ByteRow(src), 12))
    ensures ByteAddress(src, ptype).Some? ==> (ByteAddress(src, ptype).value.row == 1 <==> src == 0x40)
  {
  }

  // ---------------------------------------------------------------------
  // The bit-path translator: arithmetic on source and type.

  /** pts in the bit path: `src >> 6`, which is 0..3 although the tables have two rows. */
  function BitRow(src: byte): (r: nat)
    ensures r < 4
  {
    (src >> 6) as nat
  }

  /** pti in the bit path: `type - 0x08` for 0x08..0x0F, and column 8 for 0x31;
      None for the types the bit path treats as always new. */
  function BitColumn(ptype: byte): Option<nat>
  {
    if ptype == 0x31 then Some((PcktpEnd - PcktpStart) as nat + 1)
    else if ptype < PcktpStart || ptype > PcktpEnd then None
    else Some((ptype - PcktpStart) as nat)
  }

  /** The two translators disagree: 0x0B is column 8 for bytes and column 3
      for bits, 0x31 is column 8 only for bits, the H-link types 0x12..0x2D
      only for bytes, and source 0x89 is row 0 for bytes but row 2 for bits. */
  lemma TranslatorsDiffer()
    ensures ByteColumn(0x0B) == Some(8) && BitColumn(0x0B) == Some(3)
    ensures ByteColumn(0x31).None? && BitColumn(0x31) == Some(8)
    ensures forall t :: t in {0x12, 0x18, 0x27, 0x2D} ==> ByteColumn(t).Some? && BitColumn(t).None?
    ensures ByteRow(0x89) == 0 && BitRow(0x89) == 2
    ensures ByteRow(0x41) == 0 && BitRow(0x41) == 1
  {
  }

  // ---------------------------------------------------------------------
  // The slot layout: the regions tile the cache.

  /** A region in the flattened order row 0 columns 0..12, then row 1. */
  function AddressAt(f: nat): (a: Address)
    requires f < Rows * Columns
    ensures InTable(a)
  {
    Address(f / Columns, f % Columns)
  }

  /** Each region starts where the previous one ends; the first starts at 0
      and the last ends at sizeValSeen. */
  lemma RegionsContiguous()
    ensures Start(AddressAt(0)) == 0
    ensures forall f :: 0 <= f < Rows * Columns - 1 ==>
      Start(AddressAt(f)) + Nr(AddressAt(f)) == Start(AddressAt(f + 1))
    ensures Start(AddressAt(Rows * Columns - 1)) + Nr(AddressAt(Rows * Columns - 1)) == SizeValSeen
  {
  }

  /** A region's end never passes a later region's start. */
  lemma {:induction false} RegionsOrdered(f: nat, g: nat)
    requires f < g < Rows * Columns
    ensures Start(AddressAt(f)) + Nr(AddressAt(f)) <= Start(AddressAt(g))
    decreases g - f
  {
    RegionsContiguous();
    if f + 1 < g {
      RegionsOrdered(f + 1, g);
    }
  }

  lemma AddressAtOf(a: Address)
    requires InTable(a)
    ensures a.row * Columns + a.col < Rows * Columns
    ensures AddressAt(a.row * Columns + a.col) == a
  {
  }

  /** Every region lies inside the cache. */
  lemma RegionInCache(a: Address)
    requires InTable(a)
    ensures Start(a) + Nr(a) <= SizeValSeen
  {
    RegionsContiguous();
    var f := a.row * Columns + a.col;
    AddressAtOf(a);
    if f < Rows * Columns - 1 {
      RegionsOrdered(f, Rows * Columns - 1);
    }
  }

  /** Two different regions share no slot. */
  lemma RegionsDisjoint(a: Address, b: Address)
    requires InTable(a) && InTable(b) && a != b
    ensures Start(a) + Nr(a) <= Start(b) || Start(b) + Nr(b) <= Start(a)
  {
    var f, g := a.row * Columns + a.col, b.row * Columns + b.col;
    AddressAtOf(a);
    AddressAtOf(b);
    assert AddressAt(f) == a && AddressAt(g) == b;
    if f < g {
      RegionsOrdered(f, g);
    } else {
      assert f != g;
      RegionsOrdered(g, f);
    }
  }

  /** Every slot of the cache belongs to some region. */
  lemma RegionsCover(s: nat)
    requires s < SizeValSeen
    ensures exists a :: InTable(a) && Start(a) <= s < Start(a) + Nr(a)
  {
    RegionsContiguous();
    var f := 0;
    while Start(AddressAt(f)) + Nr(AddressAt(f)) <= s
      invariant 0 <= f < Rows * Columns
      invariant Start(AddressAt(f)) <= s
      decreases Rows * Columns - f
    {
      f := f + 1;
    }
    assert InTable(AddressAt(f));
  }

  // ---------------------------------------------------------------------
  // Index guards and slots.

  /** The guard as the source writes it (`payloadIndex > nr_bytes` is the
      rejected case): it admits an index equal to the region's length. */
  predicate AdmitsAsWritten(a: Address, index: nat)
    requires InTable(a)
  {
    index <= Nr(a)
  }

  /** The corrected guard: an index is in range when it is below the region's length. */
  predicate Admits(a: Address, index: nat)
    requires InTable(a)
  {
    index < Nr(a)
  }

  /** pi2 = bytestart + index. */
  function Slot(a: Address, index: nat): nat
    requires InTable(a)
  {
    Start(a) + index
  }

  /** Under the corrected guard a slot is always inside the cache, so the
      `pi2 >= sizeValSeen` fallbacks can never fire. */
  lemma SlotInBounds(a: Address, index: nat)
    requires InTable(a) && Admits(a, index)
    ensures Slot(a, index) < SizeValSeen
  {
    RegionInCache(a);
  }

  /** Under the corrected guard two admitted addresses share a slot only when
      they are the same address: an observation never writes another field's byte. */
  lemma SlotInjective(a: Address, i: nat, b: Address, j: nat)
    requires InTable(a) && InTable(b) && Admits(a, i) && Admits(b, j)
    requires Slot(a, i) == Slot(b, j)
    ensures a == b && i == j
  {
    if a != b {
      RegionsDisjoint(a, b);
    }
  }

  /** As written, the guard lets (src 0x00, type 0x0B, index 8) through; its
      slot is the slot of (src 0x21, type 0x12, index 0), and the last
      region's index 20 lands on slot 302, outside the cache. For an H-link
      packet it takes an index past the checksum: 0x892D index 42 lands on
      the first slot of the region of (row 1, type 0x09). */
  lemma AsWrittenGuardAliases()
    ensures ByteAddress(0x00, 0x0B) == Some(Address(0, 8)) && ByteAddress(0x21, 0x12) == Some(Address(0, 9))
    ensures AdmitsAsWritten(Address(0, 8), 8) && !Admits(Address(0, 8), 8)
    ensures Admits(Address(0, 9), 0) && Slot(Address(0, 8), 8) == Slot(Address(0, 9), 0)
    ensures ByteAddress(0x40, 0x0F) == Some(Address(1, 7))
    ensures AdmitsAsWritten(Address(1, 7), 20) && Slot(Address(1, 7), 20) == SizeValSeen
    ensures ByteAddress(0x89, 0x2D) == Some(Address(0, 12)) && AdmitsAsWritten(Address(0, 12), 42)
    ensures !Admits(Address(0, 12), 42) && Admits(Address(1, 1), 0) && Slot(Address(0, 12), 42) == Slot(Address(1, 1), 0)
  {
  }
}
