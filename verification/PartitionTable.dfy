/** The bootloader's own reading of the partition table and of the two boot entries
    (bootloader/esp/src/main.rs). */
module PartitionTable {
  import opened Machine
  import opened FlashChip
  import opened BootEntries
  import opened EntryUpdate
  import opened BootUpdate
  import RomDriver
  import OtaData

  const TABLE_OFFSET: nat := 0x8000
  const TABLE_LEN: nat := 0xC00
  const ENTRY_LEN: nat := 32
  const MAX_ENTRIES: nat := 96

  // A partition as the table gives it: offset and size.
  datatype Placement = Placement(offset: u32, size: u32)

  datatype Kind = OtaDataKind | Ota0Kind | Ota1Kind

  datatype Layout = Layout(otadata: Placement, ota0: Placement, ota1: Placement)

  // Entry `i` carries the magic AA 50.
  predicate IsEntry(table: seq<byte>, i: nat)
    requires |table| == TABLE_LEN && i < MAX_ENTRIES
  {
    table[ENTRY_LEN * i] == 0xAA && table[ENTRY_LEN * i + 1] == 0x50
  }

  // Type and subtype of entry `i` are those of `kind`.
  predicate IsKind(table: seq<byte>, i: nat, kind: Kind)
    requires |table| == TABLE_LEN && i < MAX_ENTRIES
  {
    var t, s := table[ENTRY_LEN * i + 2], table[ENTRY_LEN * i + 3];
    match kind
    case OtaDataKind => t == 0x01 && s == 0x00
    case Ota0Kind => t == 0x00 && s == 0x10
    case Ota1Kind => t == 0x00 && s == 0x11
  }

  function PlacementOf(table: seq<byte>, i: nat): Placement
    requires |table| == TABLE_LEN && i < MAX_ENTRIES
  {
    Placement(LE32(table, ENTRY_LEN * i + 4), LE32(table, ENTRY_LEN * i + 8))
  }

  // `n` entries precede the first thing that is not one.
  ghost predicate EntryCount(table: seq<byte>, n: nat)
    requires |table| == TABLE_LEN
  {
    n <= MAX_ENTRIES && (forall i :: 0 <= i < n ==> IsEntry(table, i)) && (n < MAX_ENTRIES ==> !IsEntry(table, n))
  }

  // `found` is the last of the first `n` entries of that kind, if there is one.
  ghost predicate LastOfKind(table: seq<byte>, n: nat, kind: Kind, found: Option<Placement>)
    requires |table| == TABLE_LEN && n <= MAX_ENTRIES
  {
    match found
    case None => forall i :: 0 <= i < n ==> !IsKind(table, i, kind)
    case Some(p) => exists i | 0 <= i < n ::
      IsKind(table, i, kind) && p == PlacementOf(table, i) && forall j :: i < j < n ==> !IsKind(table, j, kind)
  }

  lemma OneMoreEntry(table: seq<byte>, i: nat, kind: Kind, before: Option<Placement>)
    requires |table| == TABLE_LEN && i < MAX_ENTRIES && LastOfKind(table, i, kind, before)
    ensures LastOfKind(table, i + 1, kind, if IsKind(table, i, kind) then Some(PlacementOf(table, i)) else before)
  {
    hide IsKind, PlacementOf;
  }

  // The scan over the entries of the table.
  method ScanTable(table: seq<byte>)
    returns (n: nat, otadata: Option<Placement>, ota0: Option<Placement>, ota1: Option<Placement>)
    requires |table| == TABLE_LEN
    ensures EntryCount(table, n)
    ensures LastOfKind(table, n, OtaDataKind, otadata)
    ensures LastOfKind(table, n, Ota0Kind, ota0)
    ensures LastOfKind(table, n, Ota1Kind, ota1)
  {
    otadata, ota0, ota1 := None, None, None;
    n := 0;
    while n < MAX_ENTRIES
      invariant n <= MAX_ENTRIES && forall i :: 0 <= i < n ==> IsEntry(table, i)
      invariant LastOfKind(table, n, OtaDataKind, otadata)
      invariant LastOfKind(table, n, Ota0Kind, ota0)
      invariant LastOfKind(table, n, Ota1Kind, ota1)
    {
      hide LastOfKind, PlacementOf;
      if !IsEntry(table, n) {
        break;
      }
      OneMoreEntry(table, n, OtaDataKind, otadata);
      OneMoreEntry(table, n, Ota0Kind, ota0);
      OneMoreEntry(table, n, Ota1Kind, ota1);
      KindsExclude(table, n);
      var found := Some(PlacementOf(table, n));
      if IsKind(table, n, OtaDataKind) {
        otadata := found;
      } else if IsKind(table, n, Ota0Kind) {
        ota0 := found;
      } else if IsKind(table, n, Ota1Kind) {
        ota1 := found;
      }
      n := n + 1;
    }
  }

  lemma KindsExclude(table: seq<byte>, i: nat)
    requires |table| == TABLE_LEN && i < MAX_ENTRIES
    ensures IsKind(table, i, OtaDataKind) ==> !IsKind(table, i, Ota0Kind) && !IsKind(table, i, Ota1Kind)
    ensures IsKind(table, i, Ota0Kind) ==> !IsKind(table, i, Ota1Kind)
  {
  }

  // The layout the table describes, or what is wrong with it.
  ghost predicate Describes(table: seq<byte>, r: Result<Layout, BootError>)
    requires |table| == TABLE_LEN
  {
    if !IsEntry(table, 0) then r == Err(NoPartitionTable)
    else exists n, otadata, ota0, ota1 ::
      && EntryCount(table, n) && LastOfKind(table, n, OtaDataKind, otadata)
      && LastOfKind(table, n, Ota0Kind, ota0) && LastOfKind(table, n, Ota1Kind, ota1)
      && r == Resolve(otadata, ota0, ota1)
  }

  // All three partitions are needed, and `otadata` needs two sectors.
  function Resolve(otadata: Option<Placement>, ota0: Option<Placement>,
                   ota1: Option<Placement>): Result<Layout, BootError> {
    if otadata.None? || otadata.value.size < 0x2000 then Err(MissingPartition(1))
    else if ota0.None? then Err(MissingPartition(2))
    else if ota1.None? then Err(MissingPartition(3))
    else Ok(Layout(otadata.value, ota0.value, ota1.value))
  }

  // A table describes one layout only.
  lemma DescribesOneLayout(table: seq<byte>, r: Result<Layout, BootError>, r': Result<Layout, BootError>)
    requires |table| == TABLE_LEN && Describes(table, r) && Describes(table, r')
    ensures r == r'
  {
    hide IsKind, PlacementOf, Resolve;
    if IsEntry(table, 0) {
      var n, a, b, c :| EntryCount(table, n) && LastOfKind(table, n, OtaDataKind, a)
        && LastOfKind(table, n, Ota0Kind, b) && LastOfKind(table, n, Ota1Kind, c) && r == Resolve(a, b, c);
      var n', a', b', c' :| EntryCount(table, n') && LastOfKind(table, n', OtaDataKind, a')
        && LastOfKind(table, n', Ota0Kind, b') && LastOfKind(table, n', Ota1Kind, c') && r' == Resolve(a', b', c');
      CountIsUnique(table, n, n');
      LastIsUnique(table, n, OtaDataKind, a, a');
      LastIsUnique(table, n, Ota0Kind, b, b');
      LastIsUnique(table, n, Ota1Kind, c, c');
    }
  }

  lemma CountIsUnique(table: seq<byte>, n: nat, n': nat)
    requires |table| == TABLE_LEN && EntryCount(table, n) && EntryCount(table, n')
    ensures n == n'
  {
    hide IsEntry;
  }

  lemma LastIsUnique(table: seq<byte>, n: nat, kind: Kind, a: Option<Placement>, b: Option<Placement>)
    requires |table| == TABLE_LEN && n <= MAX_ENTRIES && LastOfKind(table, n, kind, a) && LastOfKind(table, n, kind, b)
    ensures a == b
  {
    hide IsKind, PlacementOf;
  }

  // ---------------------------------------------------------------- tables as they are written

  // An entry of the table by its fields.
  datatype TableEntry = TableEntry(kind: nat, subtype: nat, offset: u32, size: u32)

  // The first bytes of one entry: the magic, type and subtype, then offset and size, lowest byte first.
  predicate Encodes(raw: seq<byte>, e: TableEntry)
    requires |raw| == 32
  {
    && raw[0] as int == 0xAA && raw[1] as int == 0x50
    && raw[2] as int == e.kind && raw[3] as int == e.subtype
    && raw[4] as int == e.offset % 256 && raw[5] as int == e.offset / 256 % 256
    && raw[6] as int == e.offset / 65536 % 256 && raw[7] as int == e.offset / 16777216
    && raw[8] as int == e.size % 256 && raw[9] as int == e.size / 256 % 256
    && raw[10] as int == e.size / 65536 % 256 && raw[11] as int == e.size / 16777216
  }

  // The table starts with these entries, and something else follows unless it is full.
  predicate Holds(table: seq<byte>, entries: seq<TableEntry>)
    requires |table| == 0xC00
  {
    && |entries| <= 96
    && (forall i :: 0 <= i < |entries| ==> Encodes(table[32 * i..32 * i + 32], entries[i]))
    && (|entries| < 96 ==> !(table[32 * |entries|] as int == 0xAA && table[32 * |entries| + 1] as int == 0x50))
  }

  // The last entry of a type and subtype.
  function LastEntry(entries: seq<TableEntry>, kind: nat, subtype: nat): Option<TableEntry> {
    if entries == [] then None
    else
      var last := entries[|entries| - 1];
      if last.kind == kind && last.subtype == subtype then Some(last)
      else LastEntry(entries[..|entries| - 1], kind, subtype)
  }

  // What the bootloader makes of a table with these entries.
  function LayoutOf(entries: seq<TableEntry>): Result<Layout, BootError> {
    var otadata, first, second := LastEntry(entries, 1, 0), LastEntry(entries, 0, 0x10), LastEntry(entries, 0, 0x11);
    if entries == [] then Err(NoPartitionTable)
    else if otadata == None || otadata.value.size < 0x2000 then Err(MissingPartition(1))
    else if first == None then Err(MissingPartition(2))
    else if second == None then Err(MissingPartition(3))
    else
      Ok(Layout(Placement(otadata.value.offset, otadata.value.size), Placement(first.value.offset, first.value.size),
                Placement(second.value.offset, second.value.size)))
  }

  lemma EntryReads(table: seq<byte>, i: nat, e: TableEntry)
    requires |table| == TABLE_LEN && i < MAX_ENTRIES && Encodes(table[32 * i..32 * i + 32], e)
    ensures IsEntry(table, i) && PlacementOf(table, i) == Placement(e.offset, e.size)
    ensures IsKind(table, i, OtaDataKind) <==> e.kind == 1 && e.subtype == 0
    ensures IsKind(table, i, Ota0Kind) <==> e.kind == 0 && e.subtype == 0x10
    ensures IsKind(table, i, Ota1Kind) <==> e.kind == 0 && e.subtype == 0x11
  {
    KindReads(table, i, e);
    PlacementReads(table, i, e);
    hide IsEntry, IsKind, PlacementOf, Encodes;
  }

  lemma KindReads(table: seq<byte>, i: nat, e: TableEntry)
    requires |table| == TABLE_LEN && i < MAX_ENTRIES && Encodes(table[32 * i..32 * i + 32], e)
    ensures IsEntry(table, i)
    ensures IsKind(table, i, OtaDataKind) <==> e.kind == 1 && e.subtype == 0
    ensures IsKind(table, i, Ota0Kind) <==> e.kind == 0 && e.subtype == 0x10
    ensures IsKind(table, i, Ota1Kind) <==> e.kind == 0 && e.subtype == 0x11
  {
  }

  lemma PlacementReads(table: seq<byte>, i: nat, e: TableEntry)
    requires |table| == TABLE_LEN && i < MAX_ENTRIES && Encodes(table[32 * i..32 * i + 32], e)
    ensures PlacementOf(table, i) == Placement(e.offset, e.size)
  {
    var raw := table[32 * i..32 * i + 32];
    assert forall k :: 0 <= k < 12 ==> raw[k] == table[32 * i + k];
    FieldsAreBytes(table, i);
    hide PlacementOf;
    BytesOfNumber(e.offset);
    BytesOfNumber(e.size);
  }

  lemma FieldsAreBytes(table: seq<byte>, i: nat)
    requires |table| == TABLE_LEN && i < MAX_ENTRIES
    ensures var at := 32 * i;
      PlacementOf(table, i) == Placement(
        table[at + 4] as int + 256 * (table[at + 5] as int) + 65536 * (table[at + 6] as int) +
            16777216 * (table[at + 7] as int),
        table[at + 8] as int + 256 * (table[at + 9] as int) + 65536 * (table[at + 10] as int) +
            16777216 * (table[at + 11] as int))
  {
  }

  // The last entry of a kind in the table is the last one of its type and subtype in the list.
  lemma {:induction false} LastReads(table: seq<byte>, entries: seq<TableEntry>, kind: Kind, found: Option<Placement>)
    requires |table| == TABLE_LEN && |entries| <= MAX_ENTRIES
    requires forall i :: 0 <= i < |entries| ==> Encodes(table[32 * i..32 * i + 32], entries[i])
    requires LastOfKind(table, |entries|, kind, found)
    ensures var last := match kind
                        case OtaDataKind => LastEntry(entries, 1, 0)
                        case Ota0Kind => LastEntry(entries, 0, 0x10)
                        case Ota1Kind => LastEntry(entries, 0, 0x11);
      found == if last == None then None else Some(Placement(last.value.offset, last.value.size))
    decreases |entries|
  {
    hide Encodes, IsKind, PlacementOf;
    if entries == [] {
    } else {
      var n := |entries| - 1;
      EntryReads(table, n, entries[n]);
      if !IsKind(table, n, kind) {
        LastReads(table, entries[..n], kind, found);
      }
    }
  }

  // A table that holds these entries describes exactly their layout.
  lemma TableRoundTrip(table: seq<byte>, entries: seq<TableEntry>, r: Result<Layout, BootError>)
    requires |table| == TABLE_LEN && Holds(table, entries) && Describes(table, r)
    ensures r == LayoutOf(entries)
  {
    HeldCount(table, entries);
    hide Encodes, IsKind, PlacementOf, LastOfKind, EntryCount;
    if entries != [] {
      var n, a, b, c :| EntryCount(table, n) && LastOfKind(table, n, OtaDataKind, a)
        && LastOfKind(table, n, Ota0Kind, b) && LastOfKind(table, n, Ota1Kind, c) && r == Resolve(a, b, c);
      CountIsUnique(table, n, |entries|);
      LastReads(table, entries, OtaDataKind, a);
      LastReads(table, entries, Ota0Kind, b);
      LastReads(table, entries, Ota1Kind, c);
    }
  }

  lemma HeldCount(table: seq<byte>, entries: seq<TableEntry>)
    requires |table| == TABLE_LEN && Holds(table, entries)
    ensures EntryCount(table, |entries|) && (IsEntry(table, 0) <==> entries != [])
  {
    forall i | 0 <= i < |entries| ensures IsEntry(table, i) {
      EntryReads(table, i, entries[i]);
    }
    hide Encodes;
  }

  // Reads the table, once more after re-attaching the flash if the first read fails.
  method ReadLayout(chip: Chip) returns (r: Result<Layout, BootError>)
    requires RomChip(chip)
    modifies chip`faults, chip`romReads
    ensures old(chip.faults) <= chip.faults
    ensures r.Ok? || !r.error.FlashRead? ==> TABLE_OFFSET + TABLE_LEN <= |chip.cells|
    ensures r.Ok? || !r.error.FlashRead? ==> Describes(chip.cells[TABLE_OFFSET..TABLE_OFFSET + TABLE_LEN], r)
    // whatever list of entries the flash holds at 0x8000, the answer is its layout
    ensures r.Ok? || !r.error.FlashRead? ==>
              |chip.cells| >= 0x8C00 &&
              forall entries :: Holds(chip.cells[0x8000..0x8C00], entries) ==> r == LayoutOf(entries)
    // reading fails only through the hardware, and only after a second try
    ensures r.Err? && r.error.FlashRead? && 0x8C00 <= |chip.cells| ==> old(chip.faults) + 2 <= chip.faults
  {
    hide LastOfKind, EntryCount, Holds, LayoutOf;
    RomChipHasWholeWords(chip);
    var table := new byte[TABLE_LEN](_ => 0);
    var read := RomDriver.FlashRead(chip, TABLE_OFFSET, table, TABLE_LEN);
    if read.Err? {
      read := RomDriver.FlashRead(chip, TABLE_OFFSET, table, TABLE_LEN);
      if read.Err? {
        return Err(FlashRead(read.error.at));
      }
    }
    assert table[..] == chip.cells[TABLE_OFFSET..TABLE_OFFSET + TABLE_LEN];
    if !IsEntry(table[..], 0) {
      r := Err(NoPartitionTable);
    } else {
      var n, otadata, ota0, ota1 := ScanTable(table[..]);
      r := Resolve(otadata, ota0, ota1);
    }
    forall entries | Holds(table[..], entries) ensures r == LayoutOf(entries) {
      TableRoundTrip(table[..], entries, r);
    }
  }

  // Both entries, in sector order. The second address wraps at 32 bits.
  method ReadOtadata(chip: Chip, base: nat, codec: Codec) returns (r: Result<seq<seq<byte>>, BootError>)
    requires RomChip(chip) && codec.entrySize <= SECTOR_SIZE && base < USIZE_RANGE
    modifies chip`faults, chip`romReads
    ensures old(chip.faults) <= chip.faults
    // entries that are not empty can only be read where the chip has them
    ensures r.Ok? && 0 < codec.entrySize ==> HoldsEntry(chip, codec, base) && HoldsEntry(chip, codec, Second(base))
    ensures r.Ok? && HoldsEntry(chip, codec, base) && HoldsEntry(chip, codec, Second(base)) ==>
              r.value == [EntryAt(codec, chip.cells, base), EntryAt(codec, chip.cells, Second(base))]
    ensures r.Ok? && base + SECTOR_SIZE + codec.entrySize <= |chip.cells| ==>
              r.value == OtaData.EntriesAt(codec, chip.cells, base)
    ensures HoldsEntry(chip, codec, base) && HoldsEntry(chip, codec, Second(base)) ==>
              r.Ok? || old(chip.faults) < chip.faults
    ensures r.Err? ==> r.error.FlashRead?
  {
    hide EntryAt;
    var entries: seq<seq<byte>> := [];
    for i := 0 to 2
      invariant |entries| == i && chip.faults == old(chip.faults)
      invariant 0 < i && 0 < codec.entrySize ==> HoldsEntry(chip, codec, base)
      invariant 1 < i && 0 < codec.entrySize ==> HoldsEntry(chip, codec, Second(base))
      invariant 0 < i && HoldsEntry(chip, codec, base) ==> entries[0] == EntryAt(codec, chip.cells, base)
      invariant 1 < i && HoldsEntry(chip, codec, Second(base)) ==>
                entries[1] == EntryAt(codec, chip.cells, Second(base))
    {
      var raw := new byte[codec.entrySize](_ => ERASED);
      var read := ReadEntry(chip, codec, Wrap32(base + i * SECTOR_SIZE), raw);
      if read.Err? {
        return Err(read.error);
      }
      entries := entries + [raw[..]];
    }
    r := Ok(entries);
  }

  // Where the second entry is read.
  function Second(base: nat): nat {
    Wrap32(base + SECTOR_SIZE)
  }

  predicate HoldsEntry(chip: Chip, codec: Codec, at: nat)
    reads chip
  {
    at + codec.entrySize <= |chip.cells|
  }
}
