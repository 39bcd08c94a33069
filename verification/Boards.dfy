/** The conditions under which the other modules promise success, for the boards the repository supports:
    flash with sectors of 4 KiB that is read and programmed in words, and 64 KiB pages of the MMU. */
module Boards {
  import opened Machine
  import opened FlashChip
  import opened ArtifactStorage
  import opened BootEntries
  import opened ConfigRecord
  import opened BlobEntries
  import opened NvsStore
  import opened ConfigSpace
  import opened ImageLoader
  import ArtifactWriters
  import BootUpdate
  import EraseModes
  import OtaData
  import Preloaded

  // Any partition of whole sectors that lies on the chip is well placed for an upload.
  lemma SectorsAreWellPlaced(part: AppPartition, capacity: nat)
    requires part.offset % 0x1000 == 0 && part.size % 0x1000 == 0 && part.offset + part.size <= capacity
    ensures ArtifactWriters.WellPlaced(part, capacity, 0x1000, 4)
  {
  }

  // It takes aligned data, and a stream that fits.
  lemma SectorsAccept(storage: EspArtifactStorage, durable: nat, len: nat)
    requires storage.flash.eraseSize == 0x1000 && storage.flash.writeSize == 4
    requires storage.partitionOffset % 0x1000 == 0 && storage.partitionSize % 0x1000 == 0
    requires storage.partitionOffset + storage.partitionSize <= |storage.flash.cells|
    requires durable % 0x1000 == 0 && durable + len <= storage.partitionSize
    ensures storage.Accepts(durable, len, |storage.flash.cells|) && EraseModes.HasRoom(storage, durable + len)
  {
  }

  // Any block of the partition can be flushed.
  lemma SectorsFlush(storage: EspArtifactStorage, offset: nat, bytes: seq<byte>)
    requires storage.flash.eraseSize == 0x1000 && storage.flash.writeSize == 4 && |bytes| <= 0x1000
    requires offset % 0x1000 == 0 && offset + 0x1000 <= storage.partitionSize
    requires storage.partitionOffset + offset + 0x1000 < 0x1_0000_0000
    ensures storage.Flushable(offset, bytes)
  {
    PaddedLength(bytes, 4);
    hide Padded;
  }

  // Entries of whole words that the chip has can be read, and their sectors updated by either driver.
  lemma WordEntriesAreServed(codec: Codec, base: nat, chip: Chip)
    requires chip.Valid() && chip.eraseSize == 0x1000 && chip.writeSize == 4 && chip.readSize == 4
    requires codec.entrySize % 4 == 0 && codec.entrySize <= 0x1000 && base % 0x1000 == 0
    requires base + 0x2000 <= |chip.cells|
    ensures OtaData.Readable(codec, base, |chip.cells|, chip.readSize)
    ensures OtaData.Placed(codec, base, chip, |chip.cells|) && OtaData.Placed(codec, base + 0x1000, chip, |chip.cells|)
  {
    WordAligned(base);
  }

  lemma WordAligned(base: nat)
    requires base % 0x1000 == 0
    ensures base % 4 == 0 && (base + 0x1000) % 0x1000 == 0
  {
  }

  // A lawful update stays in its sector.
  lemma LawfulStaysInSector(codec: Codec, w: Write)
    requires codec.Lawful()
    ensures BootUpdate.InSector(codec, w)
  {
    assert codec.LawfulOps(w);
    hide FlashChip.Programmed;
  }

  // A preloaded image of whole words at a word boundary can be read.
  lemma WordsCanBeHashed(base: nat, size: nat, capacity: nat)
    requires base % 4 == 0 && size % 4 == 0 && base + size <= capacity
    ensures Preloaded.WholeReads(base, size, 4, capacity)
  {
  }

  // The memory maps of the two chips.
  const C3 := MemoryMap(0x3C00_0000, 0x3C80_0000, 0x4200_0000, 0x4280_0000, 0x1_0000)
  const S3 := MemoryMap(0x3C00_0000, 0x3D00_0000, 0x4200_0000, 0x4280_0000, 0x1_0000)

  // Constants, initialised data and code of an image at `at` in flash.
  function Constants(at: nat): Segment {
    Segment(0x3C00_0020, 0x8000, at + 0x20, None)
  }

  function Data(at: nat): Segment {
    Segment(0x3FC8_8000, 0x4000, at + 0x1_0000, Some(0x3FC8_8000))
  }

  function Code(at: nat): Segment {
    Segment(0x4200_0020, 0xF000, at + 0x2_0020, None)
  }

  // On either chip such an image, in pages and RAM of its own, is valid wherever it lies in flash.
  lemma ImagesAreValid(mm: MemoryMap, at: nat, capacity: nat)
    requires (mm == C3 || mm == S3) && at % 0x1_0000 == 0 && at + 0x3_0000 <= capacity < 0x1_0000_0000
    ensures ValidImage([Constants(at), Data(at), Code(at)], mm, capacity)
  {
    SegmentsAreValid(mm, at, capacity);
    SegmentsAreApart(mm, at);
    PagesArePowers();
    hide Apart, ValidSegment, PowerOfTwo;
  }

  lemma PagesArePowers()
    ensures PowerOfTwo(0x1_0000)
  {
    assert Pow2(8) == 0x100;
    assert Pow2(16) == 0x1_0000;
  }

  lemma SegmentsAreValid(mm: MemoryMap, at: nat, capacity: nat)
    requires (mm == C3 || mm == S3) && at % 0x1_0000 == 0 && at + 0x3_0000 <= capacity
    ensures ValidSegment(Constants(at), mm, capacity) && ValidSegment(Data(at), mm, capacity)
    ensures ValidSegment(Code(at), mm, capacity)
  {
  }

  lemma SegmentsAreApart(mm: MemoryMap, at: nat)
    requires mm == C3 || mm == S3
    ensures Apart(Constants(at), Data(at), mm) && Apart(Constants(at), Code(at), mm) && Apart(Data(at), Code(at), mm)
  {
    forall v: nat | InRun(v, PageNo(Constants(at).load, 0x1_0000), Pages(Constants(at), 0x1_0000)) ensures v == 0x3C00 {
      RunIsPages(Constants(at), 0x1_0000, v);
    }
    forall v: nat | InRun(v, PageNo(Code(at).load, 0x1_0000), Pages(Code(at), 0x1_0000)) ensures v == 0x4200 {
      RunIsPages(Code(at), 0x1_0000, v);
    }
    hide InRun, Pages, PageNo;
  }

  // One claim whose reservation fits the capacity is admitted, and then gives a store that holds no
  // other space the reserved room.
  lemma OneClaimIsAdmitted(g: Geometry, space: string, maxBytes: nat, capacity: nat, blobs: map<string, seq<u8>>)
    requires g.Exact() && ReservationUnits(g, space, maxBytes).Some?
    requires ReservationUnits(g, space, maxBytes).value <= capacity
    requires forall k :: k in blobs ==> k == space && |blobs[k]| <= HEADER_LEN + maxBytes
    ensures Reserved(g, capacity, blobs, space, maxBytes)
  {
    hide ReservationUnits, Geometry.WholeItems;
    var claims := map[space := maxBytes];
    var units := ReservationUnits(g, space, maxBytes).value;
    assert Reservations(g, claims) == map[][space := units];
    SumUpdate(map[], space, units);
    assert Admitted(g, claims, capacity) && WithinBudgets(claims, blobs);
  }
}
