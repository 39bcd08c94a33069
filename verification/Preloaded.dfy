/** Digest of a factory-preloaded image (`hash_preloaded` in adapters/ota/src/shared_flash.rs). */
module Preloaded {
  import opened Machine
  import opened FlashChip
  import opened ArtifactStorage
  import opened BootEntries
  import OtaData

  datatype PreloadedError = NoTarget | TooLarge | FlashError

  const BUFFER: nat := 4096

  // Base and size are whole read units inside the chip, and so is every full buffer.
  ghost predicate WholeReads(base: nat, size: nat, readSize: nat, capacity: nat)
    requires 0 < readSize
  {
    BUFFER % readSize == 0 && size % readSize == 0 && base % readSize == 0 && base + size <= capacity
  }

  // Partitions have 32-bit offsets and sizes, and are those of the slot asked for.
  ghost predicate Typed(p: OtaData.Platform) {
    forall cells, slot :: p.appPartition(cells, slot).Some? ==>
      p.appPartition(cells, slot).value.Valid() && p.appPartition(cells, slot).value.slot == slot
  }

  // `digest` is the hash of a whole message; `fed` collects what `Hasher::update` is given.
  method HashPreloaded<Digest>(chip: Chip, p: OtaData.Platform, codec: Codec, size: nat, digest: seq<byte> -> Digest)
    returns (r: Result<(AppSlot, Digest), PreloadedError>)
    requires chip.Valid() && size < USIZE_RANGE && codec.entrySize <= SECTOR_SIZE && Typed(p)
    modifies chip`faults
    ensures old(chip.faults) <= chip.faults
    // the slot is the upload target, and without a fault there is none only when that has none
    ensures r != Err(NoTarget) ==> OtaData.UploadTarget(p, codec, chip.cells).Some?
    ensures r == Err(NoTarget) && chip.faults == old(chip.faults) && p.otadataBase(chip.cells).Some? &&
              OtaData.Readable(codec, p.otadataBase(chip.cells).value, |chip.cells|, chip.readSize) ==>
              OtaData.UploadTarget(p, codec, chip.cells) == None
    ensures r != Err(NoTarget) ==>
              (r == Err(TooLarge) <==> size > OtaData.UploadTarget(p, codec, chip.cells).value.size)
    // exactly the first `size` bytes of the slot, in order, are hashed
    ensures r.Ok? ==>
      var target := OtaData.UploadTarget(p, codec, chip.cells).value;
      && (0 < size ==> target.offset + size <= |chip.cells|)
      && r.value == (target.slot, digest(if size == 0 then [] else chip.cells[target.offset..target.offset + size]))
    // reads that the chip's read unit allows fail only through the hardware
    ensures r == Err(FlashError) ==>
      WholeReads(OtaData.UploadTarget(p, codec, chip.cells).value.offset, size, chip.readSize, |chip.cells|) ==>
        old(chip.faults) < chip.faults
  {
    hide WholeReads, Wrap32, Fed, AtBuffer, Min, OtaData.UploadTarget, OtaData.Readable, OtaData.TargetSlot,
        OtaData.EntriesAt, OtaData.Decoded;
    var located := OtaData.WriteTarget(chip, p, codec);
    if located.Err? {
      return Err(NoTarget);
    }
    var target := located.value;
    TargetIsTyped(p, codec, chip.cells);
    if size > target.size {
      return Err(TooLarge);
    }
    var fed: seq<byte> := [];
    var buf := new byte[BUFFER](_ => 0);
    var offset := 0;
    NothingFed(chip.cells, target.offset);
    FirstBuffer(size);
    while offset < size
      invariant offset <= size
      invariant AtBuffer(offset, size)
      invariant old(chip.faults) <= chip.faults
      invariant Fed(chip.cells, target.offset, offset, fed)
    {
      var take := Min(size - offset, BUFFER);
      NextBuffer(offset, take, size);
      ReadUnits(target.offset, offset, take, size, chip);
      FedInChip(chip.cells, target.offset, offset, fed);
      var ok := chip.Read(Wrap32(target.offset + offset), buf, take);
      if !ok {
        return Err(FlashError);
      }
      FeedMore(chip.cells, target.offset, offset, fed, take);
      fed := fed + buf[..take];
      offset := offset + take;
    }
    AllFed(chip.cells, target.offset, size, fed);
    r := Ok((target.slot, digest(fed)));
  }

  lemma TargetIsTyped(p: OtaData.Platform, codec: Codec, cells: seq<byte>)
    requires Typed(p) && codec.entrySize <= SECTOR_SIZE && OtaData.UploadTarget(p, codec, cells).Some?
    ensures OtaData.UploadTarget(p, codec, cells).value.Valid()
  {
  }

  // Reads start at whole buffers until the last one.
  predicate AtBuffer(offset: nat, size: nat) {
    offset % BUFFER == 0 || offset == size
  }

  lemma FirstBuffer(size: nat)
    ensures AtBuffer(0, size)
  {
  }

  lemma NextBuffer(offset: nat, take: nat, size: nat)
    requires AtBuffer(offset, size) && offset < size && take == Min(size - offset, BUFFER)
    ensures 0 < take <= BUFFER && offset + take <= size && AtBuffer(offset + take, size)
  {
  }

  // What has been hashed is the slot so far; nothing has when nothing was read.
  ghost predicate Fed(cells: seq<byte>, base: nat, offset: nat, fed: seq<byte>) {
    if offset == 0 then fed == [] else base + offset <= |cells| && fed == cells[base..base + offset]
  }

  lemma NothingFed(cells: seq<byte>, base: nat)
    ensures Fed(cells, base, 0, [])
  {
  }

  lemma FedInChip(cells: seq<byte>, base: nat, offset: nat, fed: seq<byte>)
    requires Fed(cells, base, offset, fed) && base < USIZE_RANGE && |cells| < USIZE_RANGE
    ensures Wrap32(base + offset) == base + offset
  {
  }

  lemma FeedMore(cells: seq<byte>, base: nat, offset: nat, fed: seq<byte>, take: nat)
    requires Fed(cells, base, offset, fed) && 0 < take && base + offset + take <= |cells|
    ensures Fed(cells, base, offset + take, fed + cells[base + offset..base + offset + take])
  {
    JoinSlices(cells, base, base + offset, base + offset + take);
  }

  lemma AllFed(cells: seq<byte>, base: nat, size: nat, fed: seq<byte>)
    requires Fed(cells, base, size, fed)
    ensures if size == 0 then fed == [] else base + size <= |cells| && fed == cells[base..base + size]
  {
  }

  lemma ReadUnits(base: nat, offset: nat, take: nat, size: nat, chip: Chip)
    requires chip.Valid() && offset < size && AtBuffer(offset, size) && take == Min(size - offset, BUFFER)
    ensures WholeReads(base, size, chip.readSize, |chip.cells|) ==> chip.ReadFits(base + offset, take)
  {
    if WholeReads(base, size, chip.readSize, |chip.cells|) {
      MultipleOfMultiple(offset, BUFFER, chip.readSize);
      SumOfMultiples(base, offset, chip.readSize);
      DifferenceOfMultiples(size, offset, chip.readSize);
    }
  }
}
