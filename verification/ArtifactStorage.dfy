/** Erase-block writes into one application partition (adapters/ota/src/lib.rs). */
module ArtifactStorage {
  import opened Machine
  import opened FlashChip

  datatype AppSlot = Ota0 | Ota1

  datatype AppPartition = AppPartition(slot: AppSlot, offset: nat, size: nat) {
    predicate Valid() {
      offset < USIZE_RANGE && size < USIZE_RANGE
    }
  }

  datatype FlashWriteError = ScratchTooSmall | AddressOverflow | Unaligned | Flash

  // ---------------------------------------------------------------- what a write leaves in flash

  // Data padded with zero bytes to whole program units.
  function Padded(bytes: seq<byte>, writeSize: nat): (r: seq<byte>)
    requires 0 < writeSize
    ensures |r| >= |bytes| && r[..|bytes|] == bytes
  {
    RoundedUp(|bytes|, writeSize);
    bytes + seq(DivCeil(|bytes|, writeSize) * writeSize - |bytes|, _ => 0)
  }

  // The chip after `bytes` were written at `at`, with or without erasing the block first.
  function Flushed(eraseFirst: bool, cells: seq<byte>, at: nat, bytes: seq<byte>, eraseSize: nat,
                   writeSize: nat): (r: seq<byte>)
    requires 0 < writeSize
    ensures |r| == |cells|
  {
    Programmed(if eraseFirst then Erased(cells, at, at + eraseSize) else cells, at, Padded(bytes, writeSize))
  }

  // The same for a run of whole blocks: overwritten after an erase, combined with the cells without.
  function Written(eraseFirst: bool, cells: seq<byte>, at: nat, data: seq<byte>): (r: seq<byte>)
    ensures |r| == |cells|
  {
    seq(|cells|, i requires 0 <= i < |cells| =>
      if at <= i < at + |data| then if eraseFirst then data[i - at] else cells[i] & data[i - at] else cells[i])
  }

  // A write that stopped anywhere: without erasing, the blocks lost some of the bits to lose.
  ghost predicate Unfinished(eraseFirst: bool, before: seq<byte>, at: nat, data: seq<byte>, after: seq<byte>) {
    if eraseFirst then SameOutside(before, after, at, at + |data|) else Torn(before, at, data, after)
  }

  lemma FlushedWholeBlock(eraseFirst: bool, cells: seq<byte>, at: nat, bytes: seq<byte>, eraseSize: nat, writeSize: nat)
    requires 0 < writeSize && |bytes| == eraseSize && |Padded(bytes, writeSize)| <= eraseSize
    ensures Flushed(eraseFirst, cells, at, bytes, eraseSize, writeSize) == Written(eraseFirst, cells, at, bytes)
  {
    assert Padded(bytes, writeSize) == bytes;
    var a := Flushed(eraseFirst, cells, at, bytes, eraseSize, writeSize);
    var b := Written(eraseFirst, cells, at, bytes);
    forall i | 0 <= i < |cells| ensures a[i] == b[i] {
    }
  }

  lemma WrittenInPieces(eraseFirst: bool, cells: seq<byte>, at: nat, data: seq<byte>, done: nat, n: nat)
    requires done + n <= |data|
    ensures Written(eraseFirst, Written(eraseFirst, cells, at, data[..done]), at + done, data[done..done + n])
         == Written(eraseFirst, cells, at, data[..done + n])
  {
  }

  lemma NothingWritten(eraseFirst: bool, cells: seq<byte>, at: nat, data: seq<byte>)
    ensures Written(eraseFirst, cells, at, data[..0]) == cells
  {
  }

  lemma MultipleBelow(x: nat, n: nat, m: nat)
    requires 0 < m && x % m == 0 && x <= n
    ensures x <= RoundDown(n, m)
  {
    var w := n / m * m;
    DivModUnique(w, m, n / m, 0);
    assert w == RoundDown(n, m);
    if w < x {
      DifferenceOfMultiples(x, w, m);
    }
  }

  // A failure in the block after `done` bytes leaves a write that stopped within the whole blocks.
  lemma StoppedInBlock(eraseFirst: bool, before: seq<byte>, at: nat, data: seq<byte>, done: nat, eraseSize: nat,
                       writeSize: nat, after: seq<byte>)
    requires 0 < eraseSize && 0 < writeSize && done % eraseSize == 0 && done + eraseSize <= |data|
    requires var mid := Written(eraseFirst, before, at, data[..done]);
      var chunk := data[done..done + eraseSize];
      && SameOutside(mid, after, at + done, at + done + eraseSize)
      && (after == mid ||
          (|Padded(chunk, writeSize)| == eraseSize &&
           (eraseFirst || Torn(mid, at + done, Padded(chunk, writeSize), after))))
    ensures Unfinished(eraseFirst, before, at, data[..RoundDown(|data|, eraseSize)], after)
  {
    hide *;
    var mid := Written(eraseFirst, before, at, data[..done]);
    var chunk := data[done..done + eraseSize];
    SumOfMultiples(done, eraseSize, eraseSize);
    MultipleBelow(done + eraseSize, |data|, eraseSize);
    var whole := data[..RoundDown(|data|, eraseSize)];
    assert whole[..done] == data[..done] && whole[done..done + eraseSize] == chunk;
    if after == mid {
      UntouchedIsTorn(mid, at + done, chunk);
    } else {
      var padded := Padded(chunk, writeSize);
      assert padded == padded[..|chunk|] == chunk;
    }
    StoppedAfter(eraseFirst, before, at, whole, done, eraseSize, after);
  }

  lemma StoppedAfter(eraseFirst: bool, before: seq<byte>, at: nat, data: seq<byte>, done: nat, n: nat, after: seq<byte>)
    requires done + n <= |data|
    requires var mid := Written(eraseFirst, before, at, data[..done]);
      SameOutside(mid, after, at + done, at + done + n) &&
          (eraseFirst || Torn(mid, at + done, data[done..done + n], after))
    ensures Unfinished(eraseFirst, before, at, data, after)
  {
    var mid := Written(eraseFirst, before, at, data[..done]);
    var chunk := data[done..done + n];
    if !eraseFirst {
      forall i | 0 <= i < |before| && at <= i < at + |data|
        ensures Covers(before[i], after[i]) && Covers(after[i], before[i] & data[i - at])
      {
        if at + done <= i < at + done + n {
          assert chunk[i - at - done] == data[i - at];
        } else {
          assert after[i] == mid[i];
        }
      }
    }
  }

  // What padding adds is zero, up to the next program unit.
  lemma PaddingIsZero(bytes: seq<byte>, writeSize: nat, i: nat)
    requires 0 < writeSize && |bytes| <= i
    ensures i < |Padded(bytes, writeSize)| <==> i - i % writeSize < |bytes|
    ensures i < |Padded(bytes, writeSize)| ==> Padded(bytes, writeSize)[i] == 0
  {
    PaddedLength(bytes, writeSize);
    UnitsReached(|bytes|, writeSize, i);
  }

  lemma ZerosFlushed(eraseFirst: bool, cells: seq<byte>, at: nat, bytes: seq<byte>, eraseSize: nat, writeSize: nat)
    requires 0 < writeSize && at + |Padded(bytes, writeSize)| <= |cells|
    ensures forall i :: |bytes| <= i && i - i % writeSize < |bytes| ==>
              at + i < |cells| && Flushed(eraseFirst, cells, at, bytes, eraseSize, writeSize)[at + i] == 0
  {
    forall i | |bytes| <= i && i - i % writeSize < |bytes|
      ensures at + i < |cells| && Flushed(eraseFirst, cells, at, bytes, eraseSize, writeSize)[at + i] == 0
    {
      PaddingIsZero(bytes, writeSize, i);
      hide Padded, Erased;
    }
  }

  // ---------------------------------------------------------------- the two erase modes

  predicate AllErased(cells: seq<byte>, from: nat, to: nat)
    requires to <= |cells|
  {
    forall i :: from <= i < to ==> cells[i] == ERASED
  }

  // One erase block that holds `bytes`: the data, zeros to the next program unit, then erased cells.
  function BlockImage(bytes: seq<byte>, eraseSize: nat, writeSize: nat): (r: seq<byte>)
    requires 0 < writeSize && |Padded(bytes, writeSize)| <= eraseSize
    ensures |r| == eraseSize
  {
    Padded(bytes, writeSize) + seq(eraseSize - |Padded(bytes, writeSize)|, _ => ERASED)
  }

  // Erasing the block first or finding it erased leaves the same block.
  lemma FlushedBlock(eraseFirst: bool, cells: seq<byte>, at: nat, bytes: seq<byte>, eraseSize: nat, writeSize: nat)
    requires 0 < writeSize && |Padded(bytes, writeSize)| <= eraseSize && at + eraseSize <= |cells|
    requires eraseFirst || AllErased(cells, at, at + eraseSize)
    ensures Flushed(eraseFirst, cells, at, bytes, eraseSize, writeSize)[at..at + eraseSize]
         == BlockImage(bytes, eraseSize, writeSize)
  {
    var a := Flushed(eraseFirst, cells, at, bytes, eraseSize, writeSize);
    var b := BlockImage(bytes, eraseSize, writeSize);
    hide Padded;
    forall i | 0 <= i < eraseSize ensures a[at + i] == b[i] {
    }
  }

  // Cells of a whole stream written block by block and finished, from its first byte on.
  function StreamWritten(eraseFirst: bool, cells: seq<byte>, at: nat, stream: seq<byte>, eraseSize: nat,
                         writeSize: nat): (r: seq<byte>)
    requires 0 < eraseSize && 0 < writeSize
    ensures |r| == |cells|
  {
    var whole := RoundDown(|stream|, eraseSize);
    var blocks := Written(eraseFirst, cells, at, stream[..whole]);
    if whole == |stream| then blocks else Flushed(eraseFirst, blocks, at + whole, stream[whole..], eraseSize, writeSize)
  }

  function StreamImage(stream: seq<byte>, eraseSize: nat, writeSize: nat): (r: seq<byte>)
    requires 0 < eraseSize && 0 < writeSize && eraseSize % writeSize == 0
  {
    var whole := RoundDown(|stream|, eraseSize);
    TailFits(stream[whole..], eraseSize, writeSize);
    if whole == |stream| then stream
    else stream[..whole] + BlockImage(stream[whole..], eraseSize, writeSize)
  }

  lemma TailFits(tail: seq<byte>, eraseSize: nat, writeSize: nat)
    requires 0 < eraseSize && 0 < writeSize && eraseSize % writeSize == 0 && |tail| <= eraseSize
    ensures |Padded(tail, writeSize)| <= eraseSize
  {
    PaddedLength(tail, writeSize);
    RoundedUp(|tail|, writeSize);
    if |Padded(tail, writeSize)| > eraseSize {
      DifferenceOfMultiples(|Padded(tail, writeSize)|, eraseSize, writeSize);
      assert false;
    }
  }

  // The image is the whole blocks and the image of the last partial one.
  lemma ImageSplits(stream: seq<byte>, whole: nat, eraseSize: nat, writeSize: nat)
    requires 0 < eraseSize && 0 < writeSize && eraseSize % writeSize == 0
    requires whole % eraseSize == 0 && whole <= |stream| < whole + eraseSize
    ensures RoundDown(|stream|, eraseSize) == whole
    ensures var tail := stream[whole..]; var image := StreamImage(stream, eraseSize, writeSize);
      && |Padded(tail, writeSize)| <= eraseSize
      && (tail == [] ==> image == stream)
      && (tail != [] ==> image == stream[..whole] + BlockImage(tail, eraseSize, writeSize))
  {
    hide Padded, BlockImage;
    DivModUnique(|stream|, eraseSize, whole / eraseSize, |stream| - whole);
    TailFits(stream[whole..], eraseSize, writeSize);
  }

  // Both modes leave the stream, its zero padding and erased cells: the pre-erased mode over a
  // region erased beforehand refines the mode that erases every block itself.
  lemma ModesLeaveTheSameImage(eraseFirst: bool, cells: seq<byte>, at: nat, stream: seq<byte>, eraseSize: nat,
                               writeSize: nat)
    requires 0 < eraseSize && 0 < writeSize && eraseSize % writeSize == 0
    requires at + |StreamImage(stream, eraseSize, writeSize)| <= |cells|
    requires eraseFirst || AllErased(cells, at, at + |StreamImage(stream, eraseSize, writeSize)|)
    ensures StreamWritten(eraseFirst, cells, at, stream, eraseSize,
                          writeSize)[at..at + |StreamImage(stream, eraseSize, writeSize)|]
         == StreamImage(stream, eraseSize, writeSize)
  {
    hide Padded, Flushed, BlockImage, Written, SameOutside, StreamImage, RoundDown;
    var whole := RoundDown(|stream|, eraseSize);
    RoundedDown(|stream|, eraseSize);
    ImageSplits(stream, whole, eraseSize, writeSize);
    var blocks := Written(eraseFirst, cells, at, stream[..whole]);
    var end := at + |StreamImage(stream, eraseSize, writeSize)|;
    WrittenBlocks(eraseFirst, cells, at, stream[..whole], end);
    if whole < |stream| {
      var tail := stream[whole..];
      var done := Flushed(eraseFirst, blocks, at + whole, tail, eraseSize, writeSize);
      FlushedBlock(eraseFirst, blocks, at + whole, tail, eraseSize, writeSize);
      FlushedOutside(eraseFirst, blocks, at + whole, tail, eraseSize, writeSize);
      JoinSlices(done, at, at + whole, end);
    }
  }

  lemma WrittenBlocks(eraseFirst: bool, cells: seq<byte>, at: nat, data: seq<byte>, end: nat)
    requires at + |data| <= end <= |cells| && (eraseFirst || AllErased(cells, at, end))
    ensures Written(eraseFirst, cells, at, data)[at..at + |data|] == data
    ensures eraseFirst || AllErased(Written(eraseFirst, cells, at, data), at + |data|, end)
  {
  }

  lemma FlushedOutside(eraseFirst: bool, cells: seq<byte>, at: nat, bytes: seq<byte>, eraseSize: nat, writeSize: nat)
    requires 0 < writeSize && |Padded(bytes, writeSize)| <= eraseSize
    ensures var after := Flushed(eraseFirst, cells, at, bytes, eraseSize, writeSize);
      forall from: nat | from <= at <= |cells| :: after[from..at] == cells[from..at]
  {
    hide Padded;
  }

  // ---------------------------------------------------------------- the storage

  class EspArtifactStorage {
    const flash: Chip
    const partitionOffset: nat
    const partitionSize: nat
    const scratch: array<byte>
    const eraseBeforeWrite: bool

    constructor (flash: Chip, partition: AppPartition, scratch: array<byte>, eraseBeforeWrite: bool)
      requires partition.Valid() && flash.eraseSize <= scratch.Length
      ensures this.flash == flash && this.scratch == scratch && this.eraseBeforeWrite == eraseBeforeWrite
      ensures partitionOffset == partition.offset && partitionSize == partition.size
    {
      this.flash, this.scratch, this.eraseBeforeWrite := flash, scratch, eraseBeforeWrite;
      partitionOffset, partitionSize := partition.offset, partition.size;
    }

    static method WithEraseMode(flash: Chip, partition: AppPartition, scratch: array<byte>, eraseBeforeWrite: bool)
      returns (r: Result<EspArtifactStorage, FlashWriteError>)
      requires partition.Valid()
      ensures r.Ok? <==> flash.eraseSize <= scratch.Length
      ensures r.Err? ==> r.error == ScratchTooSmall
      ensures r.Ok? ==> fresh(r.value) && r.value.flash == flash && r.value.scratch == scratch
      ensures r.Ok? ==> r.value.eraseBeforeWrite == eraseBeforeWrite
      ensures r.Ok? ==> r.value.partitionOffset == partition.offset && r.value.partitionSize == partition.size
    {
      if scratch.Length < flash.eraseSize {
        return Err(ScratchTooSmall);
      }
      var s := new EspArtifactStorage(flash, partition, scratch, eraseBeforeWrite);
      r := Ok(s);
    }

    ghost predicate Valid()
      reads flash
    {
      && flash.Valid() && partitionOffset < USIZE_RANGE && partitionSize < USIZE_RANGE
      && flash.eraseSize <= scratch.Length
    }

    // The block at `offset` is a whole erase block of the partition with room for the
    // padded data, at addresses that 32 bits can hold.
    ghost predicate Flushable(offset: nat, bytes: seq<byte>) {
      && 0 < flash.eraseSize && 0 < flash.writeSize
      && |bytes| <= flash.eraseSize && |Padded(bytes, flash.writeSize)| <= flash.eraseSize
      && offset % flash.eraseSize == 0 && offset + flash.eraseSize <= partitionSize
      && partitionOffset + offset + flash.eraseSize < USIZE_RANGE
    }

    // The partition is made of whole erase blocks of a chip with that many cells, each
    // of whole program units.
    ghost predicate OnWholeBlocks(capacity: nat) {
      && 0 < flash.eraseSize && 0 < flash.writeSize
      && partitionOffset % flash.eraseSize == 0 && partitionOffset + partitionSize <= capacity
      && flash.eraseSize % flash.writeSize == 0
    }

    // Aligned data inside such a partition.
    ghost predicate Accepts(durable: nat, len: nat, capacity: nat) {
      OnWholeBlocks(capacity) && durable % flash.eraseSize == 0 && durable + len <= partitionSize
    }

    method FlushBlock(logicalOffset: nat, bytes: seq<byte>) returns (r: Result<(), FlashWriteError>)
      requires Valid() && logicalOffset < U64_RANGE
      modifies flash, scratch
      ensures old(flash.faults) <= flash.faults
      ensures Valid() && |flash.cells| == |old(flash.cells)| &&
                (!eraseBeforeWrite ==> flash.erases == old(flash.erases))
      ensures r.Ok? ==> Flushable(logicalOffset, bytes) && flash.faults == old(flash.faults)
      ensures r.Ok? ==> partitionOffset + logicalOffset + |Padded(bytes, flash.writeSize)| <= |flash.cells|
      ensures r.Ok? ==>
                flash.cells == Flushed(eraseBeforeWrite, old(flash.cells), partitionOffset + logicalOffset, bytes,
                                       flash.eraseSize, flash.writeSize)
      // a block or data that does not fit is refused before the chip is touched
      ensures !Flushable(logicalOffset, bytes) ==>
                r.Err? && flash.cells == old(flash.cells) && flash.commands == old(flash.commands)
      ensures r == Err(Unaligned) <==>
                |bytes| <= flash.eraseSize && logicalOffset < USIZE_RANGE && logicalOffset % flash.eraseSize != 0
      ensures r == Err(ScratchTooSmall) <==>
                |bytes| <= flash.eraseSize < |Padded(bytes, flash.writeSize)| && logicalOffset % flash.eraseSize == 0 &&
                logicalOffset + flash.eraseSize <= partitionSize
      ensures r.Err? && (Flushable(logicalOffset, bytes) || |bytes| > flash.eraseSize) ==> r.error == Flash
      ensures r.Err? && Flushable(logicalOffset, bytes) && OnWholeBlocks(|flash.cells|) ==>
                old(flash.faults) < flash.faults
      // up to the next program unit the cells are zero
      ensures r.Ok? ==> forall i :: |bytes| <= i && i - i % flash.writeSize < |bytes| ==>
                partitionOffset + logicalOffset + i < |flash.cells| &&
                flash.cells[partitionOffset + logicalOffset + i] == 0
      // a failure stays inside the block
      ensures SameOutside(old(flash.cells), flash.cells,
                          partitionOffset + logicalOffset, partitionOffset + logicalOffset + flash.eraseSize)
      ensures !eraseBeforeWrite ==>
                Torn(old(flash.cells), partitionOffset + logicalOffset, Padded(bytes, flash.writeSize), flash.cells)
      ensures Confined(old(flash.commands), flash.commands,
                       partitionOffset + logicalOffset, partitionOffset + logicalOffset + flash.eraseSize)
      ensures Confined(old(flash.commands), flash.commands, partitionOffset, partitionOffset + partitionSize)
      ensures SameOutside(old(flash.cells), flash.cells, partitionOffset, partitionOffset + partitionSize)
    {
      hide Torn, Programmed, Erased, Padded, DivCeil;
      UntouchedIsTorn(flash.cells, partitionOffset + logicalOffset, Padded(bytes, flash.writeSize));
      UntouchedOutside(flash.cells, partitionOffset + logicalOffset, partitionOffset + logicalOffset + flash.eraseSize);
      if |bytes| > flash.eraseSize {
        return Err(Flash);
      }
      if logicalOffset >= USIZE_RANGE {
        return Err(AddressOverflow);
      }
      if logicalOffset % flash.eraseSize != 0 {
        return Err(Unaligned);
      }
      if logicalOffset + flash.eraseSize >= USIZE_RANGE {
        return Err(AddressOverflow);
      }
      if logicalOffset + flash.eraseSize > partitionSize {
        return Err(AddressOverflow);
      }
      var padded := DivCeil(|bytes|, flash.writeSize) * flash.writeSize;
      PaddedLength(bytes, flash.writeSize);
      if padded > flash.eraseSize || padded > scratch.Length {
        return Err(ScratchTooSmall);
      }
      FillScratch(bytes, padded);
      var absolute := partitionOffset + logicalOffset;
      if absolute + flash.eraseSize >= USIZE_RANGE {
        return Err(AddressOverflow);
      }
      AbsoluteAlignment(logicalOffset);
      var ok := CommitScratch(absolute, padded);
      if ok {
        ZerosFlushed(eraseBeforeWrite, old(flash.cells), absolute, bytes, flash.eraseSize, flash.writeSize);
      }
      r := if ok then Ok(()) else Err(Flash);
    }

    // A whole erase block of a chip with that many cells, made of whole program units.
    ghost predicate BlockOfChip(at: nat, capacity: nat)
      requires 0 < flash.eraseSize && 0 < flash.writeSize
    {
      at % flash.eraseSize == 0 && flash.eraseSize % flash.writeSize == 0 && at + flash.eraseSize <= capacity
    }

    lemma LegalCommands(at: nat, padded: nat)
      requires Valid() && padded <= flash.eraseSize && padded % flash.writeSize == 0
      ensures BlockOfChip(at, |flash.cells|) ==>
                flash.EraseFits(at, at + flash.eraseSize) && flash.ProgramFits(at, padded)
    {
      if BlockOfChip(at, |flash.cells|) {
        SumOfMultiples(at, flash.eraseSize, flash.eraseSize);
        MultipleOfMultiple(at, flash.eraseSize, flash.writeSize);
      }
    }

    // Erases the block at `at` if this storage does so, then programs the prepared bytes.
    method CommitScratch(at: nat, padded: nat) returns (ok: bool)
      requires Valid() && padded <= flash.eraseSize && padded % flash.writeSize == 0
      modifies flash
      ensures old(flash.faults) <= flash.faults
      ensures Valid() && |flash.cells| == |old(flash.cells)| &&
                (!eraseBeforeWrite ==> flash.erases == old(flash.erases))
      ensures ok ==> at + padded <= |flash.cells| && flash.faults == old(flash.faults)
      ensures ok ==> flash.cells == Programmed(
                if eraseBeforeWrite then Erased(old(flash.cells), at, at + flash.eraseSize) else old(flash.cells),
                at, scratch[..padded])
      ensures !eraseBeforeWrite ==> Torn(old(flash.cells), at, scratch[..padded], flash.cells)
      ensures SameOutside(old(flash.cells), flash.cells, at, at + flash.eraseSize)
      ensures Confined(old(flash.commands), flash.commands, at, at + flash.eraseSize)
      ensures BlockOfChip(at, |flash.cells|) ==> ok || old(flash.faults) < flash.faults
    {
      hide Torn, Programmed, Erased, BlockOfChip, SameOutside;
      LegalCommands(at, padded);
      if eraseBeforeWrite {
        var erased := flash.Erase(at, at + flash.eraseSize);
        if !erased {
          return false;
        }
      } else {
        UntouchedOutside(flash.cells, at, at + flash.eraseSize);
      }
      ghost var mid := flash.cells;
      ok := flash.Write(at, scratch[..padded]);
      BlockStaysConfined(old(flash.cells), mid, flash.cells, at, scratch[..padded], flash.eraseSize);
    }

    // Writes every whole block of the pending bytes, and only those.
    method Write(durable: nat, pending: seq<byte>) returns (r: Result<nat, FlashWriteError>)
      requires Valid() && durable + |pending| < U64_RANGE
      modifies flash, scratch
      ensures old(flash.faults) <= flash.faults
      ensures Valid() && |flash.cells| == |old(flash.cells)| &&
                (!eraseBeforeWrite ==> flash.erases == old(flash.erases))
      ensures r.Ok? ==> durable <= r.value <= durable + |pending| < r.value + flash.eraseSize
      ensures r.Ok? ==> (r.value - durable) % flash.eraseSize == 0
      ensures r.Ok? ==> flash.faults == old(flash.faults)
      ensures r.Ok? && durable < r.value ==>
                r.value <= partitionSize && durable % flash.eraseSize == 0 && partitionOffset + r.value <= |flash.cells|
      ensures r.Ok? ==>
                flash.cells == Written(eraseBeforeWrite, old(flash.cells), partitionOffset + durable,
                                       pending[..r.value - durable])
      // a failure may have changed the whole blocks of the pending bytes, never the bytes before or after
      ensures r.Err? ==> Unfinished(eraseBeforeWrite, old(flash.cells), partitionOffset + durable,
                                    pending[..RoundDown(|pending|, flash.eraseSize)], flash.cells)
      // commands stay inside the pending bytes and the partition
      ensures Confined(old(flash.commands), flash.commands, partitionOffset + durable,
                       partitionOffset + durable + |pending|)
      ensures Confined(old(flash.commands), flash.commands, partitionOffset, partitionOffset + partitionSize)
      ensures SameOutside(old(flash.cells), flash.cells, partitionOffset, partitionOffset + partitionSize)
      // aligned data inside a partition of whole blocks fails only through the hardware
      ensures r.Err? && Accepts(durable, |pending|, |flash.cells|) ==> old(flash.faults) < flash.faults
    {
      hide Written, Flushed, Unfinished, Padded, RoundDown, Torn, SameOutside, Accepts, Flushable, OnWholeBlocks,
          Confined;
      var consumed := 0;
      NothingWritten(eraseBeforeWrite, flash.cells, partitionOffset + durable, pending);
      UntouchedOutside(flash.cells, partitionOffset, partitionOffset + partitionSize);
      NoCommandsConfined(flash.commands, partitionOffset, partitionOffset + partitionSize);
      NoCommandsConfined(flash.commands, partitionOffset + durable, partitionOffset + durable + |pending|);
      while |pending| - consumed >= flash.eraseSize
        invariant Valid() && |flash.cells| == |old(flash.cells)| && consumed <= |pending| &&
                  consumed % flash.eraseSize == 0
        invariant !eraseBeforeWrite ==> flash.erases == old(flash.erases)
        invariant flash.faults == old(flash.faults)
        invariant 0 < consumed ==>
          durable + consumed <= partitionSize && durable % flash.eraseSize == 0 &&
              partitionOffset + durable + consumed <= |flash.cells|
        invariant flash.cells
                  == Written(eraseBeforeWrite, old(flash.cells), partitionOffset + durable, pending[..consumed])
        invariant SameOutside(old(flash.cells), flash.cells, partitionOffset, partitionOffset + partitionSize)
        invariant Confined(old(flash.commands), flash.commands, partitionOffset, partitionOffset + partitionSize)
        invariant Confined(old(flash.commands), flash.commands, partitionOffset + durable,
                           partitionOffset + durable + |pending|)
      {
        var end := consumed + flash.eraseSize;
        var block := pending[consumed..end];
        ghost var mid, log := flash.cells, flash.commands;
        BlockStep(durable, consumed, |pending|, block);
        var flushed := FlushBlock(durable + consumed, block);
        OutsideThenOutside(old(flash.cells), mid, flash.cells, partitionOffset, partitionOffset + partitionSize);
        BlockLogged(old(flash.commands), log, flash.commands, partitionOffset, partitionSize, durable, |pending|,
                    consumed, end);
        if flushed.Err? {
          StoppedInBlock(eraseBeforeWrite, old(flash.cells), partitionOffset + durable, pending, consumed,
                         flash.eraseSize, flash.writeSize, flash.cells);
          return Err(flushed.error);
        }
        FlushedWholeBlock(eraseBeforeWrite, mid, partitionOffset + durable + consumed, block, flash.eraseSize,
                          flash.writeSize);
        WrittenInPieces(eraseBeforeWrite, old(flash.cells), partitionOffset + durable, pending, consumed,
                        flash.eraseSize);
        consumed := end;
      }
      r := Ok(durable + consumed);
    }

    // Writes what is left when it is less than a block; `pending` is what `Write` did not consume.
    method Finish(durable: nat, pending: seq<byte>) returns (r: Result<nat, FlashWriteError>)
      requires Valid() && durable + |pending| < U64_RANGE
      modifies flash, scratch
      ensures old(flash.faults) <= flash.faults
      ensures Valid() && |flash.cells| == |old(flash.cells)| &&
                (!eraseBeforeWrite ==> flash.erases == old(flash.erases))
      ensures r.Ok? ==>
                r.value == durable + |pending| && |pending| < flash.eraseSize && flash.faults == old(flash.faults)
      ensures |pending| >= flash.eraseSize ==> r == Err(Flash) && flash.cells == old(flash.cells)
      ensures pending == [] ==> r.Ok? && flash.cells == old(flash.cells) && flash.commands == old(flash.commands)
      ensures r.Ok? && pending != [] ==>
        && durable % flash.eraseSize == 0 && durable + flash.eraseSize <= partitionSize
        && |Padded(pending, flash.writeSize)| <= flash.eraseSize
        && partitionOffset + durable + |Padded(pending, flash.writeSize)| <= |flash.cells|
        && flash.cells == Flushed(eraseBeforeWrite, old(flash.cells), partitionOffset + durable, pending,
                                  flash.eraseSize, flash.writeSize)
      ensures SameOutside(old(flash.cells), flash.cells,
                          partitionOffset + durable, partitionOffset + durable + flash.eraseSize)
      ensures Confined(old(flash.commands), flash.commands,
                       partitionOffset + durable, partitionOffset + durable + flash.eraseSize)
      ensures Confined(old(flash.commands), flash.commands, partitionOffset, partitionOffset + partitionSize)
      ensures SameOutside(old(flash.cells), flash.cells, partitionOffset, partitionOffset + partitionSize)
      ensures r.Err? && |pending| < flash.eraseSize && Accepts(durable, flash.eraseSize, |flash.cells|) ==>
                old(flash.faults) < flash.faults
    {
      hide Flushed, Padded, Torn, SameOutside;
      UntouchedOutside(flash.cells, partitionOffset, partitionOffset + partitionSize);
      if pending == [] {
        UntouchedOutside(flash.cells, partitionOffset + durable, partitionOffset + durable + flash.eraseSize);
        return Ok(durable);
      }
      if |pending| >= flash.eraseSize {
        UntouchedOutside(flash.cells, partitionOffset + durable, partitionOffset + durable + flash.eraseSize);
        return Err(Flash);
      }
      PaddedFits(pending);
      var flushed := FlushBlock(durable, pending);
      if flushed.Err? {
        return Err(flushed.error);
      }
      r := Ok(durable + |pending|);
    }

    lemma PaddedFits(pending: seq<byte>)
      requires Valid() && |pending| <= flash.eraseSize
      ensures OnWholeBlocks(|flash.cells|) ==> |Padded(pending, flash.writeSize)| <= flash.eraseSize
    {
      PaddedLength(pending, flash.writeSize);
      RoundedUp(|pending|, flash.writeSize);
      if OnWholeBlocks(|flash.cells|) && |Padded(pending, flash.writeSize)| > flash.eraseSize {
        DifferenceOfMultiples(|Padded(pending, flash.writeSize)|, flash.eraseSize, flash.writeSize);
        assert false;
      }
    }

    // A whole block can be flushed where aligned data lies inside the partition, and only there.
    lemma BlockStep(durable: nat, consumed: nat, len: nat, block: seq<byte>)
      requires Valid() && |block| == flash.eraseSize && consumed + flash.eraseSize <= len &&
               consumed % flash.eraseSize == 0
      ensures (consumed + flash.eraseSize) % flash.eraseSize == 0
      ensures Flushable(durable + consumed, block) ==>
        && durable % flash.eraseSize == 0 && durable + consumed + flash.eraseSize <= partitionSize
        && |Padded(block, flash.writeSize)| == flash.eraseSize
      ensures Accepts(durable, len, |flash.cells|) ==>
                OnWholeBlocks(|flash.cells|) && Flushable(durable + consumed, block)
    {
      hide Padded;
      SumOfMultiples(consumed, flash.eraseSize, flash.eraseSize);
      PaddedLength(block, flash.writeSize);
      RoundedUp(flash.eraseSize, flash.writeSize);
      if Flushable(durable + consumed, block) {
        DifferenceOfMultiples(durable + consumed, consumed, flash.eraseSize);
      }
      if durable % flash.eraseSize == 0 {
        SumOfMultiples(durable, consumed, flash.eraseSize);
      }
    }

    method FillScratch(bytes: seq<byte>, padded: nat)
      requires Valid() && padded <= scratch.Length && padded == DivCeil(|bytes|, flash.writeSize) * flash.writeSize
      modifies scratch
      ensures scratch[..padded] == Padded(bytes, flash.writeSize)
    {
      RoundedUp(|bytes|, flash.writeSize);
      forall k | 0 <= k < |bytes| {
        scratch[k] := bytes[k];
      }
      forall k | |bytes| <= k < padded {
        scratch[k] := 0;
      }
    }

    // Blocks of an aligned partition are aligned on the chip.
    lemma AbsoluteAlignment(offset: nat)
      requires Valid() && offset % flash.eraseSize == 0
      ensures partitionOffset % flash.eraseSize == 0 ==> (partitionOffset + offset) % flash.eraseSize == 0
    {
      if partitionOffset % flash.eraseSize == 0 {
        SumOfMultiples(partitionOffset, offset, flash.eraseSize);
      }
    }
  }

  lemma PaddedLength(bytes: seq<byte>, writeSize: nat)
    requires 0 < writeSize
    ensures |Padded(bytes, writeSize)| == DivCeil(|bytes|, writeSize) * writeSize
    ensures |Padded(bytes, writeSize)| % writeSize == 0
  {
    RoundedUp(|bytes|, writeSize);
  }

  // Commands on one more block of the pending bytes, inside the partition like those before.
  lemma BlockLogged(a: seq<Command>, b: seq<Command>, c: seq<Command>, offset: nat, size: nat, durable: nat, len: nat,
                    consumed: nat, end: nat)
    requires Confined(a, b, offset, offset + size) && Confined(b, c, offset, offset + size)
    requires Confined(a, b, offset + durable, offset + durable + len) && end <= len
    requires Confined(b, c, offset + durable + consumed, offset + durable + end)
    ensures Confined(a, c, offset, offset + size) && Confined(a, c, offset + durable, offset + durable + len)
  {
    ConfinedWider(b, c, offset + durable + consumed, offset + durable + end, offset + durable, offset + durable + len);
    hide Within;
  }

  lemma BlockStaysConfined(before: seq<byte>, mid: seq<byte>, after: seq<byte>, at: nat, data: seq<byte>,
                           eraseSize: nat)
    requires SameOutside(before, mid, at, at + eraseSize) && Torn(mid, at, data, after) && |data| <= eraseSize
    ensures SameOutside(before, after, at, at + eraseSize)
  {
  }
}
