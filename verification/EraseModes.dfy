/** The two ways to store a stream of bytes in a partition: erasing every block as it is written, or
    writing into cells erased ahead (adapters/ota/src/lib.rs). */
module EraseModes {
  import opened Machine
  import opened FlashChip
  import opened ArtifactStorage
  import Partitions

  function Flat(chunks: seq<seq<byte>>): seq<byte> {
    if chunks == [] then [] else Flat(chunks[..|chunks| - 1]) + chunks[|chunks| - 1]
  }

  lemma {:induction false} FrontIsNoLonger(chunks: seq<seq<byte>>, n: nat)
    requires n <= |chunks|
    ensures |Flat(chunks[..n])| <= |Flat(chunks)|
    decreases |chunks|
  {
    if n == |chunks| {
      assert chunks[..n] == chunks;
    } else {
      var front := chunks[..|chunks| - 1];
      FrontIsNoLonger(front, n);
      assert front[..n] == chunks[..n];
    }
  }

  lemma OneMoreChunk(chunks: seq<seq<byte>>, n: nat)
    requires n < |chunks|
    ensures Flat(chunks[..n + 1]) == Flat(chunks[..n]) + chunks[n]
  {
    assert chunks[..n + 1][..n] == chunks[..n];
  }

  // The partition has room for that many bytes in whole blocks of the chip.
  ghost predicate HasRoom(storage: EspArtifactStorage, len: nat)
    reads storage.flash
  {
    && storage.OnWholeBlocks(|storage.flash.cells|)
    && storage.partitionSize % storage.flash.eraseSize == 0 && len <= storage.partitionSize
  }

  lemma RoomForWrite(storage: EspArtifactStorage, durable: nat, received: nat, len: nat)
    requires HasRoom(storage, len) && durable <= received <= len && durable % storage.flash.eraseSize == 0
    ensures storage.Accepts(durable, received - durable, |storage.flash.cells|)
    ensures durable < received ==> storage.Accepts(durable, storage.flash.eraseSize, |storage.flash.cells|)
  {
    DifferenceOfMultiples(storage.partitionSize, durable, storage.flash.eraseSize);
  }

  // What one write makes of the blocks stored so far.
  lemma BlocksGrow(eraseFirst: bool, cells: seq<byte>, at: nat, stream: seq<byte>, chunk: seq<byte>, durable: nat,
                   durable': nat)
    requires durable <= |stream| && durable <= durable' <= |stream + chunk|
    ensures var pending := stream[durable..] + chunk; var all := stream + chunk;
      && pending == all[durable..] && pending[durable' - durable..] == all[durable'..]
      && Written(eraseFirst, Written(eraseFirst, cells, at, stream[..durable]), at + durable,
                 pending[..durable' - durable])
         == Written(eraseFirst, cells, at, all[..durable'])
  {
    hide Written;
    var pending, all := stream[durable..] + chunk, stream + chunk;
    assert all[..durable] == stream[..durable];
    assert pending == all[durable..];
    assert pending[..durable' - durable] == all[durable..durable'];
    WrittenInPieces(eraseFirst, cells, at, all, durable, durable' - durable);
  }

  // Between two chunks: whole blocks are stored, and less than a block is pending.
  ghost predicate Storing(eraseFirst: bool, before: seq<byte>, at: nat, stream: seq<byte>, durable: nat,
                          pending: seq<byte>, eraseSize: nat, cells: seq<byte>)
    requires 0 < eraseSize
  {
    && durable % eraseSize == 0 && durable <= |stream| < durable + eraseSize && pending == stream[durable..]
    && cells == Written(eraseFirst, before, at, stream[..durable])
  }

  lemma NothingStored(eraseFirst: bool, before: seq<byte>, at: nat, eraseSize: nat)
    requires 0 < eraseSize
    ensures Storing(eraseFirst, before, at, [], 0, [], eraseSize, before)
  {
    NothingWritten(eraseFirst, before, at, []);
  }

  lemma MoreStored(eraseFirst: bool, before: seq<byte>, at: nat, stream: seq<byte>, durable: nat, pending: seq<byte>,
                   eraseSize: nat, cells: seq<byte>, chunk: seq<byte>, durable': nat)
    requires 0 < eraseSize && Storing(eraseFirst, before, at, stream, durable, pending, eraseSize, cells)
    requires durable <= durable' <= |stream + chunk| < durable' + eraseSize && (durable' - durable) % eraseSize == 0
    ensures durable' - durable <= |pending + chunk|
    ensures Storing(eraseFirst, before, at, stream + chunk, durable', (pending + chunk)[durable' - durable..],
                    eraseSize, Written(eraseFirst, cells, at + durable, (pending + chunk)[..durable' - durable]))
  {
    hide Written;
    BlocksGrow(eraseFirst, before, at, stream, chunk, durable, durable');
    SumOfMultiples(durable, durable' - durable, eraseSize);
  }

  // Writes one more chunk; what is less than a block stays pending.
  method StoreChunk(storage: EspArtifactStorage, durable: nat, pending: seq<byte>, chunk: seq<byte>,
                    ghost before: seq<byte>, ghost stream: seq<byte>, ghost limit: nat)
    returns (r: Result<nat, FlashWriteError>, left: seq<byte>)
    requires storage.Valid() && |stream + chunk| <= limit < U64_RANGE && |before| == |storage.flash.cells|
    requires Storing(storage.eraseBeforeWrite, before, storage.partitionOffset, stream, durable, pending,
                     storage.flash.eraseSize, storage.flash.cells)
    modifies storage.flash, storage.scratch
    ensures old(storage.flash.faults) <= storage.flash.faults
    ensures r.Ok? ==> storage.flash.faults == old(storage.flash.faults)
    ensures storage.Valid() && |storage.flash.cells| == |before|
    ensures r.Ok? ==>
      Storing(storage.eraseBeforeWrite, before, storage.partitionOffset, stream + chunk, r.value, left,
              storage.flash.eraseSize, storage.flash.cells)
    ensures old(HasRoom(storage, limit)) ==>
              HasRoom(storage, limit) && (r.Ok? || old(storage.flash.faults) < storage.flash.faults)
    ensures SameOutside(old(storage.flash.cells), storage.flash.cells,
                        storage.partitionOffset, storage.partitionOffset + storage.partitionSize)
  {
    hide Written, Unfinished, SameOutside, Confined, RoundDown;
    if HasRoom(storage, limit) {
      RoomForWrite(storage, durable, |stream + chunk|, limit);
    }
    r := storage.Write(durable, pending + chunk);
    left := [];
    if r.Ok? {
      MoreStored(storage.eraseBeforeWrite, before, storage.partitionOffset, stream, durable, pending,
                 storage.flash.eraseSize, old(storage.flash.cells), chunk, r.value);
      left := (pending + chunk)[r.value - durable..];
    }
  }

  // Stores a stream that arrives in chunks of any sizes, as an upload session does: what a write
  // leaves over is pending until more arrives, and the last of it is finished.
  method StoreStream(storage: EspArtifactStorage, chunks: seq<seq<byte>>) returns (r: Result<nat, FlashWriteError>)
    requires storage.Valid() && |Flat(chunks)| < U64_RANGE
    modifies storage.flash, storage.scratch
    ensures old(storage.flash.faults) <= storage.flash.faults
    ensures r.Ok? ==> storage.flash.faults == old(storage.flash.faults)
    ensures storage.Valid() && |storage.flash.cells| == |old(storage.flash.cells)|
    ensures r.Ok? ==> r.value == |Flat(chunks)|
    ensures r.Ok? ==>
      storage.flash.cells == StreamWritten(storage.eraseBeforeWrite, old(storage.flash.cells), storage.partitionOffset,
                                           Flat(chunks), storage.flash.eraseSize, storage.flash.writeSize)
    ensures r.Err? && old(HasRoom(storage, |Flat(chunks)|)) ==> old(storage.flash.faults) < storage.flash.faults
    ensures SameOutside(old(storage.flash.cells), storage.flash.cells,
                        storage.partitionOffset, storage.partitionOffset + storage.partitionSize)
  {
    hide Written, Flushed, SameOutside, Confined, Padded, HasRoom, RoundDown, Storing, StreamWritten;
    ghost var before, eraseFirst, at := storage.flash.cells, storage.eraseBeforeWrite, storage.partitionOffset;
    var durable: nat, pending: seq<byte> := 0, [];
    NothingStored(eraseFirst, before, at, storage.flash.eraseSize);
    UntouchedOutside(before, at, at + storage.partitionSize);
    for n := 0 to |chunks|
      invariant storage.flash.faults == old(storage.flash.faults)
      invariant storage.Valid() && |storage.flash.cells| == |before|
      invariant Storing(eraseFirst, before, at, Flat(chunks[..n]), durable, pending, storage.flash.eraseSize,
                        storage.flash.cells)
      invariant old(HasRoom(storage, |Flat(chunks)|)) ==> HasRoom(storage, |Flat(chunks)|)
      invariant SameOutside(before, storage.flash.cells, at, at + storage.partitionSize)
    {
      OneMoreChunk(chunks, n);
      FrontIsNoLonger(chunks, n + 1);
      ghost var mid := storage.flash.cells;
      var written, left := StoreChunk(storage, durable, pending, chunks[n], before, Flat(chunks[..n]), |Flat(chunks)|);
      OutsideThenOutside(before, mid, storage.flash.cells, at, at + storage.partitionSize);
      if written.Err? {
        return Err(written.error);
      }
      durable, pending := written.value, left;
    }
    assert chunks[..|chunks|] == chunks;
    ghost var mid := storage.flash.cells;
    r := FinishStream(storage, durable, pending, before, Flat(chunks));
    OutsideThenOutside(before, mid, storage.flash.cells, at, at + storage.partitionSize);
  }

  method FinishStream(storage: EspArtifactStorage, durable: nat, pending: seq<byte>, ghost before: seq<byte>,
                      ghost stream: seq<byte>)
    returns (r: Result<nat, FlashWriteError>)
    requires storage.Valid() && |stream| < U64_RANGE && |before| == |storage.flash.cells|
    requires Storing(storage.eraseBeforeWrite, before, storage.partitionOffset, stream, durable, pending,
                     storage.flash.eraseSize, storage.flash.cells)
    modifies storage.flash, storage.scratch
    ensures old(storage.flash.faults) <= storage.flash.faults
    ensures r.Ok? ==> storage.flash.faults == old(storage.flash.faults)
    ensures storage.Valid() && |storage.flash.cells| == |before|
    ensures r.Ok? ==> r.value == |stream|
    ensures r.Ok? ==>
      storage.flash.cells == StreamWritten(storage.eraseBeforeWrite, before, storage.partitionOffset, stream,
                                           storage.flash.eraseSize, storage.flash.writeSize)
    ensures old(HasRoom(storage, |stream|)) ==> r.Ok? || old(storage.flash.faults) < storage.flash.faults
    ensures SameOutside(old(storage.flash.cells), storage.flash.cells,
                        storage.partitionOffset, storage.partitionOffset + storage.partitionSize)
  {
    hide Written, Flushed, SameOutside, Confined, Padded, RoundDown, StreamWritten;
    if HasRoom(storage, |stream|) {
      RoomForWrite(storage, durable, |stream|, |stream|);
    }
    StreamIsWritten(storage.eraseBeforeWrite, before, storage.partitionOffset, stream, durable, storage.flash.eraseSize,
                    storage.flash.writeSize);
    r := storage.Finish(durable, pending);
  }

  lemma StreamIsWritten(eraseFirst: bool, cells: seq<byte>, at: nat, stream: seq<byte>, durable: nat, eraseSize: nat,
                        writeSize: nat)
    requires 0 < eraseSize && 0 < writeSize && durable % eraseSize == 0 && durable <= |stream| < durable + eraseSize
    ensures var blocks := Written(eraseFirst, cells, at, stream[..durable]);
      StreamWritten(eraseFirst, cells, at, stream, eraseSize, writeSize) ==
        if stream[durable..] == [] then blocks
            else Flushed(eraseFirst, blocks, at + durable, stream[durable..], eraseSize, writeSize)
  {
    hide Written, Flushed;
    DivModUnique(|stream|, eraseSize, durable / eraseSize, |stream| - durable);
  }

  // Erasing ahead and then writing without erasing leaves the partition as erasing block by block does,
  // whatever either held before and however the same stream is cut into chunks.
  method ModesAgree(eraser: EspArtifactStorage, ahead: EspArtifactStorage, chunks: seq<seq<byte>>,
                    others: seq<seq<byte>>, to: nat)
    returns (viaBlocks: bool, viaAhead: bool)
    requires eraser.Valid() && ahead.Valid() && eraser.eraseBeforeWrite && !ahead.eraseBeforeWrite
    requires eraser.flash != ahead.flash && eraser.scratch != ahead.scratch
    requires eraser.flash.eraseSize == ahead.flash.eraseSize && eraser.flash.writeSize == ahead.flash.writeSize
    requires eraser.flash.eraseSize % eraser.flash.writeSize == 0
    requires Flat(chunks) == Flat(others) && |Flat(chunks)| <= to < U64_RANGE && to % ahead.flash.eraseSize == 0
    requires ahead.partitionOffset + to <= |ahead.flash.cells| && eraser.partitionOffset + to <= |eraser.flash.cells|
    modifies eraser.flash, eraser.scratch, ahead.flash, ahead.scratch
    ensures |eraser.flash.cells| == |old(eraser.flash.cells)| && |ahead.flash.cells| == |old(ahead.flash.cells)|
    ensures var image := StreamImage(Flat(chunks), eraser.flash.eraseSize, eraser.flash.writeSize);
      && |image| <= to
      && (viaBlocks ==> eraser.flash.cells[eraser.partitionOffset..eraser.partitionOffset + |image|] == image)
      && (viaAhead ==> ahead.flash.cells[ahead.partitionOffset..ahead.partitionOffset + |image|] == image)
    // either fails only through the hardware where the partition has room
    ensures old(HasRoom(eraser, to)) ==> viaBlocks || old(eraser.flash.faults) < eraser.flash.faults
    ensures old(HasRoom(ahead, to)) ==> viaAhead || old(ahead.flash.faults) < ahead.flash.faults
  {
    hide StreamWritten, StreamImage, Erased, SameOutside, Confined, OnlyErases, AllErased;
    var e, w := eraser.flash.eraseSize, eraser.flash.writeSize;
    ghost var stream := Flat(chunks);
    ImageFits(stream, to, e, w);
    var stored := StoreStream(eraser, chunks);
    viaBlocks := stored.Ok?;
    if viaBlocks {
      ModesLeaveTheSameImage(true, old(eraser.flash.cells), eraser.partitionOffset, stream, e, w);
    }
    viaAhead := false;
    var part := Partitions.PartitionRange(ahead.partitionOffset, ahead.partitionSize);
    var erased := Partitions.EraseRange(ahead.flash, part, 0, to);
    LengthKept(old(ahead.flash.cells), ahead.flash.cells, ahead.partitionOffset, ahead.partitionOffset + to);
    if erased.Ok? {
      ghost var cleared := ahead.flash.cells;
      ErasedAhead(old(ahead.flash.cells), ahead.partitionOffset, to, |StreamImage(stream, e, w)|);
      var kept := StoreStream(ahead, others);
      viaAhead := kept.Ok?;
      if viaAhead {
        ModesLeaveTheSameImage(false, cleared, ahead.partitionOffset, stream, e, w);
      }
    }
  }

  lemma ErasedAhead(cells: seq<byte>, at: nat, to: nat, n: nat)
    requires n <= to && at + to <= |cells|
    ensures AllErased(Erased(cells, at, at + to), at, at + n)
  {
  }

  // The image of a stream ends on the block boundary that covers it at the latest.
  lemma ImageFits(stream: seq<byte>, to: nat, eraseSize: nat, writeSize: nat)
    requires 0 < eraseSize && 0 < writeSize && eraseSize % writeSize == 0 && |stream| <= to && to % eraseSize == 0
    ensures |StreamImage(stream, eraseSize, writeSize)| <= to
  {
    var whole := RoundDown(|stream|, eraseSize);
    RoundedDown(|stream|, eraseSize);
    hide RoundDown, StreamImage, BlockImage, Padded;
    ImageSplits(stream, whole, eraseSize, writeSize);
    DifferenceOfMultiples(to, whole, eraseSize);
  }
}
