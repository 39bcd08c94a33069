/** Upload of one firmware artifact into cells that whole batches of erases clear beforehand
    (adapters/ota/src/shared_flash.rs). */
module ArtifactWriters {
  import opened Machine
  import opened FlashChip
  import opened ArtifactStorage
  import opened UploadState
  import opened WriteSessions
  import Partitions

  function SaturatingMul64(a: nat, b: nat): nat {
    Min(a * b, U64_RANGE - 1)
  }

  // How far the partition must be erased before `end` bytes can be programmed.
  function DesiredErased(end: nat, size: nat): nat {
    Min(SaturatingMul64(DivCeil(end, ERASE_BATCH), ERASE_BATCH), size)
  }

  lemma DesiredCoversEnd(end: nat, size: nat)
    requires end < U64_RANGE && size < USIZE_RANGE
    ensures Min(end, size) <= DesiredErased(end, size) <= size
    ensures DesiredErased(end, size) == size || DesiredErased(end, size) % ERASE_BATCH == 0
    ensures DesiredErased(end, size) < end + 65536
  {
  }

  // Where the received bytes that fit are covered, nothing more is wanted.
  lemma NothingMoreDesired(end: nat, size: nat, erased: nat)
    requires end < U64_RANGE && size < USIZE_RANGE
    requires Min(end, size) <= erased <= size && (erased == size || erased % ERASE_BATCH == 0)
    ensures DesiredErased(end, size) <= erased
  {
    RoundedUp(end, ERASE_BATCH);
    if end <= erased < size {
      assert DivCeil(end, ERASE_BATCH) <= erased / ERASE_BATCH;
    }
  }

  // Received bytes stay within the erased part exactly as long as they fit the partition.
  lemma ReceivedWithinErased(view: seq<byte>, size: nat, stream: seq<byte>, durable: nat, erased: nat, eraseSize: nat)
    requires 0 < eraseSize && Upload(view, size, stream, durable, erased, eraseSize)
    ensures |stream| <= erased <==> |stream| <= size
  {
  }

  // The ranges lie end to end from `lo` to `hi`, in order and without overlap.
  ghost predicate Tiles(ranges: seq<Range>, lo: nat, hi: nat) {
    if ranges == [] then lo == hi
    else
      var last := ranges[|ranges| - 1];
      last.from < last.to == hi && Tiles(ranges[..|ranges| - 1], lo, last.from)
  }

  // One more erase, of [from, to), or none when that range is empty.
  ghost predicate AddedErase(before: seq<Range>, after: seq<Range>, from: nat, to: nat) {
    after == if from < to then before + [Range(from, to)] else before
  }

  lemma NothingAdded(log: seq<Range>, at: nat)
    ensures AddedErase(log, log, at, at)
  {
  }

  lemma TileOneMore(ranges: seq<Range>, lo: nat, mid: nat, hi: nat)
    requires Tiles(ranges, lo, mid) && mid < hi
    ensures Tiles(ranges + [Range(mid, hi)], lo, hi)
  {
    assert (ranges + [Range(mid, hi)])[..|ranges|] == ranges;
  }

  // Ranges that lie end to end are disjoint: one that comes earlier ends before a later one starts.
  lemma {:induction false} TilesAreDisjoint(ranges: seq<Range>, lo: nat, hi: nat, i: nat, j: nat)
    requires Tiles(ranges, lo, hi) && i < j < |ranges|
    ensures lo <= ranges[i].from < ranges[i].to <= ranges[j].from < ranges[j].to <= hi
  {
    var front := ranges[..|ranges| - 1];
    if j < |ranges| - 1 {
      TilesAreDisjoint(front, lo, ranges[|ranges| - 1].from, i, j);
    } else {
      TileWithin(front, lo, ranges[j].from, i);
    }
  }

  lemma {:induction false} TileWithin(ranges: seq<Range>, lo: nat, hi: nat, i: nat)
    requires Tiles(ranges, lo, hi) && i < |ranges|
    ensures lo <= ranges[i].from < ranges[i].to <= hi
  {
    var front := ranges[..|ranges| - 1];
    if front == [] {
    } else if i < |ranges| - 1 {
      TileWithin(front, lo, ranges[|ranges| - 1].from, i);
    } else {
      TileWithin(front, lo, ranges[i].from, 0);
    }
  }

  // ---------------------------------------------------------------- one append, on values

  ghost predicate ErasedBetween(view: seq<byte>, from: nat, to: nat) {
    from <= to <= |view| && AllErased(view, from, to)
  }

  // Whether the cells between the two watermarks are sure to be erased depends on the pending bytes
  // alone: exactly when every byte of their whole blocks is 0xFF, so always when less than a block
  // is pending. Otherwise a failed write may have reached one.
  lemma ErasedIffNothingAttempted(view: seq<byte>, size: nat, stream: seq<byte>, durable: nat, erased: nat,
                                  eraseSize: nat)
    requires 0 < eraseSize && Upload(view, size, stream, durable, erased, eraseSize)
    ensures (forall v | |v| == |view| &&
             Upload(v, size, stream, durable, erased, eraseSize) :: ErasedBetween(v, durable, erased))
       <==> AllErased(stream, durable, Min(Attempted(|stream|, durable, eraseSize), erased))
    ensures |stream| < durable + eraseSize ==> Attempted(|stream|, durable, eraseSize) == durable
  {
    hide Upload, Attempted, Stored, Covers;
    UploadFacts(view, size, stream, durable, erased, eraseSize);
    var attempted := Attempted(|stream|, durable, eraseSize);
    if |stream| < durable + eraseSize {
      NothingAttempted(|stream|, durable, eraseSize);
    }
    if AllErased(stream, durable, Min(attempted, erased)) {
      forall v | |v| == |view| && Upload(v, size, stream, durable, erased, eraseSize)
        ensures ErasedBetween(v, durable, erased) {
        UploadFacts(v, size, stream, durable, erased, eraseSize);
        StoredErased(v, stream, durable, attempted, erased);
      }
    } else {
      var i :| durable <= i < Min(attempted, erased) && stream[i] != ERASED;
      ReachedByte(view, size, stream, durable, erased, eraseSize, i);
      var v := view[i := stream[i]];
      assert v[i] != ERASED;
      assert !ErasedBetween(v, durable, erased);
    }
  }

  // A failed append reaches such a state: the blocks before byte `i` are written, the program of its
  // block is cut with that byte complete, and nothing follows.
  lemma FailedAppendMayLeaveBytes(before: seq<byte>, part: AppPartition, stream: seq<byte>, durable: nat, erased: nat,
                                  eraseSize: nat, i: nat) returns (after: seq<byte>)
    requires 0 < eraseSize && durable <= |stream| && ErasedBetween(View(before, part), durable, erased)
    requires durable <= i < Attempted(|stream|, durable, eraseSize) && i < erased && stream[i] != ERASED
    ensures var written := stream[durable..Attempted(i, durable, eraseSize)];
      part.offset + i < |before| &&
      after == Written(false, before, part.offset + durable, written)[part.offset + i := stream[i]]
    ensures AppendOutcome(false, before, after, part.offset, stream, durable, durable, eraseSize)
    ensures !ErasedBetween(View(after, part), durable, erased)
  {
    hide View, RoundDown, Torn, Written;
    var attempted, block := Attempted(|stream|, durable, eraseSize), Attempted(i, durable, eraseSize);
    var data := stream[durable..attempted];
    assert data[..block - durable] == stream[durable..block] && data[i - durable] == stream[i];
    ErasedByte(before, part, durable, erased, i);
    after := Written(false, before, part.offset + durable, data[..block - durable])[part.offset + i := stream[i]];
    OneByteLeft(before, part.offset + durable, data, block - durable, i - durable);
    NotErased(after, part, durable, erased, i);
  }

  lemma ErasedByte(cells: seq<byte>, part: AppPartition, durable: nat, erased: nat, i: nat)
    requires ErasedBetween(View(cells, part), durable, erased) && durable <= i < erased
    ensures part.offset + erased <= |cells| && cells[part.offset + i] == ERASED
  {
    assert View(cells, part)[i] == cells[part.offset + i];
  }

  lemma NotErased(cells: seq<byte>, part: AppPartition, durable: nat, erased: nat, i: nat)
    requires durable <= i < erased && part.offset + i < |cells| && cells[part.offset + i] != ERASED
    ensures !ErasedBetween(View(cells, part), durable, erased)
  {
    if ErasedBetween(View(cells, part), durable, erased) {
      ErasedByte(cells, part, durable, erased, i);
    }
  }

  // A cut program may have written the bytes before `done`, and of the others completed one.
  lemma OneByteLeft(before: seq<byte>, at: nat, data: seq<byte>, done: nat, k: nat)
    requires done <= k < |data| && at + k < |before| && before[at + k] == ERASED
    ensures |Written(false, before, at, data[..done])| == |before|
    ensures Torn(before, at, data, Written(false, before, at, data[..done])[at + k := data[k]])
  {
    hide Covers;
    var written := Written(false, before, at, data[..done]);
    WrittenBytes(before, at, data, done);
    hide Written;
    var after := written[at + k := data[k]];
    forall i | 0 <= i < |before| && at <= i < at + |data|
      ensures Covers(before[i], after[i]) && Covers(after[i], before[i] & data[i - at])
    {
      ByteLeft(before[i], data[i - at], after[i]);
    }
  }

  lemma WrittenBytes(before: seq<byte>, at: nat, data: seq<byte>, done: nat)
    requires done <= |data|
    ensures forall i :: at <= i < at + done && i < |before| ==>
              Written(false, before, at, data[..done])[i] == before[i] & data[i - at]
    ensures SameOutside(before, Written(false, before, at, data[..done]), at, at + done)
  {
  }

  lemma ByteLeft(b: byte, value: byte, left: byte)
    requires left == b || left == b & value || (b == ERASED && left == value)
    ensures Covers(b, left) && Covers(left, b & value)
  {
  }

  lemma StoredErased(view: seq<byte>, stream: seq<byte>, durable: nat, attempted: nat, erased: nat)
    requires durable <= attempted <= |stream| && durable <= erased <= |view| &&
             Stored(view, stream, durable, attempted, erased)
    requires AllErased(stream, durable, Min(attempted, erased))
    ensures ErasedBetween(view, durable, erased)
  {
    forall i | durable <= i < erased ensures view[i] == ERASED {
      if i < attempted {
        assert Covers(view[i], ERASED);
      }
    }
  }

  // A pending byte of a whole block may already have its value.
  lemma ReachedByte(view: seq<byte>, size: nat, stream: seq<byte>, durable: nat, erased: nat, eraseSize: nat, i: nat)
    requires 0 < eraseSize && Upload(view, size, stream, durable, erased, eraseSize)
    requires durable <= i < Attempted(|stream|, durable, eraseSize) && i < erased
    ensures Upload(view[i := stream[i]], size, stream, durable, erased, eraseSize)
  {
    hide Attempted;
    assert Covers(stream[i], stream[i]);
    hide Covers;
    UploadFacts(view, size, stream, durable, erased, eraseSize);
    assert Stored(view[i := stream[i]], stream, durable, Attempted(|stream|, durable, eraseSize), erased);
  }

  // Whatever the outcome of handing the bytes to the session, the upload stays sound; after a
  // success everything beyond the acknowledged bytes is erased.
  lemma AppendKeepsUpload(ok: bool, before: seq<byte>, after: seq<byte>, part: AppPartition, stream: seq<byte>,
                          data: seq<byte>, durable: nat, durable': nat, erased: nat, eraseSize: nat)
    requires 0 < eraseSize && Upload(View(before, part), part.size, stream, durable, erased, eraseSize)
    requires Min(|stream + data|, part.size) <= erased && |after| == |before|
    requires AppendOutcome(ok, before, after, part.offset, stream + data, durable, durable', eraseSize)
    requires durable' <= erased
    ensures Upload(View(after, part), part.size, stream + data, durable', erased, eraseSize)
    ensures ok ==> |stream + data| < durable' + eraseSize && ErasedBetween(View(after, part), durable', erased)
    ensures SameOutside(before, after, part.offset + durable,
                        part.offset + Attempted(|stream + data|, durable, eraseSize))
  {
    hide *;
    var all := stream + data;
    var view, view' := View(before, part), View(after, part);
    UploadFacts(view, part.size, stream, durable, erased, eraseSize);
    var attempted := Attempted(|all|, durable, eraseSize);
    ReceiveKeeps(view, stream, data, durable, erased, eraseSize);
    AttemptedAligned(|all|, durable, eraseSize);
    OutcomeFacts(ok, before, after, part.offset, all, durable, durable', eraseSize);
    if ok {
      ViewOfWritten(before, durable, all[durable..attempted], part);
      WriteCompletes(view, all, durable, durable', erased);
      WrittenOutside(view, durable, all[durable..attempted]);
      WrittenOutside(before, part.offset + durable, all[durable..attempted]);
      StoredRestErased(view', all, durable', erased);
    } else {
      ViewOfTorn(before, part, durable, all[durable..attempted], after);
      CutWriteKeeps(view, view', all, durable, attempted, erased);
      TornOutside(view, durable, all[durable..attempted], view');
      TornOutside(before, part.offset + durable, all[durable..attempted], after);
    }
    StaysSound(view, view', part.size, stream, all, durable, durable', erased, eraseSize);
  }

  lemma UploadFacts(view: seq<byte>, size: nat, stream: seq<byte>, durable: nat, erased: nat, eraseSize: nat)
    requires 0 < eraseSize && Upload(view, size, stream, durable, erased, eraseSize)
    ensures durable % eraseSize == 0 && durable <= |stream| && durable <= erased <= |view| <= size
    ensures (erased == size || erased % ERASE_BATCH == 0) && erased % eraseSize == 0
    ensures Stored(view, stream, durable, Attempted(|stream|, durable, eraseSize), erased)
  {
    hide Stored, Attempted;
  }

  lemma StaysSound(view: seq<byte>, view': seq<byte>, size: nat, stream: seq<byte>, all: seq<byte>, durable: nat,
                   durable': nat, erased: nat, eraseSize: nat)
    requires 0 < eraseSize && Upload(view, size, stream, durable, erased, eraseSize) && |view'| == |view|
    requires durable' % eraseSize == 0 && durable' <= |all| && durable' <= erased && Min(|all|, size) <= erased
    requires Stored(view', all, durable', Attempted(|all|, durable', eraseSize), erased)
    ensures Upload(view', size, all, durable', erased, eraseSize)
  {
    hide Stored, Attempted;
  }

  lemma OutcomeFacts(ok: bool, before: seq<byte>, after: seq<byte>, offset: nat, stream: seq<byte>, durable: nat,
                     durable': nat, eraseSize: nat)
    requires 0 < eraseSize && durable <= |stream|
    requires AppendOutcome(ok, before, after, offset, stream, durable, durable', eraseSize)
    ensures var attempted := Attempted(|stream|, durable, eraseSize);
      if ok then durable' == attempted && after == Written(false, before, offset + durable, stream[durable..attempted])
      else durable' == durable && Torn(before, offset + durable, stream[durable..attempted], after)
  {
    hide Written, Torn, RoundDown;
  }

  // Complete blocks end on block boundaries, and leave less than a block.
  lemma AttemptedAligned(received: nat, durable: nat, eraseSize: nat)
    requires 0 < eraseSize && durable <= received && durable % eraseSize == 0
    ensures Attempted(received, durable, eraseSize) % eraseSize == 0
    ensures Attempted(received, Attempted(received, durable, eraseSize), eraseSize)
              == Attempted(received, durable, eraseSize)
  {
    var whole := RoundDown(received - durable, eraseSize);
    DivModUnique(whole, eraseSize, (received - durable) / eraseSize, 0);
    SumOfMultiples(durable, whole, eraseSize);
    DivModUnique(received - durable - whole, eraseSize, 0, received - durable - whole);
  }

  lemma WrittenOutside(cells: seq<byte>, at: nat, data: seq<byte>)
    ensures SameOutside(cells, Written(false, cells, at, data), at, at + |data|)
    ensures |Written(false, cells, at, data)| == |cells|
  {
  }

  lemma TornOutside(before: seq<byte>, at: nat, data: seq<byte>, after: seq<byte>)
    requires Torn(before, at, data, after)
    ensures SameOutside(before, after, at, at + |data|)
  {
  }

  lemma StoredRestErased(view: seq<byte>, stream: seq<byte>, durable: nat, erased: nat)
    requires durable <= |stream| && durable <= erased <= |view| && Stored(view, stream, durable, durable, erased)
    ensures ErasedBetween(view, durable, erased)
  {
  }

  // Changes inside the partition that start at the durable bytes.
  lemma Narrowed(before: seq<byte>, after: seq<byte>, offset: nat, size: nat, durable: nat, end: int)
    requires SameOutside(before, after, offset, offset + size) && SameOutside(before, after, offset + durable, end)
    ensures SameOutside(before, after, offset + durable, offset + size)
  {
  }

  // The whole batches erased so far and now add up, whichever boundary the last erase reached.
  lemma BatchesAddUp(erased: nat, desired: nat, size: nat)
    requires erased < desired <= size && (erased == size || erased % ERASE_BATCH == 0)
    ensures erased / ERASE_BATCH + (desired - erased) / ERASE_BATCH == desired / ERASE_BATCH
  {
    DivModUnique(desired, ERASE_BATCH, erased / ERASE_BATCH + (desired - erased) / ERASE_BATCH,
                 (desired - erased) % ERASE_BATCH);
  }

  // The blocks flushed so far and now add up to the durable bytes.
  lemma SectorsAddUp(durable: nat, durable': nat, eraseSize: nat)
    requires 0 < eraseSize && durable <= durable' && durable % eraseSize == 0 && durable' % eraseSize == 0
    ensures durable / eraseSize + DivCeil(durable' - durable, eraseSize) == durable' / eraseSize
  {
    DifferenceOfMultiples(durable', durable, eraseSize);
    SumOfMultiples(durable, durable' - durable, eraseSize);
  }

  // The partition lies on the chip and consists of whole erase blocks, which divide an erase batch.
  ghost predicate WellPlaced(part: AppPartition, capacity: nat, eraseSize: nat, writeSize: nat) {
    && 0 < eraseSize && 0 < writeSize
    && part.offset % eraseSize == 0 && part.size % eraseSize == 0 && part.offset + part.size <= capacity
    && eraseSize % writeSize == 0 && ERASE_BATCH % eraseSize == 0
  }

  lemma PlacementAllowsErase(part: AppPartition, capacity: nat, eraseSize: nat, writeSize: nat, erased: nat,
                             desired: nat)
    requires WellPlaced(part, capacity, eraseSize, writeSize) && capacity < USIZE_RANGE
    requires erased < desired <= part.size && erased % eraseSize == 0
    requires desired == part.size || desired % ERASE_BATCH == 0
    ensures Partitions.Erasable(Partitions.PartitionRange(part.offset, part.size), erased, desired, eraseSize)
    ensures part.offset % eraseSize == 0 && part.offset + part.size <= capacity
  {
    if desired % ERASE_BATCH == 0 {
      MultipleOfMultiple(desired, ERASE_BATCH, eraseSize);
    }
  }

  lemma PlacementAccepts(part: AppPartition, capacity: nat, eraseSize: nat, writeSize: nat, durable: nat, len: nat,
                         backend: EspArtifactStorage)
    requires backend.partitionOffset == part.offset && backend.partitionSize == part.size
    requires backend.flash.eraseSize == eraseSize && backend.flash.writeSize == writeSize
    ensures WellPlaced(part, capacity, eraseSize, writeSize) && durable % eraseSize == 0 &&
              durable + len <= part.size ==>
              backend.Accepts(durable, len, capacity)
  {
  }

  // A changed range lies within a wider one.
  lemma StillOutside(before: seq<byte>, after: seq<byte>, lo: int, from: int, to: int, hi: int)
    requires SameOutside(before, after, from, to) && lo <= from && to <= hi
    ensures SameOutside(before, after, lo, hi)
  {
  }

  // Commands on the pending bytes and in the partition stay below a watermark that covers what fits.
  lemma BelowWatermark(before: seq<Command>, after: seq<Command>, part: AppPartition, durable: nat, received: nat,
                       erased: nat)
    requires Confined(before, after, part.offset + durable, part.offset + received)
    requires Confined(before, after, part.offset, part.offset + part.size)
    requires Min(received, part.size) <= erased
    ensures Confined(before, after, part.offset + durable, part.offset + erased)
  {
    hide Within;
    if received <= erased {
      ConfinedWider(before, after, part.offset + durable, part.offset + received, part.offset + durable,
                    part.offset + erased);
    } else {
      ConfinedToBoth(before, after, part.offset + durable, part.offset + received, part.offset,
                     part.offset + part.size);
      ConfinedWider(before, after, part.offset + durable, part.offset + part.size, part.offset + durable,
                    part.offset + erased);
    }
  }

  // ---------------------------------------------------------------- the last block, on values

  ghost predicate HoldsArtifact(view: seq<byte>, stream: seq<byte>, erased: nat, eraseSize: nat, writeSize: nat)
    requires 0 < eraseSize && 0 < writeSize && eraseSize % writeSize == 0
  {
    var image := StreamImage(stream, eraseSize, writeSize);
    |stream| <= |image| <= erased <= |view| && view[..|image|] == image && AllErased(view, |image|, erased)
  }

  // The artifact itself is what a reader of its first bytes gets.
  lemma ArtifactReadsBack(view: seq<byte>, stream: seq<byte>, erased: nat, eraseSize: nat, writeSize: nat)
    requires 0 < eraseSize && 0 < writeSize && eraseSize % writeSize == 0
    requires HoldsArtifact(view, stream, erased, eraseSize, writeSize)
    ensures |stream| <= |view| && view[..|stream|] == stream
  {
    var image := StreamImage(stream, eraseSize, writeSize);
    ImageStartsWithStream(stream, eraseSize, writeSize);
    assert view[..|stream|] == image[..|stream|];
  }

  // Byte by byte: the stream, zeros to the next program unit, and erased cells up to the watermark.
  lemma HeldBytes(view: seq<byte>, stream: seq<byte>, erased: nat, eraseSize: nat, writeSize: nat)
    requires 0 < eraseSize && 0 < writeSize && eraseSize % writeSize == 0
    requires HoldsArtifact(view, stream, erased, eraseSize, writeSize)
    ensures erased <= |view| && forall i :: 0 <= i < erased ==>
              view[i] == if i < |stream| then stream[i] else if i - i % writeSize < |stream| then 0 else 0xFF
  {
    var image := StreamImage(stream, eraseSize, writeSize);
    ImageStartsWithStream(stream, eraseSize, writeSize);
    forall i | 0 <= i < erased
      ensures view[i] == if i < |stream| then stream[i] else if i - i % writeSize < |stream| then 0 else 0xFF
    {
      if i < |stream| {
        assert view[i] == image[i] == image[..|stream|][i];
      } else {
        ImageTail(stream, eraseSize, writeSize, i);
        assert i < |image| ==> view[i] == view[..|image|][i];
      }
    }
  }

  // Beyond the stream its image is zero to the next program unit, then erased.
  lemma ImageTail(stream: seq<byte>, eraseSize: nat, writeSize: nat, i: nat)
    requires 0 < eraseSize && 0 < writeSize && eraseSize % writeSize == 0 && |stream| <= i
    ensures var image := StreamImage(stream, eraseSize, writeSize);
      && (i < |image| ==> image[i] == if i - i % writeSize < |stream| then 0 else 0xFF)
      && (i >= |image| ==> i - i % writeSize >= |stream|)
  {
    var whole := RoundDown(|stream|, eraseSize);
    RoundedDown(|stream|, eraseSize);
    MultipleOfMultiple(whole, eraseSize, writeSize);
    ImageSplits(stream, whole, eraseSize, writeSize);
    var tail := stream[whole..];
    SameUnit(whole, i, writeSize);
    if tail == [] {
      RoundedDown(i, writeSize);
      MultipleBelow(whole, i, writeSize);
    } else {
      PaddingIsZero(tail, writeSize, i - whole);
    }
    hide StreamImage, RoundDown, Padded;
  }

  lemma SameUnit(whole: nat, i: nat, m: nat)
    requires 0 < m && whole % m == 0 && whole <= i
    ensures (i - whole) % m == i % m
  {
    DivModUnique(i, m, whole / m + (i - whole) / m, (i - whole) % m) by {
      assert m * (whole / m + (i - whole) / m) == m * (whole / m) + m * ((i - whole) / m);
    }
  }

  lemma ImageStartsWithStream(stream: seq<byte>, eraseSize: nat, writeSize: nat)
    requires 0 < eraseSize && 0 < writeSize && eraseSize % writeSize == 0
    ensures var image := StreamImage(stream, eraseSize, writeSize); |stream| <= |image| && image[..|stream|] == stream
  {
    var whole := RoundDown(|stream|, eraseSize);
    TailFits(stream[whole..], eraseSize, writeSize);
    hide RoundDown, Padded;
    if whole < |stream| {
      var tail := stream[whole..];
      var padded := Padded(tail, writeSize);
      assert padded[..|tail|] == tail;
      assert StreamImage(stream, eraseSize, writeSize)[..|stream|] == stream[..whole] + tail;
    }
  }

  lemma FinishedHolds(before: seq<byte>, after: seq<byte>, part: AppPartition, stream: seq<byte>, durable: nat,
                      erased: nat, eraseSize: nat, writeSize: nat)
    requires 0 < eraseSize && 0 < writeSize && Upload(View(before, part), part.size, stream, durable, erased, eraseSize)
    requires |stream| < durable + eraseSize && |stream| <= erased && |after| == |before|
    requires durable == |stream| ==> after == before
    requires durable < |stream| ==>
             after == Flushed(false, before, part.offset + durable, stream[durable..], eraseSize, writeSize)
    ensures eraseSize % writeSize == 0 ==> HoldsArtifact(View(after, part), stream, erased, eraseSize, writeSize)
  {
    hide View, Flushed, Stored, Attempted, StreamImage, AllErased;
    if eraseSize % writeSize == 0 {
      UploadFacts(View(before, part), part.size, stream, durable, erased, eraseSize);
      NothingAttempted(|stream|, durable, eraseSize);
      FinishCompletes(View(before, part), stream, durable, erased, eraseSize, writeSize);
      ImageStartsWithStream(stream, eraseSize, writeSize);
      if durable < |stream| {
        ViewOfFlushed(before, durable, stream[durable..], eraseSize, writeSize, part);
      }
    }
  }

  lemma NothingAttempted(received: nat, durable: nat, eraseSize: nat)
    requires 0 < eraseSize && durable <= received < durable + eraseSize
    ensures Attempted(received, durable, eraseSize) == durable
  {
    DivModUnique(received - durable, eraseSize, 0, received - durable);
  }

  lemma RoomForLastBlock(part: AppPartition, capacity: nat, eraseSize: nat, writeSize: nat, durable: nat, received: nat,
                         erased: nat, backend: EspArtifactStorage)
    requires backend.partitionOffset == part.offset && backend.partitionSize == part.size
    requires backend.flash.eraseSize == eraseSize && backend.flash.writeSize == writeSize
    requires 0 < eraseSize && durable <= received <= erased <= part.size && durable % eraseSize == 0 &&
             erased % eraseSize == 0
    ensures WellPlaced(part, capacity, eraseSize, writeSize) && durable < received ==>
              backend.Accepts(durable, eraseSize, capacity)
  {
    DifferenceOfMultiples(erased, durable, eraseSize);
  }

  lemma CeilOfLastBlock(durable: nat, size: nat, eraseSize: nat)
    requires 0 < eraseSize && durable % eraseSize == 0 && durable <= size < durable + eraseSize
    ensures durable / eraseSize + DivCeil(size - durable, eraseSize) == DivCeil(size, eraseSize)
  {
    DivModUnique(size, eraseSize, durable / eraseSize, size - durable);
    DivModUnique(size - durable, eraseSize, 0, size - durable);
  }

  // In flash, byte by byte: the stream, zeros to the next program unit, and 0xFF up to the watermark.
  ghost predicate StoresArtifact(cells: seq<byte>, offset: nat, stream: seq<byte>, erased: nat, writeSize: nat)
    requires 0 < writeSize
  {
    forall i :: 0 <= i < erased ==>
      offset + i < |cells| &&
      cells[offset + i] == if i < |stream| then stream[i] else if i - i % writeSize < |stream| then 0 else 0xFF
  }

  lemma HeldIsStored(cells: seq<byte>, part: AppPartition, stream: seq<byte>, erased: nat, eraseSize: nat,
                     writeSize: nat)
    requires 0 < eraseSize && 0 < writeSize && eraseSize % writeSize == 0
    requires HoldsArtifact(View(cells, part), stream, erased, eraseSize, writeSize)
    ensures StoresArtifact(cells, part.offset, stream, erased, writeSize)
  {
    HeldBytes(View(cells, part), stream, erased, eraseSize, writeSize);
    var view := View(cells, part);
    hide HoldsArtifact, View;
    forall i | 0 <= i < erased
      ensures part.offset + i < |cells| &&
        cells[part.offset + i] == if i < |stream| then stream[i] else if i - i % writeSize < |stream| then 0 else 0xFF
    {
      ViewByte(cells, part, i);
      assert view[i] == if i < |stream| then stream[i] else if i - i % writeSize < |stream| then 0 else 0xFF;
    }
  }

  lemma ViewByte(cells: seq<byte>, part: AppPartition, i: nat)
    requires i < |View(cells, part)|
    ensures part.offset + i < |cells| && cells[part.offset + i] == View(cells, part)[i]
  {
  }

  // ---------------------------------------------------------------- the writer

  class ArtifactWriter {
    const partition: AppPartition
    const scratch: array<byte>
    var erasedThrough: nat
    var sectorsFlushed: nat
    var eraseBatches: nat
    // Absolute ranges this session has erased, oldest first.
    ghost var erases: seq<Range>

    constructor (partition: AppPartition, chip: Chip, session: WriteSession)
      requires partition.Valid() && chip.Valid() && session.Valid() && session.stream == []
      ensures Sound(chip, session) && this.partition == partition && erasedThrough == 0 && fresh(scratch)
    {
      this.partition := partition;
      scratch := new byte[chip.eraseSize](_ => 0);
      erasedThrough, sectorsFlushed, eraseBatches, erases := 0, 0, 0, [];
      new;
      StartsSound(View(chip.cells, partition), partition.size, chip.eraseSize);
    }

    // Holds between any two calls: the upload invariant, the closed forms of both counters, and
    // the erased ranges lying end to end from the start of the partition.
    ghost predicate Sound(chip: Chip, session: WriteSession)
      reads this, chip, session
    {
      && chip.Valid() && session.Valid() && partition.Valid() && scratch.Length == chip.eraseSize
      && Upload(View(chip.cells, partition), partition.size, session.stream, session.durable, erasedThrough,
                chip.eraseSize)
      && eraseBatches == erasedThrough / ERASE_BATCH
      && sectorsFlushed == session.durable / chip.eraseSize
      && Tiles(erases, partition.offset, partition.offset + erasedThrough)
    }

    // Moves the erase watermark; a failure leaves it where it was.
    method EraseAheadTo(chip: Chip, ghost session: WriteSession, desired: nat) returns (ok: bool)
      requires Sound(chip, session) && erasedThrough < desired <= partition.size
      requires desired == partition.size || desired % ERASE_BATCH == 0
      modifies this, chip
      ensures old(chip.faults) <= chip.faults && (ok ==> chip.faults == old(chip.faults))
      ensures Sound(chip, session) && erasedThrough == (if ok then desired else old(erasedThrough))
      ensures SameOutside(old(chip.cells), chip.cells, partition.offset + old(erasedThrough),
                          partition.offset + desired)
      ensures Confined(old(chip.commands), chip.commands,
                       partition.offset + old(erasedThrough), partition.offset + partition.size)
      ensures OnlyErases(old(chip.commands), chip.commands)
      ensures ok ==> AddedErase(old(erases), erases, partition.offset + old(erasedThrough), partition.offset + desired)
      ensures ok ==>
                AddedErase(old(chip.erases), chip.erases, partition.offset + old(erasedThrough),
                           partition.offset + desired)
      ensures !ok ==> erases == old(erases) && chip.erases == old(chip.erases)
      ensures WellPlaced(partition, |chip.cells|, chip.eraseSize, chip.writeSize) ==>
                ok || old(chip.faults) < chip.faults
    {
      hide View, Erased, SameOutside, Confined, OnlyErases, Upload, Attempted, Stored, Tiles, WellPlaced,
          Partitions.Erasable;
      UploadFacts(View(chip.cells, partition), partition.size, session.stream, session.durable, erasedThrough,
                  chip.eraseSize);
      if WellPlaced(partition, |chip.cells|, chip.eraseSize, chip.writeSize) {
        PlacementAllowsErase(partition, |chip.cells|, chip.eraseSize, chip.writeSize, erasedThrough, desired);
      }
      BatchesAddUp(erasedThrough, desired, partition.size);
      TileOneMore(erases, partition.offset, partition.offset + erasedThrough, partition.offset + desired);
      ghost var view := View(chip.cells, partition);
      var batches: nat := (desired - erasedThrough) / ERASE_BATCH;
      var r := Partitions.EraseRange(chip, Partitions.PartitionRange(partition.offset, partition.size), erasedThrough,
                                     desired);
      ConfinedWider(old(chip.commands), chip.commands, partition.offset + erasedThrough, partition.offset + desired,
                    partition.offset + erasedThrough, partition.offset + partition.size);
      if r.Err? {
        ViewOfSameOutside(old(chip.cells), chip.cells, partition, erasedThrough, desired);
        EraseKeeps(view, View(chip.cells, partition), partition.size, session.stream, session.durable, erasedThrough,
                   desired, chip.eraseSize);
        return false;
      }
      ViewOfErased(old(chip.cells), partition, erasedThrough, desired);
      EraseAhead(view, partition.size, session.stream, session.durable, erasedThrough, desired, chip.eraseSize);
      eraseBatches := eraseBatches + batches;
      erases := erases + [Range(partition.offset + erasedThrough, partition.offset + desired)];
      erasedThrough := desired;
      ok := true;
    }

    // Hands the bytes to the session over flash that is already erased.
    method HandOver(chip: Chip, session: WriteSession, data: seq<byte>) returns (ok: bool)
      requires Sound(chip, session) && session.CanAppend(|data|)
      requires Min(session.received + |data|, partition.size) <= erasedThrough
      modifies this, chip, session, scratch
      ensures old(chip.faults) <= chip.faults && (ok ==> chip.faults == old(chip.faults))
      ensures Sound(chip, session) && session.stream == old(session.stream) + data && eraseBatches == old(eraseBatches)
      ensures erasedThrough == old(erasedThrough) && erases == old(erases) && chip.erases == old(chip.erases)
      ensures old(session.durable) <= session.durable
      ensures ok ==> session.open && session.received < session.durable + chip.eraseSize
      ensures ok ==> ErasedBetween(View(chip.cells, partition), session.durable, erasedThrough)
      ensures SameOutside(old(chip.cells), chip.cells, partition.offset + old(session.durable),
                          partition.offset + partition.size)
      // only cells an erase of this upload has covered are programmed
      ensures Confined(old(chip.commands), chip.commands,
                       partition.offset + old(session.durable), partition.offset + erasedThrough)
      ensures WellPlaced(partition, |chip.cells|, chip.eraseSize, chip.writeSize) &&
                session.received <= partition.size ==>
                ok || old(chip.faults) < chip.faults
    {
      hide View, SameOutside, Confined, Upload, Attempted, Stored, Tiles, WellPlaced, AppendOutcome, ErasedBetween;
      UploadFacts(View(chip.cells, partition), partition.size, session.stream, session.durable, erasedThrough,
                  chip.eraseSize);
      ghost var stream := session.stream;
      var before := session.durable;
      var made := EspArtifactStorage.WithEraseMode(chip, partition, scratch, false);
      ok := false;
      match made {
        case Ok(backend) =>
          PlacementAccepts(partition, |chip.cells|, chip.eraseSize, chip.writeSize, before,
                           session.received + |data| - before, backend);
          ok := session.Append(backend, data);
          BelowWatermark(old(chip.commands), chip.commands, partition, before, session.received, erasedThrough);
          AppendKeepsUpload(ok, old(chip.cells), chip.cells, partition, stream, data, before, session.durable,
                            erasedThrough, chip.eraseSize);
          Narrowed(old(chip.cells), chip.cells, partition.offset, partition.size, before,
                   partition.offset + Attempted(|session.stream|, before, chip.eraseSize));
          UploadFacts(View(chip.cells, partition), partition.size, session.stream, session.durable, erasedThrough,
                      chip.eraseSize);
        case Err(_) =>
          assert false;
      }
      SectorsAddUp(before, session.durable, chip.eraseSize);
      sectorsFlushed := sectorsFlushed + DivCeil(session.durable - before, chip.eraseSize);
    }

    // Erases ahead as far as `end` received bytes need it.
    method Cover(chip: Chip, ghost session: WriteSession, end: nat) returns (ok: bool)
      requires Sound(chip, session) && session.received <= end < U64_RANGE
      modifies this, chip
      ensures old(chip.faults) <= chip.faults && (ok ==> chip.faults == old(chip.faults))
      ensures Sound(chip, session) && old(erasedThrough) <= erasedThrough && |chip.cells| == |old(chip.cells)|
      ensures ok ==> Min(end, partition.size) <= erasedThrough
      // nothing is erased for bytes that are covered, and otherwise less than a batch beyond them
      ensures Min(end, partition.size) <= old(erasedThrough) ==> ok && erasedThrough == old(erasedThrough)
      ensures erasedThrough == old(erasedThrough) || erasedThrough < end + 65536
      ensures erasedThrough <= partition.size && (erasedThrough == partition.size || erasedThrough % 65536 == 0)
      ensures eraseBatches == erasedThrough / 65536
      ensures SameOutside(old(chip.cells), chip.cells, partition.offset + session.durable,
                          partition.offset + partition.size)
      ensures Confined(old(chip.commands), chip.commands, partition.offset + session.durable,
                       partition.offset + partition.size)
      ensures OnlyErases(old(chip.commands), chip.commands)
      ensures AddedErase(old(erases), erases, partition.offset + old(erasedThrough), partition.offset + erasedThrough)
      ensures AddedErase(old(chip.erases), chip.erases, partition.offset + old(erasedThrough),
                         partition.offset + erasedThrough)
      ensures WellPlaced(partition, |chip.cells|, chip.eraseSize, chip.writeSize) ==>
                ok || old(chip.faults) < chip.faults
    {
      hide View, SameOutside, Confined, OnlyErases, Upload, Attempted, Stored, Tiles, WellPlaced, DesiredErased;
      UploadFacts(View(chip.cells, partition), partition.size, session.stream, session.durable, erasedThrough,
                  chip.eraseSize);
      UntouchedOutside(chip.cells, partition.offset + session.durable, partition.offset + partition.size);
      NoCommandsConfined(chip.commands, partition.offset + session.durable, partition.offset + partition.size);
      var desired := DesiredErased(end, partition.size);
      DesiredCoversEnd(end, partition.size);
      if Min(end, partition.size) <= erasedThrough {
        NothingMoreDesired(end, partition.size, erasedThrough);
      }
      ok := true;
      if desired > erasedThrough {
        ok := EraseAheadTo(chip, session, desired);
        StillOutside(old(chip.cells), chip.cells, partition.offset + session.durable,
                     partition.offset + old(erasedThrough),
                     partition.offset + desired, partition.offset + partition.size);
        ConfinedWider(old(chip.commands), chip.commands, partition.offset + old(erasedThrough),
                      partition.offset + partition.size, partition.offset + session.durable,
                      partition.offset + partition.size);
      }
    }

    method Append(chip: Chip, session: WriteSession, data: seq<byte>) returns (ok: bool)
      requires Sound(chip, session)
      modifies this, chip, session, scratch
      ensures old(chip.faults) <= chip.faults && (ok ==> chip.faults == old(chip.faults))
      ensures Sound(chip, session) && old(erasedThrough) <= erasedThrough && old(session.durable) <= session.durable
      ensures |chip.cells| == |old(chip.cells)|
      // a refusal changes nothing
      ensures !old(session.CanAppend(|data|)) ==>
                !ok && chip.cells == old(chip.cells) && session.stream == old(session.stream)
      ensures session.stream == old(session.stream) || session.stream == old(session.stream) + data
      // bytes that need no further erase always reach the session, even beyond the partition
      ensures old(session.CanAppend(|data|)) ==>
                Min(old(session.received) + |data|, partition.size) <= old(erasedThrough) ==>
                  session.stream == old(session.stream) + data && erasedThrough == old(erasedThrough)
      // and no more is erased than the batches of 64 KiB the received bytes lie in
      ensures erasedThrough == old(erasedThrough) || erasedThrough < old(session.received) + |data| + 65536
      ensures erasedThrough == partition.size || erasedThrough % 65536 == 0
      ensures eraseBatches == erasedThrough / 65536
      // success acknowledges all but less than a block, and leaves every later byte erased
      ensures ok ==> session.stream == old(session.stream) + data && session.open
      ensures ok ==> session.received < session.durable + chip.eraseSize
      ensures ok ==> ErasedBetween(View(chip.cells, partition), session.durable, erasedThrough)
      // acknowledged bytes and the rest of the flash are untouched, whatever happens
      ensures SameOutside(old(chip.cells), chip.cells, partition.offset + old(session.durable),
                          partition.offset + partition.size)
      ensures Confined(old(chip.commands), chip.commands,
                       partition.offset + old(session.durable), partition.offset + partition.size)
      // every program command lies in what this upload has erased
      ensures ProgramsConfined(old(chip.commands), chip.commands,
                               partition.offset + old(session.durable), partition.offset + erasedThrough)
      ensures AddedErase(old(erases), erases, partition.offset + old(erasedThrough), partition.offset + erasedThrough)
      ensures AddedErase(old(chip.erases), chip.erases, partition.offset + old(erasedThrough),
                         partition.offset + erasedThrough)
      // data that fits the partition fails only through the hardware
      ensures WellPlaced(partition, |chip.cells|, chip.eraseSize, chip.writeSize) ==>
                old(session.CanAppend(|data|)) && old(session.received) + |data| <= partition.size ==>
                    ok || old(chip.faults) < chip.faults
    {
      hide View, SameOutside, Confined, ProgramsConfined, OnlyErases, Upload, Attempted, Stored, Tiles, WellPlaced,
          ErasedBetween, DesiredErased, AddedErase;
      UntouchedOutside(chip.cells, partition.offset + session.durable, partition.offset + partition.size);
      NoCommandsConfined(chip.commands, partition.offset + session.durable, partition.offset + partition.size);
      NoCommandsConfined(chip.commands, partition.offset + session.durable, partition.offset + erasedThrough);
      NothingAdded(erases, partition.offset + erasedThrough);
      NothingAdded(chip.erases, partition.offset + erasedThrough);
      UploadFacts(View(chip.cells, partition), partition.size, session.stream, session.durable, erasedThrough,
                  chip.eraseSize);
      if !session.CanAppend(|data|) {
        return false;
      }
      var covered := Cover(chip, session, session.received + |data|);
      OnlyErasesConfined(old(chip.commands), chip.commands, partition.offset + session.durable,
                         partition.offset + erasedThrough);
      if !covered {
        return false;
      }
      ghost var mid, log := chip.cells, chip.commands;
      ok := HandOver(chip, session, data);
      OutsideThenOutside(old(chip.cells), mid, chip.cells, partition.offset + old(session.durable),
                         partition.offset + partition.size);
      ProgramsInErased(old(chip.commands), log, chip.commands, partition.offset + old(session.durable),
                       partition.offset + erasedThrough, partition.offset + partition.size);
    }

    // Completes the upload of every received byte that a prior erase covers.
    method Finish(chip: Chip, session: WriteSession) returns (r: Result<nat, FinishError>)
      requires Sound(chip, session)
      modifies this, chip, session, scratch
      ensures old(chip.faults) <= chip.faults
      ensures r.Ok? ==> r.value == |session.stream| == session.expected
      // the partition holds the artifact, zero padding to a program unit, and erased cells up to the watermark
      ensures r.Ok? && chip.eraseSize % chip.writeSize == 0 ==>
                HoldsArtifact(View(chip.cells, partition), session.stream, erasedThrough, chip.eraseSize,
                              chip.writeSize)
      // byte by byte: the stream, zeros to the next program unit, then 0xFF
      ensures r.Ok? && chip.eraseSize % chip.writeSize == 0 ==>
                StoresArtifact(chip.cells, partition.offset, session.stream, erasedThrough, chip.writeSize)
      // a complete artifact is rejected only for its digest
      ensures r.Ok? ==> session.approves(session.stream)
      ensures r == Err(Rejected) ==> !session.approves(session.stream)
      ensures r.Ok? ==> sectorsFlushed == DivCeil(r.value, chip.eraseSize)
      ensures r.Err? ==> sectorsFlushed == old(sectorsFlushed)
      ensures session.stream == old(session.stream) && erasedThrough == old(erasedThrough)
      ensures eraseBatches == erasedThrough / 65536 && chip.erases == old(chip.erases)
      // acknowledged bytes and the rest of the flash are untouched, whatever happens
      ensures SameOutside(old(chip.cells), chip.cells, partition.offset + old(session.durable),
                          partition.offset + partition.size)
      ensures Confined(old(chip.commands), chip.commands,
                       partition.offset + old(session.durable), partition.offset + erasedThrough)
      // fewer bytes than promised, or more than were erased for: incomplete, and nothing is written
      ensures (r.Err? && r.error.Incomplete?) <==>
                |session.stream| > erasedThrough || |session.stream| != session.expected
      ensures r.Err? && r.error.Incomplete? ==> r.error.durable == old(session.durable) && chip.cells == old(chip.cells)
      ensures WellPlaced(partition, |chip.cells|, chip.eraseSize, chip.writeSize) ==>
                |session.stream| - old(session.durable) < chip.eraseSize ==>
                    r.Ok? || !r.error.Backend? || old(chip.faults) < chip.faults
    {
      hide View, SameOutside, Confined, Upload, Attempted, Stored, Tiles, WellPlaced, HoldsArtifact, Flushed,
          StoresArtifact;
      UntouchedOutside(chip.cells, partition.offset + session.durable, partition.offset + partition.size);
      NoCommandsConfined(chip.commands, partition.offset + session.durable, partition.offset + erasedThrough);
      UploadFacts(View(chip.cells, partition), partition.size, session.stream, session.durable, erasedThrough,
                  chip.eraseSize);
      if session.received > erasedThrough {
        return Err(Incomplete(session.durable));
      }
      var before := session.durable;
      var made := EspArtifactStorage.WithEraseMode(chip, partition, scratch, false);
      r := Err(Rejected);
      match made {
        case Ok(backend) =>
          RoomForLastBlock(partition, |chip.cells|, chip.eraseSize, chip.writeSize, before, |session.stream|,
                           erasedThrough, backend);
          r := session.Finish(backend);
          if before < |session.stream| {
            DifferenceOfMultiples(erasedThrough, before, chip.eraseSize);
            ConfinedWider(old(chip.commands), chip.commands, partition.offset + before,
                          partition.offset + before + chip.eraseSize,
                          partition.offset + before, partition.offset + erasedThrough);
          }
          Narrowed(old(chip.cells), chip.cells, partition.offset, partition.size, before,
                   partition.offset + before + chip.eraseSize);
          if r.Ok? {
            FinishedHolds(old(chip.cells), chip.cells, partition, session.stream, before, erasedThrough, chip.eraseSize,
                          chip.writeSize);
            if chip.eraseSize % chip.writeSize == 0 {
              HeldIsStored(chip.cells, partition, session.stream, erasedThrough, chip.eraseSize, chip.writeSize);
            }
            CeilOfLastBlock(before, r.value, chip.eraseSize);
            sectorsFlushed := sectorsFlushed + DivCeil(r.value - before, chip.eraseSize);
          }
        case Err(e) =>
          assert false;
      }
    }
  }

  // Bytes received beyond the partition are accepted without an erase, so the received count can
  // pass the erase watermark: one more byte after a full partition.
  method ReceivedCanPassErased(chip: Chip, partition: AppPartition, first: seq<byte>, extra: byte)
    returns (session: WriteSession, writer: ArtifactWriter, ok: bool)
    requires chip.Valid() && partition.Valid() && |first| == partition.size
    requires WellPlaced(partition, |chip.cells|, chip.eraseSize, chip.writeSize)
    modifies chip
    ensures ok ==> session.received == partition.size + 1 > writer.erasedThrough
    ensures ok || old(chip.faults) < chip.faults
  {
    hide View, Upload, WellPlaced, DesiredErased, SameOutside, Confined, AddedErase, ErasedBetween, Tiles;
    session := new WriteSession(partition.size + 1, _ => true);
    writer := new ArtifactWriter(partition, chip, session);
    ok := writer.Append(chip, session, first);
    if ok {
      UploadFacts(View(chip.cells, partition), partition.size, session.stream, session.durable, writer.erasedThrough,
                  chip.eraseSize);
      ReceivedWithinErased(View(chip.cells, partition), partition.size, session.stream, session.durable,
                           writer.erasedThrough, chip.eraseSize);
      DesiredCoversEnd(partition.size + 1, partition.size);
      var more := writer.Append(chip, session, [extra]);
    }
  }
}
