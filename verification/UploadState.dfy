/** What a partition holds at every point of an upload, and how each kind of step keeps it. */
module UploadState {
  import opened Machine
  import opened FlashChip
  import opened ArtifactStorage

  const ERASE_BATCH: nat := 64 * 1024

  // ---------------------------------------------------------------- the partition's own cells

  // The cells of the partition that the chip really has.
  function View(cells: seq<byte>, part: AppPartition): (v: seq<byte>)
    ensures |v| == if part.offset <= |cells| then Min(part.size, |cells| - part.offset) else 0
    ensures forall i :: 0 <= i < |v| ==> v[i] == cells[part.offset + i]
  {
    var lo := Min(part.offset, |cells|);
    cells[lo..Min(part.offset + part.size, |cells|)]
  }

  lemma ViewOfSameOutside(before: seq<byte>, after: seq<byte>, part: AppPartition, from: nat, to: nat)
    requires SameOutside(before, after, part.offset + from, part.offset + to)
    ensures SameOutside(View(before, part), View(after, part), from, to)
  {
  }

  lemma ViewOfErased(cells: seq<byte>, part: AppPartition, from: nat, to: nat)
    ensures View(Erased(cells, part.offset + from, part.offset + to), part) == Erased(View(cells, part), from, to)
  {
  }

  lemma ViewOfTorn(before: seq<byte>, part: AppPartition, at: nat, data: seq<byte>, after: seq<byte>)
    requires Torn(before, part.offset + at, data, after)
    ensures Torn(View(before, part), at, data, View(after, part))
  {
    hide Covers;
    ViewOfSameOutside(before, after, part, at, at + |data|);
    var v, v' := View(before, part), View(after, part);
    forall i | 0 <= i < |v| && at <= i < at + |data|
      ensures Covers(v[i], v'[i]) && Covers(v'[i], v[i] & data[i - at])
    {
      assert before[part.offset + i] == v[i] && after[part.offset + i] == v'[i];
    }
  }

  lemma ViewOfWritten(cells: seq<byte>, at: nat, data: seq<byte>, part: AppPartition)
    ensures View(Written(false, cells, part.offset + at, data), part) == Written(false, View(cells, part), at, data)
  {
  }

  // ---------------------------------------------------------------- the upload invariant

  // `view` is the partition, `stream` what the session has received, `durable` how much of it
  // is acknowledged, and `erased` how far the partition has been erased ahead.
  ghost predicate Upload(view: seq<byte>, size: nat, stream: seq<byte>, durable: nat, erased: nat, eraseSize: nat)
    requires 0 < eraseSize
  {
    && durable % eraseSize == 0 && durable <= |stream|
    && durable <= erased <= |view| <= size && Min(|stream|, size) <= erased
    && (erased == size || erased % ERASE_BATCH == 0) && erased % eraseSize == 0
    && Stored(view, stream, durable, Attempted(|stream|, durable, eraseSize), erased)
  }

  // Only whole blocks of pending bytes have ever been sent to the chip.
  function Attempted(received: nat, durable: nat, eraseSize: nat): (r: nat)
    requires 0 < eraseSize && durable <= received
    ensures durable <= r <= received < r + eraseSize
  {
    durable + RoundDown(received - durable, eraseSize)
  }

  // Acknowledged bytes are in flash; a byte a failed write may have reached still has every bit
  // its value needs; everything after that is erased.
  ghost predicate Stored(view: seq<byte>, stream: seq<byte>, durable: nat, attempted: nat, erased: nat)
    requires durable <= attempted <= |stream| && erased <= |view|
  {
    && (forall i :: 0 <= i < durable && i < erased ==> view[i] == stream[i])
    && (forall i :: durable <= i < attempted && i < erased ==> Covers(view[i], stream[i]))
    && (forall i :: attempted <= i < erased ==> view[i] == ERASED)
  }

  // ---------------------------------------------------------------- bits

  lemma ErasedCoversAll(b: byte)
    ensures Covers(ERASED, b) && ERASED & b == b
  {
  }

  // A byte that covers its value is completed by programming the value, and stays covering when cut.
  lemma CoversSurvives(before: byte, value: byte, after: byte)
    requires Covers(before, value)
    ensures before & value == value
    ensures Covers(after, before & value) ==> Covers(after, value)
  {
  }

  // ---------------------------------------------------------------- steps

  // More pending bytes mean at least as many attempted ones.
  lemma AttemptedGrows(durable: nat, received: nat, received': nat, eraseSize: nat)
    requires 0 < eraseSize && durable <= received <= received'
    ensures Attempted(received, durable, eraseSize) <= Attempted(received', durable, eraseSize)
  {
    var a := RoundDown(received - durable, eraseSize);
    DivModUnique(a, eraseSize, (received - durable) / eraseSize, 0);
    MultipleBelow(a, received' - durable, eraseSize);
  }

  // A new session over any partition the chip has some cells of.
  lemma StartsSound(view: seq<byte>, size: nat, eraseSize: nat)
    requires 0 < eraseSize && |view| <= size
    ensures Upload(view, size, [], 0, 0, eraseSize)
  {
  }

  // Erasing from the watermark on touches nothing below it, even when it fails.
  lemma EraseKeeps(view: seq<byte>, view': seq<byte>, size: nat, stream: seq<byte>, durable: nat,
                   erased: nat, desired: nat, eraseSize: nat)
    requires 0 < eraseSize && Upload(view, size, stream, durable, erased, eraseSize)
    requires SameOutside(view, view', erased, desired)
    ensures Upload(view', size, stream, durable, erased, eraseSize)
  {
    hide Attempted, Covers;
  }

  // A completed erase from the watermark on moves the watermark.
  lemma EraseAhead(view: seq<byte>, size: nat, stream: seq<byte>, durable: nat, erased: nat, desired: nat,
                   eraseSize: nat)
    requires 0 < eraseSize && Upload(view, size, stream, durable, erased, eraseSize)
    requires erased < desired <= |view| && (desired == size || desired % ERASE_BATCH == 0)
    requires desired % eraseSize == 0
    ensures Upload(Erased(view, erased, desired), size, stream, durable, desired, eraseSize)
  {
    var attempted := Attempted(|stream|, durable, eraseSize);
    var view' := Erased(view, erased, desired);
    hide Attempted, Covers;
    forall i | durable <= i < attempted && i < desired ensures Covers(view'[i], stream[i]) {
      ErasedCoversAll(stream[i]);
    }
    assert Stored(view', stream, durable, attempted, desired);
  }

  // Received bytes that are not yet written change nothing in flash.
  lemma ReceiveKeeps(view: seq<byte>, stream: seq<byte>, data: seq<byte>, durable: nat, erased: nat, eraseSize: nat)
    requires 0 < eraseSize && durable <= |stream| && erased <= |view|
    requires Stored(view, stream, durable, Attempted(|stream|, durable, eraseSize), erased)
    ensures Stored(view, stream + data, durable, Attempted(|stream + data|, durable, eraseSize), erased)
  {
    AttemptedGrows(durable, |stream|, |stream + data|, eraseSize);
    var attempted := Attempted(|stream|, durable, eraseSize);
    var attempted' := Attempted(|stream + data|, durable, eraseSize);
    hide Attempted, Covers;
    forall i | durable <= i < attempted' && i < erased ensures Covers(view[i], (stream + data)[i]) {
      if i < attempted {
        assert Covers(view[i], stream[i]);
      } else {
        ErasedCoversAll((stream + data)[i]);
      }
    }
  }

  // Programming the pending whole blocks completes them: the acknowledged prefix grows, the rest is erased.
  lemma WriteCompletes(view: seq<byte>, stream: seq<byte>, durable: nat, durable': nat, erased: nat)
    requires durable <= durable' <= |stream| && durable' <= erased <= |view|
    requires Stored(view, stream, durable, durable', erased)
    ensures Stored(Written(false, view, durable, stream[durable..durable']), stream, durable', durable', erased)
  {
    var view' := Written(false, view, durable, stream[durable..durable']);
    forall i | 0 <= i < durable' && i < erased ensures view'[i] == stream[i] {
      if i >= durable {
        CoversSurvives(view[i], stream[i], view'[i]);
      }
    }
  }

  // A write cut anywhere leaves every byte able to take its value later, and the acknowledged prefix intact.
  lemma CutWriteKeeps(view: seq<byte>, view': seq<byte>, stream: seq<byte>, durable: nat, attempted: nat, erased: nat)
    requires durable <= attempted <= |stream| && erased <= |view|
    requires Stored(view, stream, durable, attempted, erased)
    requires Torn(view, durable, stream[durable..attempted], view')
    ensures Stored(view', stream, durable, attempted, erased)
  {
    forall i | durable <= i < attempted && i < erased ensures Covers(view'[i], stream[i]) {
      CoversSurvives(view[i], stream[i], view'[i]);
      assert stream[durable..attempted][i - durable] == stream[i];
    }
  }

  lemma ViewOfFlushed(cells: seq<byte>, at: nat, bytes: seq<byte>, eraseSize: nat, writeSize: nat, part: AppPartition)
    requires 0 < writeSize
    ensures View(Flushed(false, cells, part.offset + at, bytes, eraseSize, writeSize), part)
         == Flushed(false, View(cells, part), at, bytes, eraseSize, writeSize)
  {
    hide Padded;
  }

  // Flushing the last partial block completes the image of the whole stream, up to the erase watermark.
  lemma FinishCompletes(view: seq<byte>, stream: seq<byte>, durable: nat, erased: nat, eraseSize: nat, writeSize: nat)
    requires 0 < eraseSize && 0 < writeSize && eraseSize % writeSize == 0
    requires durable % eraseSize == 0 && erased % eraseSize == 0
    requires durable <= |stream| < durable + eraseSize && |stream| <= erased <= |view|
    requires Stored(view, stream, durable, durable, erased)
    ensures var tail := stream[durable..];
      var view' := if tail == [] then view else Flushed(false, view, durable, tail, eraseSize, writeSize);
      var image := StreamImage(stream, eraseSize, writeSize);
      |image| <= erased && view'[..|image|] == image && AllErased(view', |image|, erased)
  {
    hide Padded, RoundDown, Flushed, BlockImage, StreamImage;
    ImageSplits(stream, durable, eraseSize, writeSize);
    var tail := stream[durable..];
    if tail == [] {
      assert stream[..durable] == stream;
    } else {
      DifferenceOfMultiples(erased, durable, eraseSize);
      FlushedBlock(false, view, durable, tail, eraseSize, writeSize);
      FlushedKeepsOthers(view, durable, tail, eraseSize, writeSize);
      var view' := Flushed(false, view, durable, tail, eraseSize, writeSize);
      assert view'[..durable] == stream[..durable];
      JoinSlices(view', 0, durable, durable + eraseSize);
    }
  }

  lemma FlushedKeepsOthers(cells: seq<byte>, at: nat, bytes: seq<byte>, eraseSize: nat, writeSize: nat)
    requires 0 < writeSize && |Padded(bytes, writeSize)| <= eraseSize
    ensures SameOutside(cells, Flushed(false, cells, at, bytes, eraseSize, writeSize), at, at + eraseSize)
  {
    hide Padded;
  }
}
