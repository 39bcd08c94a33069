/** The upload session that hands received bytes to the storage. The session belongs to FiBeWI,
    which is outside the repository; this is the contract its users here rely on: it keeps every
    byte it accepts, moves the durable watermark only when the storage reports success, and
    after a failure it may refuse further bytes. */
module WriteSessions {
  import opened Machine
  import opened FlashChip
  import opened ArtifactStorage

  datatype FinishError = Incomplete(durable: nat) | Rejected | Backend(error: FlashWriteError)

  // Success programs every whole block of the pending bytes and acknowledges exactly those; a
  // failure acknowledges nothing and may have cut the programming of those blocks anywhere.
  ghost predicate AppendOutcome(ok: bool, before: seq<byte>, after: seq<byte>, offset: nat, stream: seq<byte>,
                                durable: nat, durable': nat, eraseSize: nat)
    requires 0 < eraseSize && durable <= |stream|
  {
    var attempted := durable + RoundDown(|stream| - durable, eraseSize);
    if ok then durable' == attempted && after == Written(false, before, offset + durable, stream[durable..attempted])
    else durable' == durable && Torn(before, offset + durable, stream[durable..attempted], after)
  }

  lemma OutcomeOfWrite(r: Result<nat, FlashWriteError>, before: seq<byte>, after: seq<byte>, offset: nat,
                       stream: seq<byte>, durable: nat, pending: seq<byte>, eraseSize: nat)
    requires 0 < eraseSize && durable <= |stream| && pending == stream[durable..]
    requires r.Ok? ==> durable <= r.value <= durable + |pending| < r.value + eraseSize
    requires r.Ok? ==> (r.value - durable) % eraseSize == 0
    requires r.Ok? ==> after == Written(false, before, offset + durable, pending[..r.value - durable])
    requires r.Err? ==> Unfinished(false, before, offset + durable, pending[..RoundDown(|pending|, eraseSize)], after)
    ensures AppendOutcome(r.Ok?, before, after, offset, stream, durable, if r.Ok? then r.value else durable, eraseSize)
  {
    hide Written, Torn, RoundDown;
    if r.Ok? {
      RoundDownUnique(|pending|, r.value - durable, eraseSize);
      assert pending[..r.value - durable] == stream[durable..r.value];
    } else {
      var whole := RoundDown(|pending|, eraseSize);
      assert pending[..whole] == stream[durable..durable + whole];
    }
  }

  class WriteSession {
    const expected: nat
    // The verdict on a complete artifact, which depends on its digest.
    const approves: seq<byte> -> bool
    var received: nat
    var durable: nat
    var pending: seq<byte>
    var open: bool
    // All bytes received, as the digest has taken them in.
    var stream: seq<byte>

    constructor (expected: nat, approves: seq<byte> -> bool)
      requires expected < U64_RANGE
      ensures Valid() && this.expected == expected && this.approves == approves && open && stream == [] && durable == 0
    {
      this.expected, this.approves := expected, approves;
      received, durable, pending, open := 0, 0, [], true;
      stream := [];
    }

    ghost predicate Valid()
      reads this
    {
      && received == |stream| <= expected < U64_RANGE
      && durable <= received && pending == stream[durable..]
    }

    predicate CanAppend(len: nat)
      reads this
    {
      open && received + len <= expected
    }

    method Append(backend: EspArtifactStorage, data: seq<byte>) returns (ok: bool)
      requires Valid() && CanAppend(|data|) && backend.Valid() && !backend.eraseBeforeWrite
      modifies this, backend.flash, backend.scratch
      ensures old(backend.flash.faults) <= backend.flash.faults
      ensures Valid() && backend.Valid() && |backend.flash.cells| == |old(backend.flash.cells)|
      ensures stream == old(stream) + data && backend.flash.erases == old(backend.flash.erases)
      ensures AppendOutcome(ok, old(backend.flash.cells), backend.flash.cells, backend.partitionOffset, stream,
                            old(durable), durable, backend.flash.eraseSize)
      ensures old(durable) <= durable
      ensures ok ==> open && backend.flash.faults == old(backend.flash.faults)
      ensures old(durable) < durable ==> old(durable) % backend.flash.eraseSize == 0 && durable <= backend.partitionSize
      ensures SameOutside(old(backend.flash.cells), backend.flash.cells,
                          backend.partitionOffset, backend.partitionOffset + backend.partitionSize)
      ensures Confined(old(backend.flash.commands), backend.flash.commands,
                       backend.partitionOffset, backend.partitionOffset + backend.partitionSize)
      ensures Confined(old(backend.flash.commands), backend.flash.commands,
                       backend.partitionOffset + old(durable), backend.partitionOffset + |stream|)
      ensures !ok && backend.Accepts(old(durable), |stream| - old(durable), |backend.flash.cells|) ==>
                old(backend.flash.faults) < backend.flash.faults
    {
      hide Written, Torn, Unfinished, SameOutside, Confined, RoundDown, AppendOutcome;
      received := received + |data|;
      pending := pending + data;
      stream := stream + data;
      assert pending == stream[durable..];
      var r := backend.Write(durable, pending);
      ok := r.Ok?;
      OutcomeOfWrite(r, old(backend.flash.cells), backend.flash.cells, backend.partitionOffset, stream, durable,
                     pending, backend.flash.eraseSize);
      if r.Ok? {
        pending := pending[r.value - durable..];
        durable := r.value;
      } else {
        open := *;
      }
    }

    // Flushes what is left and reports the size of the artifact, or why it is not one.
    method Finish(backend: EspArtifactStorage) returns (r: Result<nat, FinishError>)
      requires Valid() && backend.Valid() && !backend.eraseBeforeWrite
      modifies this, backend.flash, backend.scratch
      ensures old(backend.flash.faults) <= backend.flash.faults
      ensures backend.Valid() && |backend.flash.cells| == |old(backend.flash.cells)|
      ensures stream == old(stream) && backend.flash.erases == old(backend.flash.erases)
      ensures r.Ok? ==> r.value == |stream| == expected && |stream| - old(durable) < backend.flash.eraseSize
      ensures (r.Err? && r.error.Incomplete?) <==> |stream| != expected
      // a complete artifact is judged by its bytes alone
      ensures r.Ok? ==> approves(stream)
      ensures r == Err(Rejected) ==> |stream| == expected && !approves(stream)
      ensures |stream| != expected ==>
                r == Err(Incomplete(old(durable))) && backend.flash.cells == old(backend.flash.cells)
      ensures r.Ok? && old(durable) == |stream| ==> backend.flash.cells == old(backend.flash.cells)
      ensures r.Ok? && old(durable) < |stream| ==>
                backend.flash.cells == Flushed(false, old(backend.flash.cells), backend.partitionOffset + old(durable),
                                               stream[old(durable)..], backend.flash.eraseSize, backend.flash.writeSize)
      ensures SameOutside(old(backend.flash.cells), backend.flash.cells,
                          backend.partitionOffset + old(durable),
                          backend.partitionOffset + old(durable) + backend.flash.eraseSize)
      ensures SameOutside(old(backend.flash.cells), backend.flash.cells,
                          backend.partitionOffset, backend.partitionOffset + backend.partitionSize)
      ensures Confined(old(backend.flash.commands), backend.flash.commands,
                       backend.partitionOffset, backend.partitionOffset + backend.partitionSize)
      ensures Confined(old(backend.flash.commands), backend.flash.commands,
                       backend.partitionOffset + old(durable),
                       backend.partitionOffset + old(durable) + backend.flash.eraseSize)
      ensures old(durable) == |stream| ==> backend.flash.commands == old(backend.flash.commands)
      ensures old(durable) == |stream| ==> r.Ok? || !r.error.Backend?
      ensures |stream| - old(durable) < backend.flash.eraseSize ==>
                backend.Accepts(old(durable), backend.flash.eraseSize, |backend.flash.cells|) ==>
                  r.Ok? || !r.error.Backend? || old(backend.flash.faults) < backend.flash.faults
    {
      hide Flushed, SameOutside, Confined;
      UntouchedOutside(backend.flash.cells, backend.partitionOffset, backend.partitionOffset + backend.partitionSize);
      UntouchedOutside(backend.flash.cells, backend.partitionOffset + durable,
                       backend.partitionOffset + durable + backend.flash.eraseSize);
      NoCommandsConfined(backend.flash.commands, backend.partitionOffset,
                         backend.partitionOffset + backend.partitionSize);
      NoCommandsConfined(backend.flash.commands, backend.partitionOffset + durable,
                         backend.partitionOffset + durable + backend.flash.eraseSize);
      if received != expected {
        return Err(Incomplete(durable));
      }
      var flushed := backend.Finish(durable, pending);
      if flushed.Err? {
        return Err(Backend(flushed.error));
      }
      r := if approves(stream) then Ok(flushed.value) else Err(Rejected);
    }
  }

  // The one multiple of the block size that leaves less than a block.
  lemma RoundDownUnique(n: nat, r: nat, m: nat)
    requires 0 < m && r <= n < r + m && r % m == 0
    ensures RoundDown(n, m) == r
  {
    DivModUnique(n, m, r / m, n - r);
  }
}
