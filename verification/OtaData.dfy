/** The `otadata` adapter: reading the two entries, choosing from them, and executing one entry
    update through the `NorFlash` driver (adapters/ota/src/otadata.rs). */
module OtaData {
  import opened Machine
  import opened FlashChip
  import opened BootEntries
  import opened EntryUpdate
  import opened ArtifactStorage

  datatype Error = Unavailable | NoTransition | Verify

  // What lies outside the repository: the partition-table parser, which finds the `otadata`
  // partition and the application partitions in a flash image, and FiBeWI's slot numbering.
  datatype Platform = Platform(
    otadataBase: seq<byte> -> Option<nat>,
    appPartition: (seq<byte>, AppSlot) -> Option<AppPartition>,
    slotOf: u32 -> nat,
    valid: u32,
    pendingVerify: u32)

  const SLOT_COUNT: nat := 2

  // ---------------------------------------------------------------- choosing from the entries

  function Decoded(codec: Codec, entries: seq<seq<byte>>): (r: seq<Option<Entry>>)
    ensures |r| == |entries|
  {
    seq(|entries|, i requires 0 <= i < |entries| => codec.decode(entries[i]))
  }

  // The entry with the greatest sequence number; the later sector wins a tie (`boot_entry`).
  function Newest(found: seq<Option<Entry>>): Option<Entry> {
    if found == [] then None
    else
      var rest := Newest(found[..|found| - 1]);
      match found[|found| - 1]
      case None => rest
      case Some(e) => if rest.Some? && rest.value.seqNo > e.seqNo then rest else Some(e)
  }

  // Entry `i` decodes, no entry has a greater sequence number, and no later one has the same.
  ghost predicate LastMaximum(found: seq<Option<Entry>>, i: nat) {
    && i < |found| && found[i].Some?
    && forall j :: 0 <= j < |found| && found[j].Some? ==>
         found[j].value.seqNo <= found[i].value.seqNo && (i < j ==> found[j].value.seqNo < found[i].value.seqNo)
  }

  lemma {:induction false} NewestIsLastMaximum(found: seq<Option<Entry>>) returns (i: nat)
    ensures Newest(found).None? ==> forall j :: 0 <= j < |found| ==> found[j].None?
    ensures Newest(found).Some? ==> LastMaximum(found, i) && found[i] == Newest(found)
  {
    i := 0;
    if found == [] {
    } else {
      var front, k := found[..|found| - 1], |found| - 1;
      i := NewestIsLastMaximum(front);
      assert forall j :: 0 <= j < k ==> front[j] == found[j];
      if found[k].Some? && Newest(found) == found[k] &&
          !(Newest(front).Some? && Newest(front).value.seqNo > found[k].value.seqNo) {
        i := k;
      }
    }
  }

  // The running image's entries are those marked valid or pending verification.
  predicate Running(p: Platform, e: Option<Entry>) {
    e.Some? && (e.value.state == p.valid || e.value.state == p.pendingVerify)
  }

  // The entries `write_target` considers: the others count as absent.
  function RunningOnly(p: Platform, found: seq<Option<Entry>>): (r: seq<Option<Entry>>)
    ensures |r| == |found|
  {
    seq(|found|, i requires 0 <= i < |found| => if Running(p, found[i]) then found[i] else None)
  }

  // The slot that is not the one of the newest running entry.
  function TargetSlot(p: Platform, found: seq<Option<Entry>>): Option<AppSlot> {
    match Newest(RunningOnly(p, found))
    case None => None
    case Some(e) =>
      var slot := p.slotOf(e.seqNo);
      if slot == 0 then Some(Ota1) else if slot == 1 then Some(Ota0) else None
  }

  // The slot other than the one a sequence number runs from.
  function OtherSlot(slot: nat): Option<AppSlot> {
    match slot
    case 0 => Some(Ota1)
    case 1 => Some(Ota0)
    case _ => None
  }

  // Entry `e` is marked valid or pending verification.
  predicate Marked(p: Platform, e: Option<Entry>) {
    e.Some? && (e.value.state == p.valid || e.value.state == p.pendingVerify)
  }

  // The target is decided by these entries and no others: it is the slot that one with the greatest
  // sequence number does not run from, if that numbers one of the two slots.
  lemma TargetAvoidsRunningSlot(p: Platform, found: seq<Option<Entry>>, i: nat)
    requires i < |found| && Marked(p, found[i])
    requires forall j :: 0 <= j < |found| && Marked(p, found[j]) ==> found[j].value.seqNo <= found[i].value.seqNo
    ensures TargetSlot(p, found) == OtherSlot(p.slotOf(found[i].value.seqNo))
  {
    var only := RunningOnly(p, found);
    var m := NewestIsLastMaximum(only);
    assert only[i] == found[i];
    assert LastMaximum(only, m) && only[m] == found[m] && Marked(p, found[m]);
    hide Newest;
  }

  lemma NoMarkedNoTarget(p: Platform, found: seq<Option<Entry>>)
    requires forall j :: 0 <= j < |found| ==> !Marked(p, found[j])
    ensures TargetSlot(p, found) == None
  {
    var only := RunningOnly(p, found);
    var m := NewestIsLastMaximum(only);
    assert forall k :: 0 <= k < |only| ==> only[k].None?;
    hide Newest;
  }

  function EntriesAt(codec: Codec, cells: seq<byte>, base: nat): seq<seq<byte>>
    requires codec.entrySize <= SECTOR_SIZE && base + SECTOR_SIZE + codec.entrySize <= |cells|
  {
    [EntryAt(codec, cells, base), EntryAt(codec, cells, base + SECTOR_SIZE)]
  }

  // What one of the two sectors decodes to.
  function FoundAt(codec: Codec, cells: seq<byte>, base: nat, sector: nat): Option<Entry>
    requires sector < SLOT_COUNT && base + 2 * SECTOR_SIZE <= |cells| && codec.entrySize <= SECTOR_SIZE
  {
    codec.decode(EntryAt(codec, cells, base + sector * SECTOR_SIZE))
  }

  // The newest of the two entries in flash.
  function NewestEntry(codec: Codec, cells: seq<byte>, base: nat): Option<Entry>
    requires base + 2 * SECTOR_SIZE <= |cells| && codec.entrySize <= SECTOR_SIZE
  {
    Newest([FoundAt(codec, cells, base, 0), FoundAt(codec, cells, base, 1)])
  }

  // A written entry is newer than what the other sector holds: there is nothing, or an entry with a
  // smaller sequence number, or an equal one in the earlier sector.
  predicate Supersedes(w: Write, other: Option<Entry>) {
    other.Some? ==>
      other.value.seqNo < w.entry.seqNo || (other.value.seqNo == w.entry.seqNo && w.sector == 1)
  }

  // An update leaves what the other sector holds the newest until its own entry decodes, and switches
  // to it in that instant if it supersedes the other one. So wherever the update is stopped after its
  // erase, the newest entry is one of these two, on a first boot none or the new one.
  lemma AtomicSwitch(codec: Codec, w: Write, base: nat, run: seq<State>, i: nat)
    requires codec.Lawful() && w.sector < SLOT_COUNT && i < |run|
    requires Run(codec, w, base + w.sector * SECTOR_SIZE, run) && base + 2 * SECTOR_SIZE <= |run[0].cells|
    requires !run[i].stage.Untouched? && !run[i].stage.Erasing?
    ensures |run[i].cells| == |run[0].cells|
    ensures var found := FoundAt(codec, run[i].cells, base, w.sector);
      var other := FoundAt(codec, run[0].cells, base, 1 - w.sector);
      && (found == None || found == Some(w.entry)) && (run[i].stage.Committed? ==> found == Some(w.entry))
      && NewestEntry(codec, run[i].cells, base) ==
         if found == Some(w.entry) && Supersedes(w, other) then Some(w.entry) else other
  {
    hide Run, Codec.Lawful, FoundAt, NewestEntry, EntryAt, SameOutside, Supersedes;
    LawfulSize(codec);
    CutSafety(codec, w, base + w.sector * SECTOR_SIZE, run, i);
    OtherSectorKept(codec, run[0].cells, run[i].cells, base, w.sector);
    SwitchOfTwo(codec, run[i].cells, base, w, FoundAt(codec, run[0].cells, base, 1 - w.sector));
  }

  lemma LawfulSize(codec: Codec)
    requires codec.Lawful()
    ensures codec.entrySize <= SECTOR_SIZE
  {
  }

  lemma OtherSectorKept(codec: Codec, before: seq<byte>, after: seq<byte>, base: nat, sector: nat)
    requires sector < SLOT_COUNT && codec.entrySize <= SECTOR_SIZE && base + 2 * SECTOR_SIZE <= |before|
    requires SameOutside(before, after, base + sector * SECTOR_SIZE, base + sector * SECTOR_SIZE + SECTOR_SIZE)
    ensures |after| == |before|
    ensures FoundAt(codec, after, base, 1 - sector) == FoundAt(codec, before, base, 1 - sector)
    ensures FoundAt(codec, after, base, sector) == codec.decode(EntryAt(codec, after, base + sector * SECTOR_SIZE))
  {
    OtherEntryKept(codec, before, after, base + sector * SECTOR_SIZE, base + (1 - sector) * SECTOR_SIZE);
  }

  lemma SwitchOfTwo(codec: Codec, cells: seq<byte>, base: nat, w: Write, other: Option<Entry>)
    requires w.sector < SLOT_COUNT && base + 2 * SECTOR_SIZE <= |cells| && codec.entrySize <= SECTOR_SIZE
    requires FoundAt(codec, cells, base, 1 - w.sector) == other
    requires FoundAt(codec, cells, base, w.sector) == None || FoundAt(codec, cells, base, w.sector) == Some(w.entry)
    ensures NewestEntry(codec, cells, base) ==
      if FoundAt(codec, cells, base, w.sector) == Some(w.entry) && Supersedes(w, other) then Some(w.entry)
      else other
  {
    hide FoundAt, Newest;
    NewestOfTwo(FoundAt(codec, cells, base, 0), FoundAt(codec, cells, base, 1));
  }

  lemma NewestOfTwo(a: Option<Entry>, b: Option<Entry>)
    ensures Newest([a, b]) ==
      if a.None? then b
      else if b.None? then a
      else if a.value.seqNo > b.value.seqNo then a else b
  {
    assert [a, b][..1] == [a];
    assert [a][..0] == [];
    assert Newest([]) == None;
    assert Newest([a]) == a;
  }

  lemma OtherEntryKept(codec: Codec, before: seq<byte>, after: seq<byte>, target: nat, other: nat)
    requires SameOutside(before, after, target, target + SECTOR_SIZE)
    requires codec.entrySize <= SECTOR_SIZE && (other + SECTOR_SIZE <= target || target + SECTOR_SIZE <= other)
    requires other + codec.entrySize <= |before|
    ensures |after| == |before| && EntryAt(codec, after, other) == EntryAt(codec, before, other)
  {
  }

  // ---------------------------------------------------------------- reading the entries

  // Parsing the table reads the flash, so it may also fail through the hardware.
  method LocateOtadata(chip: Chip, p: Platform) returns (base: Option<nat>)
    modifies chip`faults
    ensures old(chip.faults) <= chip.faults
    ensures base.Some? ==> base == p.otadataBase(chip.cells) && chip.faults == old(chip.faults)
    ensures base.None? ==> p.otadataBase(chip.cells).None? || old(chip.faults) < chip.faults
  {
    var ok: bool := *;
    if !ok {
      chip.faults := chip.faults + 1;
      return None;
    }
    base := p.otadataBase(chip.cells);
  }

  // Both entries can be read in whole read units.
  ghost predicate Readable(codec: Codec, base: nat, capacity: nat, readSize: nat)
    requires 0 < readSize
  {
    && base % readSize == 0 && SECTOR_SIZE % readSize == 0 && codec.entrySize % readSize == 0
    && base + SECTOR_SIZE + codec.entrySize <= capacity
  }

  lemma ReadableSectors(codec: Codec, base: nat, chip: Chip)
    requires chip.Valid() && Readable(codec, base, |chip.cells|, chip.readSize)
    ensures chip.ReadFits(base, codec.entrySize) && chip.ReadFits(base + SECTOR_SIZE, codec.entrySize)
  {
    SumOfMultiples(base, SECTOR_SIZE, chip.readSize);
  }

  // Fills `raw` with the entry at `at`.
  method ReadEntry(chip: Chip, codec: Codec, at: nat, raw: array<byte>) returns (ok: bool)
    requires chip.Valid() && raw.Length == codec.entrySize
    modifies chip`faults, raw
    ensures ok ==> at + codec.entrySize <= |chip.cells| && raw[..] == EntryAt(codec, chip.cells, at)
    ensures ok ==> chip.faults == old(chip.faults)
    ensures old(chip.faults) <= chip.faults
    ensures chip.ReadFits(at, codec.entrySize) ==> ok || old(chip.faults) < chip.faults
  {
    ok := chip.Read(at, raw, codec.entrySize);
  }

  method ReadAt(chip: Chip, p: Platform, codec: Codec) returns (r: Result<(nat, seq<seq<byte>>), Error>)
    requires chip.Valid() && codec.entrySize <= SECTOR_SIZE
    modifies chip`faults
    ensures old(chip.faults) <= chip.faults
    ensures r.Ok? ==> p.otadataBase(chip.cells) == Some(r.value.0) && chip.faults == old(chip.faults)
    ensures r.Ok? ==> r.value.0 + SECTOR_SIZE + codec.entrySize <= |chip.cells| &&
                      r.value.1 == EntriesAt(codec, chip.cells, r.value.0)
    ensures r.Err? ==> r.error == Unavailable
    ensures r.Err? && p.otadataBase(chip.cells).Some? ==>
              Readable(codec, p.otadataBase(chip.cells).value, |chip.cells|, chip.readSize) ==>
                  old(chip.faults) < chip.faults
  {
    hide Readable, EntryAt;
    var located := LocateOtadata(chip, p);
    if located.None? {
      return Err(Unavailable);
    }
    var base := located.value;
    if Readable(codec, base, |chip.cells|, chip.readSize) {
      ReadableSectors(codec, base, chip);
    }
    var entries: seq<seq<byte>> := [];
    for i := 0 to SLOT_COUNT
      invariant chip.faults == old(chip.faults) && |entries| == i
      invariant forall k :: 0 <= k < i ==> base + k * SECTOR_SIZE + codec.entrySize <= |chip.cells|
      invariant forall k :: 0 <= k < i ==> entries[k] == EntryAt(codec, chip.cells, base + k * SECTOR_SIZE)
    {
      var raw := new byte[codec.entrySize](_ => ERASED);
      var ok := ReadEntry(chip, codec, base + i * SECTOR_SIZE, raw);
      if !ok {
        return Err(Unavailable);
      }
      entries := entries + [raw[..]];
    }
    assert entries[1] == EntryAt(codec, chip.cells, base + 1 * SECTOR_SIZE);
    r := Ok((base, entries));
  }

  // ---------------------------------------------------------------- executing an update

  // Where both drivers accept the commands of an update: a sector of the chip, in whole read units.
  ghost predicate Placed(codec: Codec, base: nat, chip: Chip, capacity: nat) {
    && 0 < chip.readSize && chip.writeSize == 4 && base % SECTOR_SIZE == 0 && base + SECTOR_SIZE <= capacity
    && SECTOR_SIZE % chip.readSize == 0 && codec.entrySize % chip.readSize == 0
  }

  lemma PlacedFits(codec: Codec, base: nat, chip: Chip)
    requires chip.Valid() && chip.eraseSize == SECTOR_SIZE && codec.entrySize <= SECTOR_SIZE &&
             Placed(codec, base, chip, |chip.cells|)
    ensures chip.EraseFits(base, base + SECTOR_SIZE) && chip.ReadFits(base, codec.entrySize)
    ensures forall at: nat, len: nat :: chip.ProgramFits(at, len) <==> WholeWords(at, len, |chip.cells|)
  {
    MultipleOfMultiple(base, SECTOR_SIZE, chip.readSize);
  }

  lemma StageOf(run: seq<State>)
    ensures forall stage :: Reached(run, stage) <==> run != [] && stage == run[|run| - 1].stage
  {
  }

  // First step: after success the sector is erased and its entry reads blank.
  method EraseSector(chip: Chip, codec: Codec, w: Write, base: nat, back: array<byte>)
    returns (ok: bool, ghost run: seq<State>)
    requires chip.Valid() && chip.eraseSize == SECTOR_SIZE && back.Length == codec.entrySize <= SECTOR_SIZE
    modifies chip, back
    ensures chip.Valid() && |chip.cells| == |old(chip.cells)| && old(chip.faults) <= chip.faults
    ensures Record(codec, w, base, run, old(chip.cells), chip.cells)
    ensures Reached(run, Untouched) || Reached(run, Erasing) || Reached(run, Erased)
    // the log tells whether the sector was erased; if it was, it holds nothing of value any more
    ensures chip.erases == old(chip.erases) + (if Reached(run, Erased) then [Range(base, base + SECTOR_SIZE)] else [])
    ensures old(chip.contents) <= chip.contents
    ensures codec.Lawful() ==> Guarded(codec, w, base, old(chip.cells), chip.contents, |old(chip.contents)|, chip.cells,
                                       Reached(run, Erased))
    ensures ok ==> Reached(run, Erased) && base + SECTOR_SIZE <= |chip.cells|
    ensures ok ==> EntryAt(codec, chip.cells, base) == Blank(codec.entrySize)
    ensures chip.faults == old(chip.faults) && Placed(codec, base, chip, |chip.cells|) ==>
      Outcome(codec, w, base, old(chip.cells)) == if ok then BodyOutcome(codec, w, base, chip.cells)
          else (false, chip.cells)
  {
    hide FlashChip.Erased, EntryAt, Blank, Record, Reached, SameOutside, Placed, BodyOutcome, Instant, Guarded,
        Codec.Lawful;
    ghost var before := chip.cells;
    run := [State(Untouched, before)];
    RecordStarts(codec, w, base, before);
    StageOf(run);
    UntouchedOutside(before, base, base + SECTOR_SIZE);
    EraseGuarded(codec, w, base, before, chip.contents, chip.contents, before, false);
    if Placed(codec, base, chip, |chip.cells|) {
      PlacedFits(codec, base, chip);
    }
    if !codec.ops(w).erase.Erase? {
      return false, run;
    }
    ok := chip.Erase(base, base + SECTOR_SIZE);
    EraseIsStep(codec, w, base, run, before, chip.cells, ok);
    LengthKept(before, chip.cells, base, base + SECTOR_SIZE);
    run := run + [State(if ok then Erased else Erasing, chip.cells)];
    StageOf(run);
    EraseGuarded(codec, w, base, before, old(chip.contents), chip.contents, chip.cells, ok);
    if !ok {
      return;
    }
    ok := ReadEntry(chip, codec, base, back);
    if ok {
      ok := back[..] == Blank(codec.entrySize);
    }
  }

  // Issues one program command of an update.
  method ProgramOp(chip: Chip, codec: Codec, base: nat, op: Op) returns (ok: bool)
    requires chip.Valid() && chip.eraseSize == SECTOR_SIZE && codec.entrySize <= SECTOR_SIZE && op.Program?
    modifies chip
    ensures chip.Valid() && |chip.cells| == |old(chip.cells)| && old(chip.faults) <= chip.faults
    ensures ok ==> chip.cells == Programmed(old(chip.cells), base + op.offset, op.data)
    ensures Torn(old(chip.cells), base + op.offset, op.data, chip.cells)
    ensures chip.erases == old(chip.erases)
    ensures chip.contents == old(chip.contents) || chip.contents == old(chip.contents) + [chip.cells]
    // without a fault it succeeds exactly where both drivers accept the command, or does nothing
    ensures chip.faults == old(chip.faults) && Placed(codec, base, chip, |chip.cells|) ==>
              ok == WholeWords(base + op.offset, |op.data|, |chip.cells|)
    ensures chip.faults == old(chip.faults) && !ok ==> chip.cells == old(chip.cells)
  {
    hide Programmed, Torn, Placed, WholeWords, Chip.ProgramFits;
    if Placed(codec, base, chip, |chip.cells|) {
      PlacedFits(codec, base, chip);
    }
    ok := chip.Write(base + op.offset, op.data);
    TornKeepsLength(old(chip.cells), base + op.offset, op.data, chip.cells);
  }

  lemma PlacedReads(codec: Codec, base: nat, chip: Chip)
    requires chip.Valid() && chip.eraseSize == SECTOR_SIZE && codec.entrySize <= SECTOR_SIZE
    ensures Placed(codec, base, chip, |chip.cells|) ==> chip.ReadFits(base, codec.entrySize)
  {
    if Placed(codec, base, chip, |chip.cells|) {
      PlacedFits(codec, base, chip);
    }
  }

  // Second step: after success the entry reads as a body without a commit word.
  method ProgramBody(chip: Chip, codec: Codec, w: Write, base: nat, back: array<byte>, ghost before: seq<byte>,
                     ghost run0: seq<State>)
    returns (ok: bool, ghost run: seq<State>)
    requires chip.Valid() && chip.eraseSize == SECTOR_SIZE && back.Length == codec.entrySize <= SECTOR_SIZE
    requires Record(codec, w, base, run0, before, chip.cells) && Reached(run0, Erased)
    requires base + SECTOR_SIZE <= |chip.cells| && EntryAt(codec, chip.cells, base) == Blank(codec.entrySize)
    modifies chip, back
    ensures chip.Valid() && |chip.cells| == |old(chip.cells)| && old(chip.faults) <= chip.faults
    ensures Record(codec, w, base, run, before, chip.cells) && run0 <= run
    ensures Reached(run, Erased) || Reached(run, ProgrammingBody) || Reached(run, BodyWritten)
    ensures chip.erases == old(chip.erases) && old(chip.contents) <= chip.contents
    ensures codec.Lawful() ==>
              Guarded(codec, w, base, old(chip.cells), chip.contents, |old(chip.contents)|, chip.cells, true)
    ensures ok ==> Reached(run, BodyWritten) && EntryAt(codec, chip.cells, base) == codec.body(w.entry)
    ensures chip.faults == old(chip.faults) && Placed(codec, base, chip, |chip.cells|) ==>
      BodyOutcome(codec, w, base, old(chip.cells)) == if ok then CommitOutcome(codec, w, base, chip.cells)
          else (false, chip.cells)
  {
    hide Programmed, Torn, EntryAt, Blank, Record, Reached, Placed, CommitOutcome, WholeWords, Chip.ReadFits,
        Instant, Guarded, Codec.Lawful;
    run := run0;
    UntouchedGuarded(codec, w, base, chip.cells, chip.contents);
    var body := codec.ops(w).body;
    if !body.Program? {
      return false, run;
    }
    ghost var mid := chip.cells;
    ok := ProgramOp(chip, codec, base, body);
    PlacedReads(codec, base, chip);
    BodyIsStep(codec, w, base, run0, before, mid, chip.cells, ok);
    run := run + [State(if ok then BodyWritten else ProgrammingBody, chip.cells)];
    StageOf(run);
    BodyGuarded(codec, w, base, mid, old(chip.contents), chip.contents, chip.cells);
    if !ok {
      return;
    }
    ok := ReadEntry(chip, codec, base, back);
    if ok {
      ok := back[..] == codec.body(w.entry);
    }
  }

  // Last step: after success the entry's bytes are its full encoding, and they decode to it.
  method ProgramCommit(chip: Chip, codec: Codec, w: Write, base: nat, back: array<byte>, ghost before: seq<byte>,
                       ghost run0: seq<State>)
    returns (ok: bool, ghost run: seq<State>)
    requires chip.Valid() && chip.eraseSize == SECTOR_SIZE && back.Length == codec.entrySize <= SECTOR_SIZE
    requires Record(codec, w, base, run0, before, chip.cells) && Reached(run0, BodyWritten)
    requires base + SECTOR_SIZE <= |chip.cells| && EntryAt(codec, chip.cells, base) == codec.body(w.entry)
    modifies chip, back
    ensures chip.Valid() && |chip.cells| == |old(chip.cells)| && old(chip.faults) <= chip.faults
    ensures Record(codec, w, base, run, before, chip.cells) && run0 <= run
    ensures Reached(run, BodyWritten) || Reached(run, Committing) || Reached(run, Committed)
    ensures chip.erases == old(chip.erases) && old(chip.contents) <= chip.contents
    ensures codec.Lawful() ==>
              Guarded(codec, w, base, old(chip.cells), chip.contents, |old(chip.contents)|, chip.cells, true)
    ensures ok ==> Reached(run, Committed) && EntryAt(codec, chip.cells, base) == codec.encode(w.entry)
    ensures ok ==> codec.decode(EntryAt(codec, chip.cells, base)) == Some(w.entry)
    ensures chip.faults == old(chip.faults) && Placed(codec, base, chip, |chip.cells|) ==>
              CommitOutcome(codec, w, base, old(chip.cells)) == (ok, chip.cells)
  {
    hide Programmed, Torn, EntryAt, Blank, Record, Reached, Placed, WholeWords, Chip.ReadFits,
        Instant, Guarded, Codec.Lawful, CommitOutcome;
    run := run0;
    CommitOutcomeIs(codec, w, base, chip.cells);
    UntouchedGuarded(codec, w, base, chip.cells, chip.contents);
    var commit := codec.ops(w).commit;
    if !commit.Program? {
      return false, run;
    }
    ghost var mid := chip.cells;
    ok := ProgramOp(chip, codec, base, commit);
    PlacedReads(codec, base, chip);
    CommitIsStep(codec, w, base, run0, before, mid, chip.cells, ok);
    run := run + [State(if ok then Committed else Committing, chip.cells)];
    StageOf(run);
    CommitGuarded(codec, w, base, mid, old(chip.contents), chip.contents, chip.cells);
    if !ok {
      return;
    }
    ok := ReadEntry(chip, codec, base, back);
    if ok {
      ok := back[..] == codec.encode(w.entry) && codec.decode(back[..]) == Some(w.entry);
    }
  }

  // Success means the sector holds and decodes to the new entry; whatever fails, the flash is one the
  // step machine can reach.
  method Execute(chip: Chip, p: Platform, codec: Codec, w: Write)
    returns (r: Result<(), Error>, ghost base: nat, ghost run: seq<State>)
    requires chip.Valid() && chip.eraseSize == SECTOR_SIZE && codec.entrySize <= SECTOR_SIZE && w.sector < SLOT_COUNT
    modifies chip
    ensures old(chip.faults) <= chip.faults
    ensures chip.Valid() && |chip.cells| == |old(chip.cells)|
    ensures run == [] ==> r == Err(Unavailable) && chip.cells == old(chip.cells)
    ensures run == [] ==> (p.otadataBase(chip.cells).Some? ==>
              Readable(codec, p.otadataBase(chip.cells).value, |chip.cells|, chip.readSize) ==>
                  old(chip.faults) < chip.faults)
    ensures run != [] ==> p.otadataBase(old(chip.cells)).Some? && (r.Ok? || r.error == Verify)
    ensures run != [] ==> base == p.otadataBase(old(chip.cells)).value + w.sector * SECTOR_SIZE
    ensures run != [] ==> Record(codec, w, base, run, old(chip.cells), chip.cells)
    // at every instant, and in the flash that is left: the rest is as before, and once the log shows the
    // sector erased it decodes to nothing or to the new entry
    ensures chip.erases == old(chip.erases) || chip.erases == old(chip.erases) + [Range(base, base + SECTOR_SIZE)]
    ensures old(chip.contents) <= chip.contents
    ensures run == [] ==> chip.erases == old(chip.erases) && chip.contents == old(chip.contents)
    ensures run != [] && codec.Lawful() ==>
              Guarded(codec, w, base, old(chip.cells), chip.contents, |old(chip.contents)|, chip.cells,
                      chip.erases != old(chip.erases))
    ensures r.Ok? ==> Reached(run, Committed) && base + SECTOR_SIZE <= |chip.cells|
    ensures r.Ok? ==> EntryAt(codec, chip.cells, base) == codec.encode(w.entry)
    ensures r.Ok? ==> codec.decode(EntryAt(codec, chip.cells, base)) == Some(w.entry)
    ensures run != [] && chip.faults == old(chip.faults) && Placed(codec, base, chip, |chip.cells|) ==>
              Outcome(codec, w, base, old(chip.cells)) == (r.Ok?, chip.cells)
  {
    hide FlashChip.Erased, Programmed, Torn, EntryAt, Blank, Record, Reached, Placed, Readable, Outcome, BodyOutcome,
        CommitOutcome, Guarded, Codec.Lawful;
    ghost var before := chip.cells;
    base, run := 0, [];
    var located := ReadAt(chip, p, codec);
    if located.Err? {
      return Err(Unavailable), base, run;
    }
    var at := located.value.0 + w.sector * SECTOR_SIZE;
    base := at;
    var back := new byte[codec.entrySize](_ => 0);
    var ok;
    ok, run := EraseSector(chip, codec, w, at, back);
    RecordNotEmpty(codec, w, at, run, before, chip.cells);
    if !ok {
      return Err(Verify), base, run;
    }
    ghost var mid, log := chip.cells, chip.contents;
    ok, run := ProgramBody(chip, codec, w, at, back, before, run);
    if codec.Lawful() {
      GuardedJoin(codec, w, at, before, mid, log, chip.contents, |old(chip.contents)|, chip.cells, true);
    }
    RecordNotEmpty(codec, w, at, run, before, chip.cells);
    if !ok {
      return Err(Verify), base, run;
    }
    mid, log := chip.cells, chip.contents;
    ok, run := ProgramCommit(chip, codec, w, at, back, before, run);
    if codec.Lawful() {
      GuardedJoin(codec, w, at, before, mid, log, chip.contents, |old(chip.contents)|, chip.cells, true);
    }
    RecordNotEmpty(codec, w, at, run, before, chip.cells);
    r := if ok then Ok(()) else Err(Verify);
  }

  lemma RecordNotEmpty(codec: Codec, w: Write, base: nat, run: seq<State>, before: seq<byte>, after: seq<byte>)
    requires Record(codec, w, base, run, before, after)
    ensures run != []
  {
  }

  // ---------------------------------------------------------------- the operations

  method LocateApp(chip: Chip, p: Platform, slot: AppSlot) returns (part: Option<AppPartition>)
    modifies chip`faults
    ensures old(chip.faults) <= chip.faults
    ensures part.Some? ==> part == p.appPartition(chip.cells, slot) && chip.faults == old(chip.faults)
    ensures part.None? ==> p.appPartition(chip.cells, slot).None? || old(chip.faults) < chip.faults
  {
    var ok: bool := *;
    if !ok {
      chip.faults := chip.faults + 1;
      return None;
    }
    part := p.appPartition(chip.cells, slot);
  }

  // The partition of the slot the newest running entry does not run from.
  ghost function UploadTarget(p: Platform, codec: Codec, cells: seq<byte>): Option<AppPartition>
    requires codec.entrySize <= SECTOR_SIZE
  {
    match p.otadataBase(cells)
    case None => None
    case Some(base) =>
      if base + SECTOR_SIZE + codec.entrySize > |cells| then None
      else
        match TargetSlot(p, Decoded(codec, EntriesAt(codec, cells, base)))
        case None => None
        case Some(slot) => p.appPartition(cells, slot)
  }

  // `target` is the partition of the slot that the newest of the two stored entries marked valid or
  // pending verification does not run from.
  ghost predicate PicksTarget(p: Platform, codec: Codec, cells: seq<byte>, base: nat, target: Option<AppPartition>)
    requires base + 0x1000 + codec.entrySize <= |cells|
  {
    var first := codec.decode(cells[base..base + codec.entrySize]);
    var second := codec.decode(cells[base + 0x1000..base + 0x1000 + codec.entrySize]);
    && (!Marked(p, first) && !Marked(p, second) ==> target == None)
    && (Marked(p, first) && (Marked(p, second) ==> second.value.seqNo <= first.value.seqNo) ==>
          target == Avoiding(p, cells, first.value))
    && (Marked(p, second) && (Marked(p, first) ==> first.value.seqNo <= second.value.seqNo) ==>
          target == Avoiding(p, cells, second.value))
  }

  // The partition of the slot that does not run with entry `e`.
  ghost function Avoiding(p: Platform, cells: seq<byte>, e: Entry): Option<AppPartition> {
    if p.slotOf(e.seqNo) == 0 then p.appPartition(cells, Ota1)
    else if p.slotOf(e.seqNo) == 1 then p.appPartition(cells, Ota0)
    else None
  }

  lemma UploadTargetIs(p: Platform, codec: Codec, cells: seq<byte>)
    requires codec.entrySize <= SECTOR_SIZE && p.otadataBase(cells).Some?
    requires p.otadataBase(cells).value + 0x1000 + codec.entrySize <= |cells|
    ensures PicksTarget(p, codec, cells, p.otadataBase(cells).value, UploadTarget(p, codec, cells))
  {
    var base := p.otadataBase(cells).value;
    var found := Decoded(codec, EntriesAt(codec, cells, base));
    assert found[0] == codec.decode(cells[base..base + codec.entrySize]);
    assert found[1] == codec.decode(cells[base + 0x1000..base + 0x1000 + codec.entrySize]);
    hide TargetSlot, Decoded;
    if !Marked(p, found[0]) && !Marked(p, found[1]) {
      NoMarkedNoTarget(p, found);
    }
    if Marked(p, found[0]) && (Marked(p, found[1]) ==> found[1].value.seqNo <= found[0].value.seqNo) {
      TargetAvoidsRunningSlot(p, found, 0);
    }
    if Marked(p, found[1]) && (Marked(p, found[0]) ==> found[0].value.seqNo <= found[1].value.seqNo) {
      TargetAvoidsRunningSlot(p, found, 1);
    }
  }

  // The partition to upload to: the application slot the newest running entry does not run from.
  method WriteTarget(chip: Chip, p: Platform, codec: Codec) returns (r: Result<AppPartition, Error>)
    requires chip.Valid() && codec.entrySize <= SECTOR_SIZE
    modifies chip`faults
    ensures old(chip.faults) <= chip.faults
    ensures r.Err? ==> r.error == Unavailable
    ensures r.Ok? ==> p.otadataBase(chip.cells).Some? &&
                      p.otadataBase(chip.cells).value + SECTOR_SIZE + codec.entrySize <= |chip.cells|
    ensures r.Ok? ==>
      var slot := TargetSlot(p, Decoded(codec, EntriesAt(codec, chip.cells, p.otadataBase(chip.cells).value)));
      slot.Some? && Some(r.value) == p.appPartition(chip.cells, slot.value)
    // without a fault there is no answer only when there is no such slot, or no partition for it
    ensures r.Err? && chip.faults == old(chip.faults) && p.otadataBase(chip.cells).Some? ==>
      var base := p.otadataBase(chip.cells).value;
      Readable(codec, base, |chip.cells|, chip.readSize) ==>
        var slot := TargetSlot(p, Decoded(codec, EntriesAt(codec, chip.cells, base)));
        slot.None? || p.appPartition(chip.cells, slot.value).None?
    ensures r.Ok? ==> UploadTarget(p, codec, chip.cells) == Some(r.value)
    ensures r.Err? && chip.faults == old(chip.faults) && p.otadataBase(chip.cells).Some? ==>
              Readable(codec, p.otadataBase(chip.cells).value, |chip.cells|, chip.readSize) ==>
                UploadTarget(p, codec, chip.cells) == None
    // which is the partition the stored entries decide on
    ensures r.Ok? ==> PicksTarget(p, codec, chip.cells, p.otadataBase(chip.cells).value, Some(r.value))
    ensures r.Err? && chip.faults == old(chip.faults) && p.otadataBase(chip.cells).Some? ==>
              Readable(codec, p.otadataBase(chip.cells).value, |chip.cells|, chip.readSize) ==>
                PicksTarget(p, codec, chip.cells, p.otadataBase(chip.cells).value, None)
  {
    hide TargetSlot, Decoded, EntryAt, PicksTarget;
    if p.otadataBase(chip.cells).Some? &&
        p.otadataBase(chip.cells).value + SECTOR_SIZE + codec.entrySize <= |chip.cells| {
      UploadTargetIs(p, codec, chip.cells);
    }
    var read := ReadAt(chip, p, codec);
    if read.Err? {
      return Err(Unavailable);
    }
    var slot := TargetSlot(p, Decoded(codec, read.value.1));
    if slot.None? {
      return Err(Unavailable);
    }
    var part := LocateApp(chip, p, slot.value);
    r := if part.Some? then Ok(part.value) else Err(Unavailable);
  }

  // `confirm`, `reject` and `activate` differ only in FiBeWI's decision, which is `decide`.
  method Transition(chip: Chip, p: Platform, codec: Codec, decide: seq<seq<byte>> -> Option<Write>)
    returns (r: Result<(), Error>, ghost w: Option<Write>, ghost base: nat, ghost run: seq<State>)
    requires chip.Valid() && chip.eraseSize == SECTOR_SIZE && codec.entrySize <= SECTOR_SIZE
    requires forall entries :: decide(entries).Some? ==> decide(entries).value.sector < SLOT_COUNT
    modifies chip
    ensures old(chip.faults) <= chip.faults
    ensures chip.Valid() && |chip.cells| == |old(chip.cells)|
    // without a decision nothing is written
    ensures r == Err(NoTransition) ==> w == None
    ensures run == [] ==> (r == Err(NoTransition) || r == Err(Unavailable)) && chip.cells == old(chip.cells)
    ensures r == Err(Unavailable) && chip.faults == old(chip.faults) && p.otadataBase(old(chip.cells)).Some? ==>
              !Readable(codec, p.otadataBase(old(chip.cells)).value, |chip.cells|, chip.readSize)
    // the decision is taken on the entries as stored
    ensures run != [] || r == Err(NoTransition) ==> p.otadataBase(old(chip.cells)).Some?
    ensures run != [] || r == Err(NoTransition) ==>
              p.otadataBase(old(chip.cells)).value + SECTOR_SIZE + codec.entrySize <= |old(chip.cells)|
    ensures run != [] || r == Err(NoTransition) ==>
              w == decide(EntriesAt(codec, old(chip.cells), p.otadataBase(old(chip.cells)).value))
    ensures run != [] ==> w.Some? && r != Err(NoTransition) && r != Err(Unavailable)
    // and executed by the protocol
    ensures run != [] ==> base == p.otadataBase(old(chip.cells)).value + w.value.sector * SECTOR_SIZE
    ensures run != [] ==> Record(codec, w.value, base, run, old(chip.cells), chip.cells)
    ensures r.Ok? ==> run != [] && Reached(run, Committed) && base + SECTOR_SIZE <= |chip.cells|
    ensures r.Ok? ==> codec.decode(EntryAt(codec, chip.cells, base)) == Some(w.value.entry)
    ensures run != [] && chip.faults == old(chip.faults) && Placed(codec, base, chip, |chip.cells|) ==>
              Outcome(codec, w.value, base, old(chip.cells)) == (r.Ok?, chip.cells)
    // success or not: only the decided sector may have changed, and once the log shows it erased it
    // decodes to nothing or to the decided entry, at every instant
    ensures chip.erases == old(chip.erases) || chip.erases == old(chip.erases) + [Range(base, base + SECTOR_SIZE)]
    ensures old(chip.contents) <= chip.contents
    ensures run == [] ==> chip.erases == old(chip.erases) && chip.contents == old(chip.contents)
    ensures run != [] && codec.Lawful() ==>
              Guarded(codec, w.value, base, old(chip.cells), chip.contents, |old(chip.contents)|, chip.cells,
                      chip.erases != old(chip.erases))
    ensures codec.Lawful() && run != [] ==>
              SameOutside(old(chip.cells), chip.cells, base, base + SECTOR_SIZE)
  {
    hide EntryAt, Record, Reached, SameOutside, Codec.Lawful, Readable, Placed, Outcome, Instants,
        NothingOrNew;
    w, base, run := None, 0, [];
    var read := ReadAt(chip, p, codec);
    if read.Err? {
      return Err(Unavailable), w, base, run;
    }
    var decision := decide(read.value.1);
    if decision.None? {
      return Err(NoTransition), w, base, run;
    }
    w := decision;
    r, base, run := Execute(chip, p, codec, decision.value);
  }
}
