/** The bootloader's own executor of an entry update, over ROM flash access
    (bootloader/esp/src/main.rs), and its agreement with the OTA adapter's. */
module BootUpdate {
  import opened Machine
  import opened FlashChip
  import opened BootEntries
  import opened EntryUpdate
  import RomDriver
  import OtaData

  datatype BootError =
    | FlashRead(readAt: nat)
    | NoPartitionTable
    | MissingPartition(which: nat)
    | OtadataWrite(step: nat, at: nat)
    | Image
    | Mmu(rc: int)

  // The entry starts a sector, and the commands' addresses fit 32 bits, where their sums wrap.
  ghost predicate OnSector(codec: Codec, w: Write, base: nat) {
    AtSector(base) && NoWrap(codec, w, base)
  }

  ghost predicate NoWrap(codec: Codec, w: Write, base: nat) {
    var o := codec.ops(w);
    && base < USIZE_RANGE
    && (o.body.Program? ==> base + o.body.offset < USIZE_RANGE)
    && (o.commit.Program? ==> base + o.commit.offset < USIZE_RANGE)
  }

  // The commands stay in the sector.
  ghost predicate InSector(codec: Codec, w: Write) {
    var o := codec.ops(w);
    && (o.body.Program? ==> o.body.offset + |o.body.data| <= SECTOR_SIZE)
    && (o.commit.Program? ==> o.commit.offset + |o.commit.data| <= SECTOR_SIZE)
  }

  // The entry is at the start of a sector: elsewhere the erase clears the sector that contains it.
  predicate AtSector(base: nat) {
    base % SECTOR_SIZE == 0
  }

  // What the chip must be for ROM access: sectors of the ROM's size, whole words.
  ghost predicate RomChip(chip: Chip)
    reads chip
  {
    chip.Valid() && chip.eraseSize == SECTOR_SIZE
  }

  lemma RomChipHasWholeWords(chip: Chip)
    requires RomChip(chip)
    ensures |chip.cells| % 4 == 0
  {
    MultipleOfMultiple(|chip.cells|, SECTOR_SIZE, 4);
  }

  // The read of an entry was refused at one of its own words.
  ghost predicate RefusedRead(e: BootError, codec: Codec, at: nat) {
    e.FlashRead? && RomDriver.RefusedWindow(RomDriver.FlashError.Read(e.readAt), at, codec.entrySize)
  }

  // What a step fails with: its own number and the sector while it is under way, a refused read of
  // the entry only once its command has completed.
  ghost predicate StepError(e: BootError, codec: Codec, base: nat, step: nat, stage: Stage) {
    match step
    case 0 =>
      || (e == OtadataWrite(0, base) && (stage.Untouched? || stage.Erasing? || stage.Erased?))
      || (RefusedRead(e, codec, base) && stage.Erased?)
    case 1 =>
      || (e == OtadataWrite(1, base) && (stage.Erased? || stage.ProgrammingBody? || stage.BodyWritten?))
      || (RefusedRead(e, codec, base) && stage.BodyWritten?)
    case 2 =>
      || (e == OtadataWrite(2, base) && (stage.BodyWritten? || stage.Committing? || stage.Committed?))
      || (RefusedRead(e, codec, base) && stage.Committed?)
    case _ => false
  }

  // An error names the step that was under way when the update stopped.
  ghost predicate NamesStep(e: BootError, codec: Codec, base: nat, stage: Stage) {
    StepError(e, codec, base, 0, stage) || StepError(e, codec, base, 1, stage) || StepError(e, codec, base, 2, stage)
  }

  method ReadEntry(chip: Chip, codec: Codec, at: nat, raw: array<byte>) returns (r: Result<(), BootError>)
    requires RomChip(chip) && raw.Length == codec.entrySize && at < USIZE_RANGE
    modifies chip`faults, chip`romReads, raw
    ensures old(chip.faults) <= chip.faults
    ensures r.Ok? && 0 < codec.entrySize ==> at + codec.entrySize <= |chip.cells|
    ensures r.Ok? && at + codec.entrySize <= |chip.cells| ==> raw[..] == EntryAt(codec, chip.cells, at)
    ensures r.Ok? ==> chip.faults == old(chip.faults)
    ensures r.Err? ==> RefusedRead(r.error, codec, at)
    ensures at + codec.entrySize <= |chip.cells| ==> r.Ok? || old(chip.faults) < chip.faults
  {
    RomChipHasWholeWords(chip);
    var read := RomDriver.FlashRead(chip, at, raw, codec.entrySize);
    if read.Err? {
      return Err(FlashRead(read.error.at));
    }
    r := Ok(());
  }

  lemma InSectorFits(codec: Codec, w: Write, base: nat)
    requires InSector(codec, w) && base + SECTOR_SIZE < USIZE_RANGE && codec.entrySize <= SECTOR_SIZE
    ensures NoWrap(codec, w, base)
  {
  }

  lemma SectorOf(base: nat)
    ensures base / SECTOR_SIZE * SECTOR_SIZE == RoundDown(base, SECTOR_SIZE)
    ensures AtSector(base) ==> RoundDown(base, SECTOR_SIZE) == base
  {
  }

  // A lawful update stays in the entry, so where the chip has the entry no address wraps.
  lemma LawfulNoWrap(codec: Codec, w: Write, base: nat, capacity: nat)
    requires codec.Lawful() && base + codec.entrySize <= capacity < USIZE_RANGE
    ensures NoWrap(codec, w, base)
    ensures var o := codec.ops(w); o.body.Program? && o.commit.Program?
    ensures var o := codec.ops(w); Wrap32(base + o.body.offset) == base + o.body.offset &&
                                   Wrap32(base + o.commit.offset) == base + o.commit.offset
  {
    OpsOf(codec, w);
    hide Codec.Lawful, Codec.LawfulOps;
  }

  method EraseSector(chip: Chip, codec: Codec, w: Write, base: nat, back: array<byte>)
    returns (r: Result<(), BootError>, ghost run: seq<State>)
    requires RomChip(chip) && back.Length == codec.entrySize <= SECTOR_SIZE
    requires base < USIZE_RANGE
    modifies chip, back
    ensures RomChip(chip) && |chip.cells| == |old(chip.cells)|
    ensures old(chip.faults) <= chip.faults
    // only the sector that contains the entry's start may have changed
    ensures SameOutside(old(chip.cells), chip.cells, RoundDown(base, SECTOR_SIZE),
                        RoundDown(base, SECTOR_SIZE) + SECTOR_SIZE)
    ensures AtSector(base) ==> Record(codec, w, base, run, old(chip.cells), chip.cells)
    ensures Reached(run, Untouched) || Reached(run, Erasing) || Reached(run, Erased)
    ensures r.Err? ==> StepError(r.error, codec, base, 0, run[|run| - 1].stage)
    // the log tells whether the sector was erased; if it was, it holds nothing of value any more
    ensures chip.erases == old(chip.erases) +
              (if Reached(run, Erased) then
               [Range(RoundDown(base, SECTOR_SIZE), RoundDown(base, SECTOR_SIZE) + SECTOR_SIZE)]
               else [])
    ensures old(chip.contents) <= chip.contents
    ensures codec.Lawful() && AtSector(base) ==>
              Guarded(codec, w, base, old(chip.cells), chip.contents, |old(chip.contents)|, chip.cells,
                      Reached(run, Erased))
    ensures r.Ok? ==> Reached(run, Erased) && base + codec.entrySize <= |chip.cells| && chip.unlocked
    ensures r.Ok? && AtSector(base) ==> base + SECTOR_SIZE <= |chip.cells|
    ensures r.Ok? ==> EntryAt(codec, chip.cells, base) == Blank(codec.entrySize)
    ensures chip.faults == old(chip.faults) && AtSector(base) && base + SECTOR_SIZE <= |chip.cells| ==>
      Outcome(codec, w, base, old(chip.cells)) == if r.Ok? then BodyOutcome(codec, w, base, chip.cells)
          else (false, chip.cells)
  {
    hide FlashChip.Erased, EntryAt, Blank, Record, Reached, SameOutside, BodyOutcome, InSector, RoundDown, Guarded,
        Codec.Lawful, RefusedRead;
    ghost var before := chip.cells;
    run := [State(Untouched, before)];
    RecordStarts(codec, w, base, before);
    OtaData.StageOf(run);
    UntouchedOutside(before, base, base + SECTOR_SIZE);
    EraseGuarded(codec, w, base, before, chip.contents, chip.contents, before, false);
    UntouchedOutside(before, RoundDown(base, SECTOR_SIZE), RoundDown(base, SECTOR_SIZE) + SECTOR_SIZE);
    var unlocked := chip.RomUnlock();
    if !unlocked {
      return Err(OtadataWrite(0, base)), run;
    }
    if !codec.ops(w).erase.Erase? {
      return Err(OtadataWrite(0, base)), run;
    }
    SectorOf(base);
    var ok := chip.RomEraseSector(base / SECTOR_SIZE);
    LengthKept(before, chip.cells, RoundDown(base, SECTOR_SIZE), RoundDown(base, SECTOR_SIZE) + SECTOR_SIZE);
    if AtSector(base) {
      EraseIsStep(codec, w, base, run, before, chip.cells, ok);
    }
    run := run + [State(if ok then Erased else Erasing, chip.cells)];
    OtaData.StageOf(run);
    if AtSector(base) {
      EraseGuarded(codec, w, base, before, old(chip.contents), chip.contents, chip.cells, ok);
    }
    if !ok {
      return Err(OtadataWrite(0, base)), run;
    }
    r := ReadEntry(chip, codec, base, back);
    if r.Ok? && back[..] != Blank(codec.entrySize) {
      r := Err(OtadataWrite(0, base));
    }
  }

  method ProgramBody(chip: Chip, codec: Codec, w: Write, base: nat, back: array<byte>, ghost before: seq<byte>,
                     ghost run0: seq<State>)
    returns (r: Result<(), BootError>, ghost run: seq<State>)
    requires RomChip(chip) && back.Length == codec.entrySize <= SECTOR_SIZE && base < USIZE_RANGE
    requires OnSector(codec, w, base) ==>
               Record(codec, w, base, run0, before, chip.cells) && base + SECTOR_SIZE <= |chip.cells|
    requires chip.unlocked && Reached(run0, Erased) && base + codec.entrySize <= |chip.cells|
    requires EntryAt(codec, chip.cells, base) == Blank(codec.entrySize)
    modifies chip, back
    ensures RomChip(chip) && |chip.cells| == |old(chip.cells)|
    ensures old(chip.faults) <= chip.faults
    ensures OnSector(codec, w, base) ==> Record(codec, w, base, run, before, chip.cells)
    ensures run0 <= run && (Reached(run, Erased) || Reached(run, ProgrammingBody) || Reached(run, BodyWritten))
    ensures r.Err? ==> StepError(r.error, codec, base, 1, run[|run| - 1].stage)
    ensures chip.erases == old(chip.erases) && old(chip.contents) <= chip.contents
    // whatever fails, nothing but this program has reached the flash
    ensures var body := codec.ops(w).body;
      if body.Program? then Torn(old(chip.cells), Wrap32(base + body.offset), body.data, chip.cells)
      else chip.cells == old(chip.cells)
    ensures codec.Lawful() ==>
              Guarded(codec, w, base, old(chip.cells), chip.contents, |old(chip.contents)|, chip.cells, true)
    ensures chip.unlocked
    ensures r.Ok? ==> Reached(run, BodyWritten) && EntryAt(codec, chip.cells, base) == codec.body(w.entry)
    ensures chip.faults == old(chip.faults) && OnSector(codec, w, base) && InSector(codec, w) ==>
      BodyOutcome(codec, w, base, old(chip.cells)) == if r.Ok? then CommitOutcome(codec, w, base, chip.cells)
          else (false, chip.cells)
  {
    hide Programmed, Torn, EntryAt, Blank, Record, Reached, AtSector, Wrap32, RomDriver.StoppedAt, RomDriver.ChunkStart,
        Instant, Instants, TornLog, Codec.Lawful, RefusedRead,
        CommitOutcome;
    run := run0;
    OtaData.StageOf(run);
    UntouchedGuarded(codec, w, base, chip.cells, chip.contents);
    var body := codec.ops(w).body;
    if !body.Program? {
      return Err(OtadataWrite(1, base)), run;
    }
    ghost var mid := chip.cells;
    var programmed := RomDriver.FlashProgram(chip, Wrap32(base + body.offset), body.data);
    if OnSector(codec, w, base) {
      BodyIsStep(codec, w, base, run0, before, mid, chip.cells, programmed.Ok?);
    }
    run := run + [State(if programmed.Ok? then BodyWritten else ProgrammingBody, chip.cells)];
    OtaData.StageOf(run);
    if codec.Lawful() {
      LawfulNoWrap(codec, w, base, |chip.cells|);
      BodyInstant(codec, w, base, mid, chip.cells);
      BodyInstants(codec, w, base, mid, chip.contents, |old(chip.contents)|);
    }
    if programmed.Err? {
      return Err(OtadataWrite(1, base)), run;
    }
    r := ReadEntry(chip, codec, base, back);
    if r.Ok? && back[..] != codec.body(w.entry) {
      r := Err(OtadataWrite(1, base));
    }
  }

  method ProgramCommit(chip: Chip, codec: Codec, w: Write, base: nat, back: array<byte>, ghost before: seq<byte>,
                       ghost run0: seq<State>)
    returns (r: Result<(), BootError>, ghost run: seq<State>)
    requires RomChip(chip) && back.Length == codec.entrySize <= SECTOR_SIZE && base < USIZE_RANGE
    requires OnSector(codec, w, base) ==>
               Record(codec, w, base, run0, before, chip.cells) && base + SECTOR_SIZE <= |chip.cells|
    requires chip.unlocked && Reached(run0, BodyWritten) && base + codec.entrySize <= |chip.cells|
    requires EntryAt(codec, chip.cells, base) == codec.body(w.entry)
    modifies chip, back
    ensures RomChip(chip) && |chip.cells| == |old(chip.cells)|
    ensures old(chip.faults) <= chip.faults
    ensures OnSector(codec, w, base) ==> Record(codec, w, base, run, before, chip.cells)
    ensures run0 <= run && (Reached(run, BodyWritten) || Reached(run, Committing) || Reached(run, Committed))
    ensures r.Err? ==> StepError(r.error, codec, base, 2, run[|run| - 1].stage)
    ensures chip.erases == old(chip.erases) && old(chip.contents) <= chip.contents
    // whatever fails, nothing but this program has reached the flash
    ensures var commit := codec.ops(w).commit;
      if commit.Program? then Torn(old(chip.cells), Wrap32(base + commit.offset), commit.data, chip.cells)
      else chip.cells == old(chip.cells)
    ensures codec.Lawful() ==>
              Guarded(codec, w, base, old(chip.cells), chip.contents, |old(chip.contents)|, chip.cells, true)
    ensures r.Ok? ==> Reached(run, Committed) && EntryAt(codec, chip.cells, base) == codec.encode(w.entry)
    ensures r.Ok? ==> codec.decode(EntryAt(codec, chip.cells, base)) == Some(w.entry)
    ensures chip.faults == old(chip.faults) && OnSector(codec, w, base) && InSector(codec, w) ==>
      CommitOutcome(codec, w, base, old(chip.cells)) == (r.Ok?, chip.cells)
  {
    hide Programmed, Torn, EntryAt, Blank, Record, Reached, AtSector, Wrap32, RomDriver.StoppedAt, RomDriver.ChunkStart,
        Instant, Instants, TornLog, Codec.Lawful, RefusedRead;
    run := run0;
    OtaData.StageOf(run);
    UntouchedGuarded(codec, w, base, chip.cells, chip.contents);
    var commit := codec.ops(w).commit;
    if !commit.Program? {
      return Err(OtadataWrite(2, base)), run;
    }
    ghost var mid := chip.cells;
    var programmed := RomDriver.FlashProgram(chip, Wrap32(base + commit.offset), commit.data);
    if OnSector(codec, w, base) {
      CommitIsStep(codec, w, base, run0, before, mid, chip.cells, programmed.Ok?);
    }
    run := run + [State(if programmed.Ok? then Committed else Committing, chip.cells)];
    OtaData.StageOf(run);
    if codec.Lawful() {
      LawfulNoWrap(codec, w, base, |chip.cells|);
      CommitInstant(codec, w, base, mid, chip.cells);
      CommitInstants(codec, w, base, mid, chip.contents, |old(chip.contents)|);
    }
    if programmed.Err? {
      return Err(OtadataWrite(2, base)), run;
    }
    r := ReadEntry(chip, codec, base, back);
    if r.Ok? && (back[..] != codec.encode(w.entry) || codec.decode(back[..]) != Some(w.entry)) {
      r := Err(OtadataWrite(2, base));
    }
  }

  // The same protocol over the ROM. Success means the entry is stored and decodes, wherever the
  // partition lies; at a sector boundary the flash is always one the step machine reaches.
  method Execute(chip: Chip, otadata: nat, codec: Codec, w: Write)
    returns (r: Result<(), BootError>, ghost run: seq<State>)
    requires RomChip(chip) && codec.entrySize <= SECTOR_SIZE
    modifies chip
    ensures old(chip.faults) <= chip.faults
    ensures RomChip(chip) && |chip.cells| == |old(chip.cells)|
    ensures var base := Wrap32(otadata + w.sector * SECTOR_SIZE);
      && (r.Ok? ==> Reached(run, Committed) && base + codec.entrySize <= |chip.cells|)
      && (r.Ok? ==> EntryAt(codec, chip.cells, base) == codec.encode(w.entry))
      && (r.Ok? ==> codec.decode(EntryAt(codec, chip.cells, base)) == Some(w.entry))
      && (r.Err? ==> run != [] && NamesStep(r.error, codec, base, run[|run| - 1].stage))
    ensures var base := Wrap32(otadata + w.sector * SECTOR_SIZE);
      OnSector(codec, w, base) ==>
        && Record(codec, w, base, run, old(chip.cells), chip.cells)
        && (r.Ok? ==> base + SECTOR_SIZE <= |chip.cells|)
        && (chip.faults == old(chip.faults) && InSector(codec, w) && base + SECTOR_SIZE <= |chip.cells| ==>
              Outcome(codec, w, base, old(chip.cells)) == (r.Ok?, chip.cells))
    // a lawful update leaves everything outside the entry's sectors as it was, and once it has gone past
    // the erase, the entry decodes to nothing or to the new one
    ensures old(chip.contents) <= chip.contents
    ensures var base := Wrap32(otadata + w.sector * SECTOR_SIZE);
      codec.Lawful() ==>
        && SameOutside(old(chip.cells), chip.cells, RoundDown(base, SECTOR_SIZE), base + SECTOR_SIZE)
        && (PastErase(run) ==> NothingOrNew(codec, w, base, chip.cells))
    // at a sector boundary this holds at every instant, as soon as the log shows the sector erased
    ensures var base := Wrap32(otadata + w.sector * SECTOR_SIZE);
      codec.Lawful() && AtSector(base) ==>
        && (chip.erases == old(chip.erases) || chip.erases == old(chip.erases) + [Range(base, base + SECTOR_SIZE)])
        && Guarded(codec, w, base, old(chip.cells), chip.contents, |old(chip.contents)|, chip.cells,
                   chip.erases != old(chip.erases))
  {
    hide EntryAt, Record, InSector, Outcome, BodyOutcome, CommitOutcome, AtSector, NoWrap, Wrap32, Codec.Lawful,
        RoundDown, SameOutside, Instants, NothingOrNew, StepError, Torn;
    ghost var before := chip.cells;
    var base := Wrap32(otadata + w.sector * SECTOR_SIZE);
    SectorOf(base);
    var back := new byte[codec.entrySize](_ => 0);
    r, run := EraseSector(chip, codec, w, base, back);
    StillInSectors(before, chip.cells, base);
    if r.Err? {
      return;
    }
    ghost var mid, log := chip.cells, chip.contents;
    r, run := ProgramBody(chip, codec, w, base, back, before, run);
    if codec.Lawful() {
      AfterProgram(before, mid, chip.cells, base);
      if AtSector(base) {
        GuardedJoin(codec, w, base, before, mid, log, chip.contents, |old(chip.contents)|, chip.cells, true);
      }
    }
    if r.Err? {
      return;
    }
    mid, log := chip.cells, chip.contents;
    r, run := ProgramCommit(chip, codec, w, base, back, before, run);
    if codec.Lawful() {
      AfterProgram(before, mid, chip.cells, base);
      if AtSector(base) {
        GuardedJoin(codec, w, base, before, mid, log, chip.contents, |old(chip.contents)|, chip.cells, true);
      }
    }
  }

  // Changes in the sector that contains the entry's start lie in the entry's sectors.
  lemma StillInSectors(before: seq<byte>, after: seq<byte>, base: nat)
    requires SameOutside(before, after, RoundDown(base, SECTOR_SIZE), RoundDown(base, SECTOR_SIZE) + SECTOR_SIZE)
    ensures SameOutside(before, after, RoundDown(base, SECTOR_SIZE), base + SECTOR_SIZE)
  {
    hide RoundDown;
  }

  lemma AfterProgram(before: seq<byte>, mid: seq<byte>, after: seq<byte>, base: nat)
    requires SameOutside(before, mid, RoundDown(base, SECTOR_SIZE), base + SECTOR_SIZE)
    requires SameOutside(mid, after, base, base + SECTOR_SIZE)
    ensures SameOutside(before, after, RoundDown(base, SECTOR_SIZE), base + SECTOR_SIZE)
  {
    hide RoundDown;
  }

  // The two executors are the same protocol: on chips with equal contents that work, both succeed
  // or both fail, and they leave the same flash.
  method ExecutorsAgree(rom: Chip, nor: Chip, otadata: nat, p: OtaData.Platform, codec: Codec, w: Write)
    returns (viaRom: bool, viaNor: bool)
    requires rom != nor && RomChip(rom) && RomChip(nor) && rom.cells == nor.cells
    requires codec.entrySize <= SECTOR_SIZE && w.sector < 2 && otadata % SECTOR_SIZE == 0
    requires otadata + 2 * SECTOR_SIZE <= |nor.cells| && p.otadataBase(nor.cells) == Some(otadata)
    requires nor.writeSize == 4 && SECTOR_SIZE % nor.readSize == 0 && codec.entrySize % nor.readSize == 0
    requires InSector(codec, w)
    modifies rom, nor
    ensures rom.faults == old(rom.faults) && nor.faults == old(nor.faults) ==>
              viaRom == viaNor && rom.cells == nor.cells
  {
    hide EntryAt, Record, Reached, InSector, Outcome;
    var base := otadata + w.sector * SECTOR_SIZE;
    SumOfMultiples(otadata, w.sector * SECTOR_SIZE, SECTOR_SIZE);
    MultipleOfMultiple(otadata, SECTOR_SIZE, nor.readSize);
    InSectorFits(codec, w, base);
    var r, run := Execute(rom, otadata, codec, w);
    var r', base', run' := OtaData.Execute(nor, p, codec, w);
    viaRom, viaNor := r.Ok?, r'.Ok?;
  }
}
