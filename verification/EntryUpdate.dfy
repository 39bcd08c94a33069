/** The update of one `otadata` entry as a step machine in which power may fail inside any
    command, and what every reachable flash content guarantees. Both executors, the OTA adapter's
    and the bootloader's, are proved to follow it. */
module EntryUpdate {
  import opened Machine
  import opened FlashChip
  import opened BootEntries

  datatype Stage = Untouched | Erasing | Erased | ProgrammingBody | BodyWritten | Committing | Committed

  // Flash content at some instant of an update.
  datatype State = State(stage: Stage, cells: seq<byte>)

  function EntryAt(codec: Codec, cells: seq<byte>, base: nat): (r: seq<byte>)
    requires base + codec.entrySize <= |cells|
    ensures |r| == codec.entrySize
  {
    cells[base..base + codec.entrySize]
  }

  // The command that follows a completed one is only issued once the entry reads back as it must.
  ghost predicate ReadBack(codec: Codec, w: Write, base: nat, s: State) {
    base + codec.entrySize <= |s.cells| &&
    match s.stage
    case Erased => EntryAt(codec, s.cells, base) == Blank(codec.entrySize)
    case BodyWritten => EntryAt(codec, s.cells, base) == codec.body(w.entry)
    case _ => true
  }

  // One instant of progress: a command goes some way, or completes.
  ghost predicate Step(codec: Codec, w: Write, base: nat, s: State, t: State) {
    var o := codec.ops(w);
    match t.stage
    case Untouched => false
    case Erasing =>
      (s.stage.Untouched? || s.stage.Erasing?) && o.erase.Erase? &&
          SameOutside(s.cells, t.cells, base, base + SECTOR_SIZE)
    case Erased =>
      (s.stage.Untouched? || s.stage.Erasing?) && o.erase.Erase? &&
          t.cells == FlashChip.Erased(s.cells, base, base + SECTOR_SIZE)
    case ProgrammingBody =>
      (s.stage.Erased? || s.stage.ProgrammingBody?) && ReadBack(codec, w, base, s) && o.body.Program? &&
      Torn(s.cells, base + o.body.offset, o.body.data, t.cells)
    case BodyWritten =>
      (s.stage.Erased? || s.stage.ProgrammingBody?) && ReadBack(codec, w, base, s) && o.body.Program? &&
      t.cells == Programmed(s.cells, base + o.body.offset, o.body.data)
    case Committing =>
      (s.stage.BodyWritten? || s.stage.Committing?) && ReadBack(codec, w, base, s) && o.commit.Program? &&
      Torn(s.cells, base + o.commit.offset, o.commit.data, t.cells)
    case Committed =>
      (s.stage.BodyWritten? || s.stage.Committing?) && ReadBack(codec, w, base, s) && o.commit.Program? &&
      t.cells == Programmed(s.cells, base + o.commit.offset, o.commit.data)
  }

  // An update that may be stopped anywhere: any sequence of steps from untouched flash.
  ghost predicate Run(codec: Codec, w: Write, base: nat, run: seq<State>) {
    && run != [] && run[0].stage.Untouched?
    && forall i :: 0 <= i < |run| - 1 ==> Step(codec, w, base, run[i], run[i + 1])
  }

  lemma RunExtends(codec: Codec, w: Write, base: nat, run: seq<State>, t: State)
    requires Run(codec, w, base, run) && Step(codec, w, base, run[|run| - 1], t)
    ensures Run(codec, w, base, run + [t])
  {
    hide Step;
    var more := run + [t];
    forall i | 0 <= i < |more| - 1 ensures Step(codec, w, base, more[i], more[i + 1]) {
      if i == |run| - 1 {
        assert more[i] == run[|run| - 1] && more[i + 1] == t;
      } else {
        assert more[i] == run[i] && more[i + 1] == run[i + 1];
      }
    }
  }

  // ---------------------------------------------------------------- what each stage guarantees

  // The entry's bytes by stage, for a lawful codec.
  ghost predicate ImageAt(codec: Codec, w: Write, stage: Stage, image: seq<byte>) {
    var o := codec.ops(w);
    match stage
    case Untouched => true
    case Erasing => true
    case Erased => image == Blank(codec.entrySize)
    case ProgrammingBody => o.body.Program? && Torn(Blank(codec.entrySize), o.body.offset, o.body.data, image)
    case BodyWritten => image == codec.body(w.entry)
    case Committing => o.commit.Program? && Torn(codec.body(w.entry), o.commit.offset, o.commit.data, image)
    case Committed => image == codec.encode(w.entry)
  }

  // Programming over a cut program of the same data completes it.
  lemma ReprogramCompletes(before: seq<byte>, at: nat, data: seq<byte>, cut: seq<byte>)
    requires Torn(before, at, data, cut)
    ensures Programmed(cut, at, data) == Programmed(before, at, data)
  {
    hide Covers;
    forall i | 0 <= i < |before| ensures Programmed(cut, at, data)[i] == Programmed(before, at, data)[i] {
      if at <= i < at + |data| {
        MeetsAgain(before[i], data[i - at], cut[i]);
      }
    }
  }

  lemma MeetsAgain(before: byte, value: byte, cut: byte)
    requires Covers(before, cut) && Covers(cut, before & value)
    ensures cut & value == before & value
  {
  }

  lemma CutAgain(before: seq<byte>, at: nat, data: seq<byte>, mid: seq<byte>, after: seq<byte>)
    requires Torn(before, at, data, mid) && Torn(mid, at, data, after)
    ensures Torn(before, at, data, after)
  {
    hide Covers;
    forall i | 0 <= i < |before| && at <= i < at + |data|
      ensures Covers(before[i], after[i]) && Covers(after[i], before[i] & data[i - at])
    {
      BitsCutAgain(before[i], data[i - at], mid[i], after[i]);
    }
  }

  lemma BitsCutAgain(before: byte, value: byte, mid: byte, after: byte)
    requires Covers(before, mid) && Covers(mid, before & value)
    requires Covers(mid, after) && Covers(after, mid & value)
    ensures Covers(before, after) && Covers(after, before & value)
  {
  }

  // Commands inside the entry act on its bytes as they do on the chip.
  lemma EntryOfProgrammed(codec: Codec, cells: seq<byte>, base: nat, at: nat, data: seq<byte>)
    requires base + codec.entrySize <= |cells|
    ensures EntryAt(codec, Programmed(cells, base + at, data), base)
              == Programmed(EntryAt(codec, cells, base), at, data)
  {
  }

  lemma EntryOfTorn(codec: Codec, before: seq<byte>, base: nat, at: nat, data: seq<byte>, after: seq<byte>)
    requires base + codec.entrySize <= |before| && Torn(before, base + at, data, after)
    ensures Torn(EntryAt(codec, before, base), at, data, EntryAt(codec, after, base))
  {
    hide Covers;
    var v, v' := EntryAt(codec, before, base), EntryAt(codec, after, base);
    forall i | 0 <= i < |v| && at <= i < at + |data|
      ensures Covers(v[i], v'[i]) && Covers(v'[i], v[i] & data[i - at])
    {
      assert before[base + i] == v[i] && after[base + i] == v'[i];
    }
  }

  lemma EntryOfErased(codec: Codec, cells: seq<byte>, base: nat)
    requires base + codec.entrySize <= |cells| && codec.entrySize <= SECTOR_SIZE
    ensures EntryAt(codec, FlashChip.Erased(cells, base, base + SECTOR_SIZE), base) == Blank(codec.entrySize)
  {
  }

  // One step keeps the stage's guarantee and the flash outside the sector.
  lemma StepKeeps(codec: Codec, w: Write, base: nat, s: State, t: State)
    requires codec.Lawful() && base + SECTOR_SIZE <= |s.cells| && Step(codec, w, base, s, t)
    requires ImageAt(codec, w, s.stage, EntryAt(codec, s.cells, base))
    ensures SameOutside(s.cells, t.cells, base, base + SECTOR_SIZE)
    ensures ImageAt(codec, w, t.stage, EntryAt(codec, t.cells, base))
  {
    hide Torn, FlashChip.Erased, Programmed, SameOutside, EntryAt, Blank;
    var o := codec.ops(w);
    assert codec.LawfulOps(w);
    match t.stage {
      case Erasing =>
        LengthKept(s.cells, t.cells, base, base + SECTOR_SIZE);
      case Erased =>
        EntryOfErased(codec, s.cells, base);
        ErasedOutside(s.cells, base);
      case ProgrammingBody =>
        ProgramStep(codec, s.cells, t.cells, base, o.body, Blank(codec.entrySize), s.stage.Erased?, false);
      case BodyWritten =>
        ProgrammedIsTorn(s.cells, base + o.body.offset, o.body.data);
        ProgramStep(codec, s.cells, t.cells, base, o.body, Blank(codec.entrySize), s.stage.Erased?, true);
      case Committing =>
        ProgramStep(codec, s.cells, t.cells, base, o.commit, codec.body(w.entry), s.stage.BodyWritten?, false);
      case Committed =>
        ProgrammedIsTorn(s.cells, base + o.commit.offset, o.commit.data);
        ProgramStep(codec, s.cells, t.cells, base, o.commit, codec.body(w.entry), s.stage.BodyWritten?, true);
    }
  }

  lemma ErasedOutside(cells: seq<byte>, base: nat)
    ensures SameOutside(cells, FlashChip.Erased(cells, base, base + SECTOR_SIZE), base, base + SECTOR_SIZE)
  {
  }

  // A program command of the entry that starts from `from` or resumes after a cut.
  lemma ProgramStep(codec: Codec, before: seq<byte>, after: seq<byte>, base: nat, op: Op, from: seq<byte>, first: bool,
                    done: bool)
    requires op.Program? && op.offset + |op.data| <= codec.entrySize <= SECTOR_SIZE &&
             base + codec.entrySize <= |before|
    requires Torn(before, base + op.offset, op.data, after)
    requires done ==> after == Programmed(before, base + op.offset, op.data)
    requires if first then EntryAt(codec, before, base) == from
             else Torn(from, op.offset, op.data, EntryAt(codec, before, base))
    ensures SameOutside(before, after, base, base + SECTOR_SIZE)
    ensures Torn(from, op.offset, op.data, EntryAt(codec, after, base))
    ensures done ==> EntryAt(codec, after, base) == Programmed(from, op.offset, op.data)
  {
    TornWithin(before, base, op.offset, op.data, after);
    hide Torn, Programmed, SameOutside, EntryAt;
    var image := EntryAt(codec, before, base);
    EntryOfTorn(codec, before, base, op.offset, op.data, after);
    if !first {
      CutAgain(from, op.offset, op.data, image, EntryAt(codec, after, base));
    }
    if done {
      EntryOfProgrammed(codec, before, base, op.offset, op.data);
      if !first {
        ReprogramCompletes(from, op.offset, op.data, image);
      }
    }
  }

  lemma TornWithin(before: seq<byte>, base: nat, at: nat, data: seq<byte>, after: seq<byte>)
    requires Torn(before, base + at, data, after) && at + |data| <= SECTOR_SIZE
    ensures SameOutside(before, after, base, base + SECTOR_SIZE) && |after| == |before|
  {
  }

  // ---------------------------------------------------------------- over a whole run

  lemma {:induction false} RunKeeps(codec: Codec, w: Write, base: nat, run: seq<State>, i: nat)
    requires codec.Lawful() && Run(codec, w, base, run) && i < |run| && base + SECTOR_SIZE <= |run[0].cells|
    ensures SameOutside(run[0].cells, run[i].cells, base, base + SECTOR_SIZE)
    ensures ImageAt(codec, w, run[i].stage, EntryAt(codec, run[i].cells, base))
  {
    hide Step, ImageAt;
    if i == 0 {
      UntouchedHolds(codec, w, run[0].stage, EntryAt(codec, run[0].cells, base));
    } else {
      RunKeeps(codec, w, base, run, i - 1);
      assert Step(codec, w, base, run[i - 1], run[i - 1 + 1]);
      StepKeeps(codec, w, base, run[i - 1], run[i]);
    }
  }

  lemma UntouchedHolds(codec: Codec, w: Write, stage: Stage, image: seq<byte>)
    requires stage.Untouched?
    ensures ImageAt(codec, w, stage, image)
  {
  }

  // What decoding can find once the sector has been erased: nothing before the commit word is
  // complete, the new entry after, and nothing else ever.
  lemma DecodeByStage(codec: Codec, w: Write, stage: Stage, image: seq<byte>)
    requires codec.Lawful() && |image| == codec.entrySize && ImageAt(codec, w, stage, image)
    ensures stage.Erased? || stage.ProgrammingBody? || stage.BodyWritten? ==> codec.decode(image) == None
    ensures stage.Committing? ==> codec.decode(image) == None || codec.decode(image) == Some(w.entry)
    ensures stage.Committed? ==> codec.decode(image) == Some(w.entry)
  {
    hide Torn, Programmed, SameOutside, Blank, Codec.Lawful, Codec.LawfulOps;
    var o := codec.ops(w);
    LawsAt(codec, w, image);
    var n := codec.entrySize;
    match stage {
      case Untouched =>
      case Erasing =>
      case Erased =>
        UntouchedIsTorn(Blank(n), o.body.offset, o.body.data);
        CommitStillBlank(codec, o.body, image);
      case ProgrammingBody =>
        CommitStillBlank(codec, o.body, image);
      case BodyWritten =>
        ProgrammedIsTorn(Blank(n), o.body.offset, o.body.data);
        CommitStillBlank(codec, o.body, image);
      case Committing =>
        OnlyCommitDiffers(codec.body(w.entry), o.commit.offset, o.commit.data, image);
      case Committed =>
    }
  }

  // The codec's laws for one write and one image.
  lemma LawsAt(codec: Codec, w: Write, image: seq<byte>)
    requires codec.Lawful() && |image| == codec.entrySize
    ensures var o := codec.ops(w);
      && o.body.Program? && o.commit.Program? && o.commit.offset == codec.commitAt && |o.commit.data| == codec.commitLen
      && (o.body.offset + |o.body.data| <= codec.commitAt || codec.commitAt + codec.commitLen <= o.body.offset)
      && Programmed(Blank(codec.entrySize), o.body.offset, o.body.data) == codec.body(w.entry)
      && Programmed(codec.body(w.entry), o.commit.offset, o.commit.data) == codec.encode(w.entry)
    ensures codec.commitAt + codec.commitLen <= codec.entrySize && codec.decode(codec.encode(w.entry)) == Some(w.entry)
    ensures image[codec.commitAt..codec.commitAt + codec.commitLen] == Blank(codec.commitLen) ==>
              codec.decode(image) == None
    ensures SameOutside(codec.encode(w.entry), image, codec.commitAt, codec.commitAt + codec.commitLen) ==>
              image == codec.encode(w.entry) || codec.decode(image) == None
  {
    hide Torn, Programmed, SameOutside, Blank;
    assert codec.LawfulOps(w);
  }

  lemma CommitStillBlank(codec: Codec, op: Op, image: seq<byte>)
    requires op.Program? && Torn(Blank(codec.entrySize), op.offset, op.data, image)
    requires codec.commitAt + codec.commitLen <= codec.entrySize
    requires op.offset + |op.data| <= codec.commitAt || codec.commitAt + codec.commitLen <= op.offset
    ensures |image| == codec.entrySize &&
              image[codec.commitAt..codec.commitAt + codec.commitLen] == Blank(codec.commitLen)
  {
    var commit := image[codec.commitAt..codec.commitAt + codec.commitLen];
    forall k | 0 <= k < codec.commitLen ensures commit[k] == ERASED {
      assert Blank(codec.entrySize)[codec.commitAt + k] == ERASED;
    }
  }

  lemma OnlyCommitDiffers(body: seq<byte>, at: nat, data: seq<byte>, image: seq<byte>)
    requires Torn(body, at, data, image)
    ensures SameOutside(Programmed(body, at, data), image, at, at + |data|)
  {
  }

  // Stopping an update anywhere: the rest of the flash is as before, and once the erase has
  // completed the sector decodes to nothing or to exactly the new entry.
  lemma CutSafety(codec: Codec, w: Write, base: nat, run: seq<State>, i: nat)
    requires codec.Lawful() && Run(codec, w, base, run) && i < |run| && base + SECTOR_SIZE <= |run[0].cells|
    ensures SameOutside(run[0].cells, run[i].cells, base, base + SECTOR_SIZE)
    ensures var found := codec.decode(EntryAt(codec, run[i].cells, base));
      && (!run[i].stage.Untouched? && !run[i].stage.Erasing? ==> found == None || found == Some(w.entry))
      && (run[i].stage.Committed? ==> found == Some(w.entry))
  {
    hide ImageAt, Run, SameOutside;
    RunKeeps(codec, w, base, run, i);
    LengthKept(run[0].cells, run[i].cells, base, base + SECTOR_SIZE);
    DecodeByStage(codec, w, run[i].stage, EntryAt(codec, run[i].cells, base));
  }

  // ---------------------------------------------------------------- without faults

  // A program command both drivers accept: whole words inside the chip.
  predicate WholeWords(at: nat, len: nat, capacity: nat) {
    at % 4 == 0 && len % 4 == 0 && at + len <= capacity
  }

  // What one update does on hardware that works: whether it succeeds, and the flash it leaves.
  function Outcome(codec: Codec, w: Write, base: nat, cells: seq<byte>): (bool, seq<byte>)
    requires codec.entrySize <= SECTOR_SIZE && base + SECTOR_SIZE <= |cells|
  {
    var o := codec.ops(w);
    if !o.erase.Erase? then (false, cells)
    else
      var erased := FlashChip.Erased(cells, base, base + SECTOR_SIZE);
      if EntryAt(codec, erased, base) != Blank(codec.entrySize) then (false, erased)
      else BodyOutcome(codec, w, base, erased)
  }

  function BodyOutcome(codec: Codec, w: Write, base: nat, erased: seq<byte>): (bool, seq<byte>)
    requires codec.entrySize <= SECTOR_SIZE && base + SECTOR_SIZE <= |erased|
  {
    var body := codec.ops(w).body;
    if !body.Program? || !WholeWords(base + body.offset, |body.data|, |erased|) then (false, erased)
    else
      var written := Programmed(erased, base + body.offset, body.data);
      if EntryAt(codec, written, base) != codec.body(w.entry) then (false, written)
      else CommitOutcome(codec, w, base, written)
  }

  function CommitOutcome(codec: Codec, w: Write, base: nat, written: seq<byte>): (bool, seq<byte>)
    requires codec.entrySize <= SECTOR_SIZE && base + SECTOR_SIZE <= |written|
  {
    var commit := codec.ops(w).commit;
    if !commit.Program? || !WholeWords(base + commit.offset, |commit.data|, |written|) then (false, written)
    else
      var done := Programmed(written, base + commit.offset, commit.data);
      (EntryAt(codec, done, base) == codec.encode(w.entry) &&
       codec.decode(EntryAt(codec, done, base)) == Some(w.entry), done)
  }

  // The cases of the last step.
  lemma CommitOutcomeIs(codec: Codec, w: Write, base: nat, written: seq<byte>)
    requires codec.entrySize <= SECTOR_SIZE && base + SECTOR_SIZE <= |written|
    ensures var commit := codec.ops(w).commit; var outcome := CommitOutcome(codec, w, base, written);
      if !commit.Program? ||
          !WholeWords(base + commit.offset, |commit.data|, |written|) then outcome == (false, written)
      else
        var done := Programmed(written, base + commit.offset, commit.data);
        var entry := EntryAt(codec, done, base);
        outcome == (entry == codec.encode(w.entry) && codec.decode(entry) == Some(w.entry), done)
  {
    hide Programmed, EntryAt, WholeWords;
  }

  // On working hardware a lawful update in whole words succeeds and stores exactly the entry.
  lemma LawfulOutcome(codec: Codec, w: Write, base: nat, cells: seq<byte>)
    requires codec.Lawful() && base % 4 == 0 && base + SECTOR_SIZE <= |cells|
    requires var o := codec.ops(w);
      (o.body.Program? ==> o.body.offset % 4 == 0 && |o.body.data| % 4 == 0) &&
      (o.commit.Program? ==> o.commit.offset % 4 == 0 && |o.commit.data| % 4 == 0)
    ensures var (ok, after) := Outcome(codec, w, base, cells);
      && ok && SameOutside(cells, after, base, base + SECTOR_SIZE)
      && EntryAt(codec, after, base) == codec.encode(w.entry)
  {
    hide FlashChip.Erased, Programmed, EntryAt, Blank, SameOutside, Codec.Lawful, Codec.LawfulOps;
    var o := codec.ops(w);
    OpsOf(codec, w);
    EntryOfErased(codec, cells, base);
    ErasedOutside(cells, base);
    var erased := FlashChip.Erased(cells, base, base + SECTOR_SIZE);
    EntryOfProgrammed(codec, erased, base, o.body.offset, o.body.data);
    ProgrammedWithin(erased, base, o.body.offset, o.body.data);
    var written := Programmed(erased, base + o.body.offset, o.body.data);
    EntryOfProgrammed(codec, written, base, o.commit.offset, o.commit.data);
    ProgrammedWithin(written, base, o.commit.offset, o.commit.data);
    var done := Programmed(written, base + o.commit.offset, o.commit.data);
    OutsideThenOutside(cells, erased, written, base, base + SECTOR_SIZE);
    OutsideThenOutside(cells, written, done, base, base + SECTOR_SIZE);
  }

  lemma OpsOf(codec: Codec, w: Write)
    requires codec.Lawful()
    ensures codec.LawfulOps(w) && codec.entrySize <= SECTOR_SIZE && codec.decode(codec.encode(w.entry)) == Some(w.entry)
    ensures var o := codec.ops(w);
      && o.erase.Erase? && o.body.Program? && o.commit.Program?
      && o.body.offset + |o.body.data| <= codec.entrySize && o.commit.offset + |o.commit.data| <= codec.entrySize
      && Programmed(Blank(codec.entrySize), o.body.offset, o.body.data) == codec.body(w.entry)
      && Programmed(codec.body(w.entry), o.commit.offset, o.commit.data) == codec.encode(w.entry)
  {
    hide Programmed, Blank, SameOutside;
    assert codec.LawfulOps(w);
  }

  lemma ProgrammedWithin(cells: seq<byte>, base: nat, at: nat, data: seq<byte>)
    requires at + |data| <= SECTOR_SIZE
    ensures SameOutside(cells, Programmed(cells, base + at, data), base, base + SECTOR_SIZE)
  {
  }

  // ---------------------------------------------------------------- records of an executor

  // `run` is an update of flash that was `before` and is now `after`, and got as far as `stage`.
  ghost predicate Record(codec: Codec, w: Write, base: nat, run: seq<State>, before: seq<byte>, after: seq<byte>) {
    Run(codec, w, base, run) && run[0].cells == before && run[|run| - 1].cells == after
  }

  ghost predicate Reached(run: seq<State>, stage: Stage) {
    run != [] && run[|run| - 1].stage == stage
  }

  lemma RecordStarts(codec: Codec, w: Write, base: nat, cells: seq<byte>)
    ensures Record(codec, w, base, [State(Untouched, cells)], cells, cells)
    ensures Reached([State(Untouched, cells)], Untouched)
  {
  }

  lemma RecordStep(codec: Codec, w: Write, base: nat, run: seq<State>, before: seq<byte>, mid: seq<byte>, stage: Stage,
                   after: seq<byte>)
    requires Record(codec, w, base, run, before, mid)
    requires Step(codec, w, base, State(run[|run| - 1].stage, mid), State(stage, after))
    ensures Record(codec, w, base, run + [State(stage, after)], before, after)
    ensures Reached(run + [State(stage, after)], stage)
  {
    hide Step;
    assert run[|run| - 1] == State(run[|run| - 1].stage, mid);
    RunExtends(codec, w, base, run, State(stage, after));
  }

  // A command on the sector, complete or cut, is one step of the machine.
  lemma EraseIsStep(codec: Codec, w: Write, base: nat, run: seq<State>, before: seq<byte>, after: seq<byte>, ok: bool)
    requires Record(codec, w, base, run, before, before) && Reached(run, Untouched) && codec.ops(w).erase.Erase?
    requires ok ==> after == FlashChip.Erased(before, base, base + SECTOR_SIZE)
    requires SameOutside(before, after, base, base + SECTOR_SIZE)
    ensures var stage := if ok then Erased else Erasing;
      var more := run + [State(stage, after)];
      Record(codec, w, base, more, before, after) && Reached(more, stage)
  {
    RecordStep(codec, w, base, run, before, before, if ok then Erased else Erasing, after);
  }

  lemma BodyIsStep(codec: Codec, w: Write, base: nat, run: seq<State>, before: seq<byte>, mid: seq<byte>,
                   after: seq<byte>, ok: bool)
    requires Record(codec, w, base, run, before, mid) && Reached(run, Erased) && codec.ops(w).body.Program?
    requires base + codec.entrySize <= |mid| && EntryAt(codec, mid, base) == Blank(codec.entrySize)
    requires var body := codec.ops(w).body;
      && (ok ==> after == Programmed(mid, base + body.offset, body.data))
      && Torn(mid, base + body.offset, body.data, after)
    ensures var stage := if ok then BodyWritten else ProgrammingBody;
      var more := run + [State(stage, after)];
      Record(codec, w, base, more, before, after) && Reached(more, stage)
  {
    RecordStep(codec, w, base, run, before, mid, if ok then BodyWritten else ProgrammingBody, after);
  }

  lemma CommitIsStep(codec: Codec, w: Write, base: nat, run: seq<State>, before: seq<byte>, mid: seq<byte>,
                     after: seq<byte>, ok: bool)
    requires Record(codec, w, base, run, before, mid) && Reached(run, BodyWritten) && codec.ops(w).commit.Program?
    requires base + codec.entrySize <= |mid| && EntryAt(codec, mid, base) == codec.body(w.entry)
    requires var commit := codec.ops(w).commit;
      && (ok ==> after == Programmed(mid, base + commit.offset, commit.data))
      && Torn(mid, base + commit.offset, commit.data, after)
    ensures var stage := if ok then Committed else Committing;
      var more := run + [State(stage, after)];
      Record(codec, w, base, more, before, after) && Reached(more, stage)
  {
    RecordStep(codec, w, base, run, before, mid, if ok then Committed else Committing, after);
  }

  // ---------------------------------------------------------------- instants of an executor

  // The sector decodes to nothing or to the new entry.
  ghost predicate NothingOrNew(codec: Codec, w: Write, base: nat, cells: seq<byte>) {
    base + codec.entrySize <= |cells| ==>
      var found := codec.decode(EntryAt(codec, cells, base));
      found == None || found == Some(w.entry)
  }

  // Flash content at some instant of an update: the rest is as before, and a sector that has been
  // erased holds nothing or the new entry.
  ghost predicate Instant(codec: Codec, w: Write, base: nat, before: seq<byte>, cells: seq<byte>, erased: bool) {
    SameOutside(before, cells, base, base + SECTOR_SIZE) && (erased ==> NothingOrNew(codec, w, base, cells))
  }

  // Every content logged from entry `from` on is such an instant.
  ghost predicate Instants(codec: Codec, w: Write, base: nat, before: seq<byte>, log: seq<seq<byte>>, from: nat,
                           erased: bool)
  {
    forall k :: from <= k < |log| ==> Instant(codec, w, base, before, log[k], erased)
  }

  // Instants since a content that was one itself are instants since the start.
  lemma InstantsJoin(codec: Codec, w: Write, base: nat, before: seq<byte>, mid: seq<byte>, log: seq<seq<byte>>,
                     log': seq<seq<byte>>, from: nat, erased: bool)
    requires SameOutside(before, mid, base, base + SECTOR_SIZE) && from <= |log| && log <= log'
    requires Instants(codec, w, base, before, log, from, erased)
    requires Instants(codec, w, base, mid, log', |log|, erased)
    ensures Instants(codec, w, base, before, log', from, erased)
  {
    hide SameOutside, NothingOrNew;
    forall k | from <= k < |log'| ensures Instant(codec, w, base, before, log'[k], erased) {
      if k < |log| {
        assert log'[k] == log[k];
      } else {
        OutsideThenOutside(before, mid, log'[k], base, base + SECTOR_SIZE);
      }
    }
  }

  lemma ErasedInstant(codec: Codec, w: Write, base: nat, before: seq<byte>)
    requires codec.Lawful() && base + SECTOR_SIZE <= |before|
    ensures Instant(codec, w, base, before, FlashChip.Erased(before, base, base + SECTOR_SIZE), true)
  {
    hide FlashChip.Erased, SameOutside, EntryAt, Blank, Codec.LawfulOps;
    EntryOfErased(codec, before, base);
    ErasedOutside(before, base);
    BlankOrBodyIsNothing(codec, w);
  }

  lemma BlankOrBodyIsNothing(codec: Codec, w: Write)
    requires codec.Lawful()
    ensures codec.decode(Blank(codec.entrySize)) == None && codec.decode(codec.body(w.entry)) == None
  {
    hide Blank, SameOutside, Torn, Codec.Lawful, EntryAt;
    OpsOf(codec, w);
    DecodeByStage(codec, w, Erased, Blank(codec.entrySize));
    DecodeByStage(codec, w, BodyWritten, codec.body(w.entry));
  }

  // The body's program, cut or complete, over a blank entry.
  lemma BodyInstant(codec: Codec, w: Write, base: nat, mid: seq<byte>, cells: seq<byte>)
    requires codec.Lawful() && base + codec.entrySize <= |mid| && EntryAt(codec, mid, base) == Blank(codec.entrySize)
    requires codec.ops(w).body.Program?
    requires Torn(mid, base + codec.ops(w).body.offset, codec.ops(w).body.data, cells)
    ensures Instant(codec, w, base, mid, cells, true)
  {
    var body := codec.ops(w).body;
    OpsOf(codec, w);
    TornWithin(mid, base, body.offset, body.data, cells);
    EntryOfTorn(codec, mid, base, body.offset, body.data, cells);
    hide Torn, SameOutside, EntryAt, Blank, Codec.Lawful, Codec.LawfulOps;
    DecodeByStage(codec, w, ProgrammingBody, EntryAt(codec, cells, base));
  }

  // The commit word's program, cut or complete, over a body.
  lemma CommitInstant(codec: Codec, w: Write, base: nat, mid: seq<byte>, cells: seq<byte>)
    requires codec.Lawful() && base + codec.entrySize <= |mid| && EntryAt(codec, mid, base) == codec.body(w.entry)
    requires codec.ops(w).commit.Program?
    requires Torn(mid, base + codec.ops(w).commit.offset, codec.ops(w).commit.data, cells)
    ensures Instant(codec, w, base, mid, cells, true)
  {
    var commit := codec.ops(w).commit;
    OpsOf(codec, w);
    TornWithin(mid, base, commit.offset, commit.data, cells);
    EntryOfTorn(codec, mid, base, commit.offset, commit.data, cells);
    hide Torn, SameOutside, EntryAt, Blank, Codec.Lawful, Codec.LawfulOps;
    DecodeByStage(codec, w, Committing, EntryAt(codec, cells, base));
  }

  // Contents that are cuts of one of the two programs are instants.
  lemma BodyInstants(codec: Codec, w: Write, base: nat, mid: seq<byte>, log: seq<seq<byte>>, from: nat)
    requires codec.Lawful() && base + codec.entrySize <= |mid| && EntryAt(codec, mid, base) == Blank(codec.entrySize)
    requires codec.ops(w).body.Program?
    requires TornLog(mid, base + codec.ops(w).body.offset, codec.ops(w).body.data, log, from)
    ensures Instants(codec, w, base, mid, log, from, true)
  {
    hide Torn, Instant, EntryAt, Codec.Lawful;
    forall k | from <= k < |log| ensures Instant(codec, w, base, mid, log[k], true) {
      BodyInstant(codec, w, base, mid, log[k]);
    }
  }

  lemma CommitInstants(codec: Codec, w: Write, base: nat, mid: seq<byte>, log: seq<seq<byte>>, from: nat)
    requires codec.Lawful() && base + codec.entrySize <= |mid| && EntryAt(codec, mid, base) == codec.body(w.entry)
    requires codec.ops(w).commit.Program?
    requires TornLog(mid, base + codec.ops(w).commit.offset, codec.ops(w).commit.data, log, from)
    ensures Instants(codec, w, base, mid, log, from, true)
  {
    hide Torn, Instant, EntryAt, Codec.Lawful;
    forall k | from <= k < |log| ensures Instant(codec, w, base, mid, log[k], true) {
      CommitInstant(codec, w, base, mid, log[k]);
    }
  }

  // A blank entry or a body decodes to nothing, and flash is an instant of itself.
  lemma StartsAsInstant(codec: Codec, w: Write, base: nat, cells: seq<byte>)
    requires codec.Lawful() && base + codec.entrySize <= |cells|
    requires EntryAt(codec, cells, base) == Blank(codec.entrySize) || EntryAt(codec, cells, base) == codec.body(w.entry)
    ensures Instant(codec, w, base, cells, cells, true)
  {
    hide EntryAt, Blank, Codec.Lawful;
    BlankOrBodyIsNothing(codec, w);
    UntouchedOutside(cells, base, base + SECTOR_SIZE);
  }

  // The part of an executor past the erase keeps to its instants, in its log and in the flash it leaves.
  ghost predicate Guarded(codec: Codec, w: Write, base: nat, before: seq<byte>, log: seq<seq<byte>>, from: nat,
                          cells: seq<byte>, erased: bool)
  {
    Instants(codec, w, base, before, log, from, erased) && Instant(codec, w, base, before, cells, erased)
  }

  lemma GuardedJoin(codec: Codec, w: Write, base: nat, before: seq<byte>, mid: seq<byte>, log: seq<seq<byte>>,
                    log': seq<seq<byte>>, from: nat, cells: seq<byte>, erased: bool)
    requires from <= |log| && log <= log'
    requires Guarded(codec, w, base, before, log, from, mid, erased)
    requires Guarded(codec, w, base, mid, log', |log|, cells, erased)
    ensures Guarded(codec, w, base, before, log', from, cells, erased)
  {
    hide SameOutside, NothingOrNew, Instants;
    InstantsJoin(codec, w, base, before, mid, log, log', from, erased);
    OutsideThenOutside(before, mid, cells, base, base + SECTOR_SIZE);
  }

  // No command yet, or one.
  lemma GuardedStart(codec: Codec, w: Write, base: nat, cells: seq<byte>, log: seq<seq<byte>>, erased: bool)
    requires Instant(codec, w, base, cells, cells, erased)
    ensures Guarded(codec, w, base, cells, log, |log|, cells, erased)
  {
    hide Instant;
  }

  lemma GuardedStep(codec: Codec, w: Write, base: nat, before: seq<byte>, log: seq<seq<byte>>, log': seq<seq<byte>>,
                    cells: seq<byte>, erased: bool)
    requires Instant(codec, w, base, before, cells, erased) && (log' == log || log' == log + [cells])
    ensures Guarded(codec, w, base, before, log', |log|, cells, erased)
  {
    hide Instant;
  }

  // The update has gone beyond the erase and its check.
  ghost predicate PastErase(run: seq<State>) {
    Reached(run, ProgrammingBody) || Reached(run, BodyWritten) || Reached(run, Committing) || Reached(run, Committed)
  }

  // ---------------------------------------------------------------- one step of an executor

  lemma UntouchedGuarded(codec: Codec, w: Write, base: nat, cells: seq<byte>, log: seq<seq<byte>>)
    requires base + codec.entrySize <= |cells|
    requires EntryAt(codec, cells, base) == Blank(codec.entrySize) || EntryAt(codec, cells, base) == codec.body(w.entry)
    ensures codec.Lawful() ==> Guarded(codec, w, base, cells, log, |log|, cells, true)
  {
    hide EntryAt, Blank, Codec.Lawful, Instant, Guarded;
    if codec.Lawful() {
      StartsAsInstant(codec, w, base, cells);
      GuardedStart(codec, w, base, cells, log, true);
    }
  }

  lemma EraseGuarded(codec: Codec, w: Write, base: nat, before: seq<byte>, log: seq<seq<byte>>, log': seq<seq<byte>>,
                     cells: seq<byte>, erased: bool)
    requires log' == log || log' == log + [cells]
    requires erased ==> base + SECTOR_SIZE <= |before| && cells == FlashChip.Erased(before, base, base + SECTOR_SIZE)
    requires SameOutside(before, cells, base, base + SECTOR_SIZE)
    ensures codec.Lawful() ==> Guarded(codec, w, base, before, log', |log|, cells, erased)
  {
    hide FlashChip.Erased, NothingOrNew, SameOutside, Codec.Lawful, Guarded;
    if codec.Lawful() {
      if erased {
        ErasedInstant(codec, w, base, before);
      }
      GuardedStep(codec, w, base, before, log, log', cells, erased);
    }
  }

  lemma BodyGuarded(codec: Codec, w: Write, base: nat, mid: seq<byte>, log: seq<seq<byte>>, log': seq<seq<byte>>,
                    cells: seq<byte>)
    requires log' == log || log' == log + [cells]
    requires base + codec.entrySize <= |mid| && EntryAt(codec, mid, base) == Blank(codec.entrySize)
    requires codec.ops(w).body.Program?
    requires Torn(mid, base + codec.ops(w).body.offset, codec.ops(w).body.data, cells)
    ensures codec.Lawful() ==> Guarded(codec, w, base, mid, log', |log|, cells, true)
  {
    hide Torn, EntryAt, Blank, Codec.Lawful, Instant, Guarded;
    if codec.Lawful() {
      BodyInstant(codec, w, base, mid, cells);
      GuardedStep(codec, w, base, mid, log, log', cells, true);
    }
  }

  lemma CommitGuarded(codec: Codec, w: Write, base: nat, mid: seq<byte>, log: seq<seq<byte>>, log': seq<seq<byte>>,
                      cells: seq<byte>)
    requires log' == log || log' == log + [cells]
    requires base + codec.entrySize <= |mid| && EntryAt(codec, mid, base) == codec.body(w.entry)
    requires codec.ops(w).commit.Program?
    requires Torn(mid, base + codec.ops(w).commit.offset, codec.ops(w).commit.data, cells)
    ensures codec.Lawful() ==> Guarded(codec, w, base, mid, log', |log|, cells, true)
  {
    hide Torn, EntryAt, Codec.Lawful, Instant, Guarded;
    if codec.Lawful() {
      CommitInstant(codec, w, base, mid, cells);
      GuardedStep(codec, w, base, mid, log, log', cells, true);
    }
  }
}
