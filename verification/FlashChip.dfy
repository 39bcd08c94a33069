/** The SPI NOR flash chip and the two drivers that reach it: the `NorFlash`
    commands the OTA adapter uses and the ROM commands the bootloader uses.
    Either may be refused or cut by the hardware; a cut command has changed
    nothing outside its own range. */
module FlashChip {
  import opened Machine

  // ---------------------------------------------------------------- cells

  // Every bit set in `b` is set in `a`.
  predicate Covers(a: byte, b: byte) {
    a & b == b
  }

  // The cells after erasing [from, to).
  function Erased(cells: seq<byte>, from: nat, to: nat): (r: seq<byte>)
    ensures |r| == |cells|
  {
    seq(|cells|, i requires 0 <= i < |cells| => if from <= i < to then ERASED else cells[i])
  }

  // The cells after programming `data` at `at`: programming clears bits and never sets one.
  function Programmed(cells: seq<byte>, at: nat, data: seq<byte>): (r: seq<byte>)
    ensures |r| == |cells|
  {
    seq(|cells|, i requires 0 <= i < |cells| => if at <= i < at + |data| then cells[i] & data[i - at] else cells[i])
  }

  // The two states differ inside [from, to) at most.
  ghost predicate SameOutside(before: seq<byte>, after: seq<byte>, from: int, to: int) {
    |after| == |before| && forall i :: 0 <= i < |before| && !(from <= i < to) ==> after[i] == before[i]
  }

  // A program command cut anywhere: each cell has lost some of the bits it was to lose, and no other.
  ghost predicate Torn(before: seq<byte>, at: nat, data: seq<byte>, after: seq<byte>) {
    && SameOutside(before, after, at, at + |data|)
    && forall i :: 0 <= i < |before| && at <= i < at + |data| ==>
         Covers(before[i], after[i]) && Covers(after[i], before[i] & data[i - at])
  }

  lemma UntouchedOutside(cells: seq<byte>, from: int, to: int)
    ensures SameOutside(cells, cells, from, to)
  {
  }

  lemma LengthKept(a: seq<byte>, b: seq<byte>, from: int, to: int)
    requires SameOutside(a, b, from, to)
    ensures |a| == |b|
  {
  }

  lemma OutsideThenOutside(a: seq<byte>, b: seq<byte>, c: seq<byte>, from: int, to: int)
    requires SameOutside(a, b, from, to) && SameOutside(b, c, from, to)
    ensures SameOutside(a, c, from, to)
  {
  }

  // Every content logged from entry `from` on is a cut of one program.
  ghost predicate TornLog(before: seq<byte>, at: nat, data: seq<byte>, log: seq<seq<byte>>, from: nat) {
    forall k :: from <= k < |log| ==> Torn(before, at, data, log[k])
  }

  // Absolute addresses [from, to).
  datatype Range = Range(from: nat, to: nat)

  lemma TornKeepsLength(before: seq<byte>, at: nat, data: seq<byte>, after: seq<byte>)
    requires Torn(before, at, data, after)
    ensures |after| == |before|
  {
  }

  // An erase or program command as it reached the hardware.
  datatype Command = EraseOf(range: Range) | ProgramOf(range: Range)

  predicate Within(r: Range, lo: int, hi: int) {
    lo <= r.from <= r.to <= hi
  }

  // The commands issued since `before` all lie in [lo, hi).
  ghost predicate Confined(before: seq<Command>, after: seq<Command>, lo: int, hi: int) {
    before <= after && forall k :: |before| <= k < |after| ==> Within(after[k].range, lo, hi)
  }

  // The program commands among them do.
  ghost predicate ProgramsConfined(before: seq<Command>, after: seq<Command>, lo: int, hi: int) {
    before <= after && forall k :: |before| <= k < |after| && after[k].ProgramOf? ==> Within(after[k].range, lo, hi)
  }

  // The reads asked for since `before` are whole aligned words of [lo, hi), 64 at most.
  ghost predicate WordReads(before: seq<Range>, after: seq<Range>, lo: int, hi: int) {
    before <= after && forall k :: |before| <= k < |after| ==> WordRead(after[k], lo, hi)
  }

  predicate WordRead(r: Range, lo: int, hi: int) {
    Within(r, lo, hi) && r.from % 4 == 0 && r.to % 4 == 0 && r.to <= r.from + 256
  }

  lemma NoReads(log: seq<Range>, lo: int, hi: int)
    ensures WordReads(log, log, lo, hi)
  {
  }

  lemma OneMoreRead(before: seq<Range>, log: seq<Range>, r: Range, lo: int, hi: int)
    requires WordReads(before, log, lo, hi) && WordRead(r, lo, hi)
    ensures WordReads(before, log + [r], lo, hi)
  {
    hide WordRead;
  }

  ghost predicate OnlyErases(before: seq<Command>, after: seq<Command>) {
    before <= after && forall k :: |before| <= k < |after| ==> after[k].EraseOf?
  }

  lemma NoCommandsConfined(log: seq<Command>, lo: int, hi: int)
    ensures Confined(log, log, lo, hi) && ProgramsConfined(log, log, lo, hi) && OnlyErases(log, log)
  {
  }

  lemma OnlyErasesConfined(before: seq<Command>, after: seq<Command>, lo: int, hi: int)
    requires OnlyErases(before, after)
    ensures ProgramsConfined(before, after, lo, hi)
  {
  }

  // Commands that erase up to `end` and program up to `hi`, then commands up to `hi`.
  lemma ProgramsInErased(a: seq<Command>, b: seq<Command>, c: seq<Command>, lo: int, hi: int, end: int)
    requires Confined(a, b, lo, end) && ProgramsConfined(a, b, lo, hi) && Confined(b, c, lo, hi) && hi <= end
    ensures Confined(a, c, lo, end) && ProgramsConfined(a, c, lo, hi)
  {
  }

  // Two bounds confine to what they share.
  lemma ConfinedToBoth(before: seq<Command>, after: seq<Command>, lo: int, hi: int, lo': int, hi': int)
    requires Confined(before, after, lo, hi) && Confined(before, after, lo', hi')
    ensures Confined(before, after, lo, hi')
  {
  }

  // A wider bound confines too, and it confines the program commands.
  lemma ConfinedWider(before: seq<Command>, after: seq<Command>, lo: int, hi: int, lo': int, hi': int)
    requires Confined(before, after, lo, hi) && lo' <= lo && hi <= hi'
    ensures Confined(before, after, lo', hi') && ProgramsConfined(before, after, lo', hi')
  {
  }

  lemma ProgrammedIsTorn(before: seq<byte>, at: nat, data: seq<byte>)
    ensures Torn(before, at, data, Programmed(before, at, data))
  {
  }

  // ---------------------------------------------------------------- little-endian words

  function PackLE(b0: byte, b1: byte, b2: byte, b3: byte): bv32 {
    (b0 as bv32) | ((b1 as bv32) << 8) | ((b2 as bv32) << 16) | ((b3 as bv32) << 24)
  }

  // Byte `k` of a word as the little-endian core stores it.
  function ByteOf(w: bv32, k: nat): byte
    requires k < 4
  {
    if k == 0 then (w & 0xFF) as byte
    else if k == 1 then ((w >> 8) & 0xFF) as byte
    else if k == 2 then ((w >> 16) & 0xFF) as byte
    else ((w >> 24) & 0xFF) as byte
  }

  // The memory image of a word buffer.
  function BytesOf(words: seq<bv32>): (r: seq<byte>)
    ensures |r| == 4 * |words|
  {
    seq(4 * |words|, i requires 0 <= i < 4 * |words| => ByteOf(words[i / 4], i % 4))
  }

  lemma PackThenByte(b0: byte, b1: byte, b2: byte, b3: byte)
    ensures ByteOf(PackLE(b0, b1, b2, b3), 0) == b0 && ByteOf(PackLE(b0, b1, b2, b3), 1) == b1
    ensures ByteOf(PackLE(b0, b1, b2, b3), 2) == b2 && ByteOf(PackLE(b0, b1, b2, b3), 3) == b3
  {
  }

  // Words packed four bytes at a time hold exactly those bytes in memory order.
  lemma PackedWindow(words: seq<bv32>, bytes: seq<byte>)
    requires |bytes| % 4 == 0 && |bytes| <= 4 * |words|
    requires forall k :: 0 <= k < |bytes| / 4 ==>
      words[k] == PackLE(bytes[4 * k], bytes[4 * k + 1], bytes[4 * k + 2], bytes[4 * k + 3])
    ensures BytesOf(words)[..|bytes|] == bytes
  {
    hide PackLE, ByteOf;
    forall j | 0 <= j < |bytes| ensures BytesOf(words)[j] == bytes[j] {
      var k := j / 4;
      PackThenByte(bytes[4 * k], bytes[4 * k + 1], bytes[4 * k + 2], bytes[4 * k + 3]);
    }
  }

  // ---------------------------------------------------------------- the chip

  class Chip {
    var cells: seq<byte>
    const eraseSize: nat
    const writeSize: nat
    const readSize: nat
    // The ROM's write protection is off.
    var unlocked: bool
    // How many well-formed commands the hardware has refused or cut.
    ghost var faults: nat
    // Ranges of the successful erase commands, oldest first.
    ghost var erases: seq<Range>
    // All erase and program commands that reached the hardware, oldest first.
    ghost var commands: seq<Command>
    // What the cells held after each of these commands, completed or cut.
    ghost var contents: seq<seq<byte>>
    // All ROM reads asked for, oldest first.
    ghost var romReads: seq<Range>

    constructor (image: seq<byte>, eraseSize: nat, writeSize: nat, readSize: nat)
      requires 0 < eraseSize && 0 < writeSize && 0 < readSize
      requires |image| % eraseSize == 0 && |image| < USIZE_RANGE
      ensures Valid() && cells == image
      ensures this.eraseSize == eraseSize && this.writeSize == writeSize && this.readSize == readSize
      ensures faults == 0 && erases == [] && commands == [] && contents == [] && romReads == [] && !unlocked
    {
      cells := image;
      this.eraseSize, this.writeSize, this.readSize := eraseSize, writeSize, readSize;
      faults, erases, commands, contents, romReads := 0, [], [], [], [];
      unlocked := false;
    }

    // Facts about the part; no command changes them.
    ghost predicate Valid()
      reads this
    {
      0 < eraseSize && 0 < writeSize && 0 < readSize && |cells| % eraseSize == 0 && |cells| < USIZE_RANGE
    }

    // What `embedded-storage` demands of an erase, a program and a read.
    predicate EraseFits(from: nat, to: nat)
      reads this
      requires Valid()
    {
      from % eraseSize == 0 && to % eraseSize == 0 && from <= to <= |cells|
    }

    predicate ProgramFits(at: nat, len: nat)
      reads this
      requires Valid()
    {
      at % writeSize == 0 && len % writeSize == 0 && at + len <= |cells|
    }

    predicate ReadFits(at: nat, len: nat)
      reads this
      requires Valid()
    {
      at % readSize == 0 && len % readSize == 0 && at + len <= |cells|
    }

    // -------------------------------------------------------------- what the hardware does

    // Changes the cells of [from, to) to whatever a cut erase leaves there.
    method Disturb(from: nat, to: nat)
      requires from <= to <= |cells|
      modifies this`cells
      ensures SameOutside(old(cells), cells, from, to)
    {
      for i := from to to
        invariant SameOutside(old(cells), cells, from, to)
      {
        var junk: byte := *;
        cells := cells[i := junk];
      }
    }

    // Clears in [at, at + |data|) some of the bits that `data` asks to clear.
    method ClearSome(at: nat, data: seq<byte>)
      requires at + |data| <= |cells|
      modifies this`cells
      ensures Torn(old(cells), at, data, cells)
    {
      hide Torn, Cut, CutByte;
      UntouchedIsTorn(cells, at, data[..0]);
      for i := 0 to |data|
        invariant |cells| == |old(cells)| && Torn(old(cells), at, data[..i], cells)
      {
        var mask: byte := *;
        var b := Cut(cells[at + i], data[i], mask);
        ClearedBits(cells[at + i], data[i], mask);
        TornStep(old(cells), at, data, i, cells, b);
        cells := cells[at + i := b];
      }
      assert data[..|data|] == data;
    }

    method Program(at: nat, data: seq<byte>) returns (ok: bool)
      requires at + |data| <= |cells|
      modifies this
      ensures unlocked == old(unlocked)
      ensures ok ==> cells == Programmed(old(cells), at, data)
      ensures faults == old(faults) + (if ok then 0 else 1)
      ensures Torn(old(cells), at, data, cells)
      ensures contents == old(contents) + [cells]
      ensures erases == old(erases) && commands == old(commands) + [ProgramOf(Range(at, at + |data|))]
    {
      commands := commands + [ProgramOf(Range(at, at + |data|))];
      ok := *;
      if ok {
        ProgrammedIsTorn(cells, at, data);
        cells := Programmed(cells, at, data);
      } else {
        ClearSome(at, data);
        faults := faults + 1;
      }
      contents := contents + [cells];
    }

    // -------------------------------------------------------------- NorFlash commands

    method Erase(from: nat, to: nat) returns (ok: bool)
      requires Valid()
      modifies this
      ensures unlocked == old(unlocked)
      ensures ok ==> old(EraseFits(from, to)) && cells == Erased(old(cells), from, to)
      ensures !old(EraseFits(from, to)) ==> cells == old(cells) && faults == old(faults)
      ensures old(EraseFits(from, to)) ==> faults == old(faults) + (if ok then 0 else 1)
      ensures SameOutside(old(cells), cells, from, to)
      ensures contents == if old(EraseFits(from, to)) then old(contents) + [cells] else old(contents)
      ensures erases == if ok then old(erases) + [Range(from, to)] else old(erases)
      ensures commands == if old(EraseFits(from, to)) then old(commands) + [EraseOf(Range(from, to))] else old(commands)
    {
      if from % eraseSize != 0 || to % eraseSize != 0 || from > to || to > |cells| {
        return false;
      }
      commands := commands + [EraseOf(Range(from, to))];
      ok := *;
      if ok {
        cells := Erased(cells, from, to);
        erases := erases + [Range(from, to)];
      } else {
        Disturb(from, to);
        faults := faults + 1;
      }
      contents := contents + [cells];
    }

    method Write(at: nat, data: seq<byte>) returns (ok: bool)
      requires Valid()
      modifies this
      ensures unlocked == old(unlocked)
      ensures ok ==> old(ProgramFits(at, |data|)) && cells == Programmed(old(cells), at, data)
      ensures !old(ProgramFits(at, |data|)) ==> cells == old(cells) && faults == old(faults)
      ensures old(ProgramFits(at, |data|)) ==> faults == old(faults) + (if ok then 0 else 1)
      ensures Torn(old(cells), at, data, cells)
      ensures erases == old(erases)
      ensures contents == if old(ProgramFits(at, |data|)) then old(contents) + [cells] else old(contents)
      ensures commands == if old(ProgramFits(at, |data|)) then old(commands) + [ProgramOf(Range(at, at + |data|))]
                          else old(commands)
    {
      if at % writeSize != 0 || |data| % writeSize != 0 || at + |data| > |cells| {
        UntouchedIsTorn(cells, at, data);
        return false;
      }
      ok := Program(at, data);
    }

    method Read(at: nat, out: array<byte>, len: nat) returns (ok: bool)
      requires Valid() && len <= out.Length
      modifies this`faults, out
      ensures ok ==> ReadFits(at, len) && out[..len] == cells[at..at + len]
      ensures ReadFits(at, len) ==> faults == old(faults) + (if ok then 0 else 1)
      ensures !ReadFits(at, len) ==> faults == old(faults)
      ensures out[len..] == old(out[len..])
    {
      if at % readSize != 0 || len % readSize != 0 || at + len > |cells| {
        return false;
      }
      ok := *;
      if ok {
        forall i | 0 <= i < len {
          out[i] := cells[at + i];
        }
      } else {
        for i := 0 to len
          modifies out
          invariant out[len..] == old(out[len..])
        {
          out[i] := *;
        }
        faults := faults + 1;
      }
    }

    // -------------------------------------------------------------- ROM commands

    method RomUnlock() returns (ok: bool)
      modifies this`faults, this`unlocked
      ensures faults == old(faults) + (if ok then 0 else 1)
      ensures ok ==> unlocked
    {
      ok := *;
      unlocked := unlocked || ok;
      if !ok {
        faults := faults + 1;
      }
    }

    // The ROM neither erases nor programs while the flash is protected.
    method RomEraseSector(sector: nat) returns (ok: bool)
      requires Valid()
      modifies this
      ensures unlocked == old(unlocked)
      ensures var from := sector * eraseSize; var to := from + eraseSize;
        && (ok ==> to <= |old(cells)| && cells == Erased(old(cells), from, to))
        && (to > |old(cells)| || !old(unlocked) ==> cells == old(cells) && faults == old(faults))
        && (to <= |old(cells)| && old(unlocked) ==> faults == old(faults) + (if ok then 0 else 1))
        && SameOutside(old(cells), cells, from, to)
        && erases == (if ok then old(erases) + [Range(from, to)] else old(erases))
        && contents == (if to <= |old(cells)| && old(unlocked) then old(contents) + [cells] else old(contents))
    {
      if !unlocked {
        UntouchedOutside(cells, sector * eraseSize, sector * eraseSize + eraseSize);
        return false;
      }
      DivModUnique(sector * eraseSize, eraseSize, sector, 0);
      SumOfMultiples(sector * eraseSize, eraseSize, eraseSize);
      ok := Erase(sector * eraseSize, sector * eraseSize + eraseSize);
    }

    // Reads whole words; the ROM accepts nothing else.
    method RomRead(start: nat, window: array<bv32>, len: nat) returns (ok: bool)
      requires start % 4 == 0 && len % 4 == 0 && len <= 4 * window.Length
      modifies this`faults, this`romReads, window
      ensures romReads == old(romReads) + [Range(start, start + len)]
      ensures start + len > |cells| ==> faults == old(faults)
      ensures ok ==> start + len <= |cells| && faults == old(faults)
      ensures ok ==> BytesOf(window[..])[..len] == cells[start..start + len]
      ensures start + len <= |cells| ==> faults == old(faults) + (if ok then 0 else 1)
    {
      romReads := romReads + [Range(start, start + len)];
      if start + len > |cells| {
        return false;
      }
      ok := *;
      if !ok {
        faults := faults + 1;
        return;
      }
      forall k | 0 <= k < len / 4 {
        window[k] :=
            PackLE(cells[start + 4 * k], cells[start + 4 * k + 1], cells[start + 4 * k + 2], cells[start + 4 * k + 3]);
      }
      PackedWindow(window[..], cells[start..start + len]);
    }

    // Programs the first `len` bytes of the word buffer's memory image.
    method RomWrite(dest: nat, words: array<bv32>, len: nat) returns (ok: bool)
      requires dest % 4 == 0 && len % 4 == 0 && len <= 4 * words.Length
      modifies this
      ensures unlocked == old(unlocked)
      ensures ok ==> dest + len <= |old(cells)| && cells == Programmed(old(cells), dest, BytesOf(words[..])[..len])
      ensures dest + len > |old(cells)| || !old(unlocked) ==> cells == old(cells) && faults == old(faults)
      ensures dest + len <= |old(cells)| && old(unlocked) ==> faults == old(faults) + (if ok then 0 else 1)
      ensures erases == old(erases)
      ensures contents == if dest + len <= |old(cells)| && old(unlocked) then old(contents) + [cells] else old(contents)
      ensures Torn(old(cells), dest, BytesOf(words[..])[..len], cells)
    {
      if dest + len > |cells| || !unlocked {
        UntouchedIsTorn(cells, dest, BytesOf(words[..])[..len]);
        return false;
      }
      ok := Program(dest, BytesOf(words[..])[..len]);
    }
  }

  lemma UntouchedIsTorn(cells: seq<byte>, at: nat, data: seq<byte>)
    ensures Torn(cells, at, data, cells)
  {
  }

  // What a cut program leaves of one byte.
  predicate CutByte(before: byte, value: byte, after: byte) {
    Covers(before, after) && Covers(after, before & value)
  }

  lemma TornBytes(before: seq<byte>, at: nat, data: seq<byte>, after: seq<byte>)
    ensures Torn(before, at, data, after) <==>
      && SameOutside(before, after, at, at + |data|)
      && forall k :: 0 <= k < |before| && at <= k < at + |data| ==> CutByte(before[k], data[k - at], after[k])
  {
    hide Covers;
  }

  // One more byte of a cut program: `b` is what is left of it.
  lemma TornStep(before: seq<byte>, at: nat, data: seq<byte>, i: nat, was: seq<byte>, b: byte)
    requires i < |data| && at + i < |before| == |was|
    requires Torn(before, at, data[..i], was)
    requires CutByte(was[at + i], data[i], b)
    ensures Torn(before, at, data[..i + 1], was[at + i := b])
  {
    hide Torn, CutByte;
    var more, after := data[..i + 1], was[at + i := b];
    TornBytes(before, at, data[..i], was);
    forall k | 0 <= k < |before| && at <= k < at + |more| ensures CutByte(before[k], more[k - at], after[k]) {
      if k < at + i {
        assert more[k - at] == data[..i][k - at];
      }
    }
    TornBytes(before, at, more, after);
  }

  // Programming `value` over `b`, cut where `mask` has bits.
  function Cut(b: byte, value: byte, mask: byte): byte {
    b & (value | mask)
  }

  // Clearing some of the bits to clear, and no others.
  lemma ClearedBits(b: byte, value: byte, mask: byte)
    ensures CutByte(b, value, Cut(b, value, mask))
  {
  }
}
