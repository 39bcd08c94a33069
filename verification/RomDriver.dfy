/** ROM flash access for arbitrary byte ranges (hardware/boot/src/lib.rs). The
    ROM only moves whole words between word-aligned places, so reads go through
    a 64-word window and programs through 256-byte chunks. */
module RomDriver {
  import opened Machine
  import opened FlashChip

  datatype FlashError = Read(at: nat) | Program(at: nat) | EraseFailed(sector: nat) | UnlockFailed

  const WINDOW_WORDS: nat := 64

  // The mask `pos & !3` of the source is this rounding.
  lemma MaskAlignsDown(x: nat)
    requires x < USIZE_RANGE
    ensures BitAnd(x, BitNot32(3)) == RoundDown(x, 4)
  {
    assert Pow2(2) == 4;
    MaskIsRoundDown(x, 4, 2);
  }

  lemma WindowGeometry(skip: nat, want: nat, len: nat, start: nat, cells: nat)
    requires skip < 4 && 0 < want <= 252 && start % 4 == 0 && cells % 4 == 0
    requires len == DivCeil(skip + want, 4) * 4
    ensures skip + want <= len < skip + want + 4 && len <= 4 * WINDOW_WORDS && len % 4 == 0
    ensures start + skip + want <= cells ==> start + len <= cells
    ensures start + len == WordsEnd(start + skip + want)
  {
  }

  // The end of the word that holds the byte before `end`.
  function WordsEnd(end: nat): (r: nat)
    ensures end <= r
  {
    DivCeil(end, 4) * 4
  }

  // A window of the request is a read of whole words around it.
  lemma WindowIsWordRead(pos: nat, want: nat, offset: nat, len: nat)
    requires offset <= pos && 0 < want <= 252 && pos + want <= offset + len
    ensures WordRead(Range(RoundDown(pos, 4), WordsEnd(pos + want)), RoundDown(offset, 4), WordsEnd(offset + len))
  {
    hide RoundDown, WordsEnd;
    RoundedDown(pos, 4);
    RoundedDown(offset, 4);
    WordsEndNear(pos + want);
    WordsEndNear(offset + len);
    WordOrder(RoundDown(offset, 4), RoundDown(pos, 4));
    WordOrder(WordsEnd(pos + want), WordsEnd(offset + len));
    WordOrder(WordsEnd(pos + want), RoundDown(pos, 4) + 256);
  }

  lemma WordsEndNear(end: nat)
    ensures WordsEnd(end) < end + 4 && WordsEnd(end) % 4 == 0
  {
  }

  lemma WordOrder(a: nat, b: nat)
    requires a % 4 == 0 && b % 4 == 0 && a < b + 4
    ensures a <= b
  {
  }

  lemma SliceOfSlice(image: seq<byte>, start: nat, len: nat, skip: nat, want: nat)
    requires start + len <= |image| && skip + want <= len
    ensures image[start..start + len][skip..skip + want] == image[start + skip..start + skip + want]
  {
    var a, b := image[start..start + len][skip..skip + want], image[start + skip..start + skip + want];
    assert forall k :: 0 <= k < want ==> a[k] == image[start + skip + k] == b[k];
  }

  // One aligned window around [pos, pos + want): the first word starts at or
  // before `pos`, the last one ends at most three bytes past the end.
  method ReadWindow(chip: Chip, pos: nat, want: nat) returns (r: Result<seq<byte>, FlashError>)
    requires chip.Valid() && pos < USIZE_RANGE && 0 < want <= 252 && |chip.cells| % 4 == 0
    modifies chip`faults, chip`romReads
    ensures old(chip.faults) <= chip.faults
    ensures r.Ok? ==> pos + want <= |chip.cells| && r.value == chip.cells[pos..pos + want]
    ensures r.Ok? ==> chip.faults == old(chip.faults)
    ensures pos + want <= |chip.cells| ==> chip.faults == old(chip.faults) + (if r.Err? then 1 else 0)
    ensures r.Err? ==> r.error == Read(RoundDown(pos, 4))
    ensures chip.romReads == old(chip.romReads) + [Range(RoundDown(pos, 4), WordsEnd(pos + want))]
  {
    hide BytesOf, RoundDown, DivCeil, WordsEnd, BitAnd;
    var start := BitAnd(pos, BitNot32(3));
    MaskAlignsDown(pos);
    RoundedDown(pos, 4);
    var skip := pos - start;
    var len := DivCeil(skip + want, 4) * 4;
    WindowGeometry(skip, want, len, start, |chip.cells|);
    var window := new bv32[WINDOW_WORDS](_ => 0);
    var ok := chip.RomRead(start, window, len);
    if !ok {
      return Err(Read(start));
    }
    var bytes := BytesOf(window[..])[..len];
    SliceOfSlice(chip.cells, start, len, skip, want);
    r := Ok(bytes[skip..skip + want]);
  }

  // The ROM refused a window that starts at or just before a byte of the request.
  ghost predicate RefusedWindow(e: FlashError, offset: nat, len: nat) {
    e.Read? && exists p: nat :: offset <= p < offset + len && e.at == RoundDown(p, 4)
  }

  lemma WindowIsRefused(p: nat, offset: nat, len: nat)
    requires offset <= p < offset + len
    ensures RefusedWindow(Read(RoundDown(p, 4)), offset, len)
  {
  }

  lemma LeastOfTwo(a: nat, b: nat)
    ensures Min(a, b) <= a && Min(a, b) <= b && (Min(a, b) == a || Min(a, b) == b)
  {
  }

  method FlashRead(chip: Chip, offset: nat, out: array<byte>, len: nat) returns (r: Result<(), FlashError>)
    requires chip.Valid() && len <= out.Length
    requires offset < USIZE_RANGE && |chip.cells| % 4 == 0
    modifies chip`faults, chip`romReads, out
    ensures old(chip.faults) <= chip.faults
    ensures r.Ok? && 0 < len ==> offset + len <= |chip.cells| && out[..len] == chip.cells[offset..offset + len]
    ensures r.Ok? ==> chip.faults == old(chip.faults)
    ensures offset + len <= |chip.cells| ==> chip.faults == old(chip.faults) + (if r.Err? then 1 else 0)
    ensures r.Err? ==> RefusedWindow(r.error, offset, len)
    ensures out[len..] == old(out[len..])
    // the ROM is asked for whole words, 64 at most, none outside the request rounded out to words
    ensures WordReads(old(chip.romReads), chip.romReads, RoundDown(offset, 4), WordsEnd(offset + len))
  {
    hide RoundDown, RefusedWindow, Min, Wrap32, WordReads, WordRead, WordsEnd;
    NoReads(chip.romReads, RoundDown(offset, 4), WordsEnd(offset + len));
    ghost var image := chip.cells;
    var done := 0;
    while done < len
      invariant done <= len
      invariant 0 < done ==> offset + done <= |image|
      invariant forall k :: 0 <= k < done ==> out[k] == image[offset + k]
      invariant forall k :: len <= k < out.Length ==> out[k] == old(out[k])
      invariant chip.faults == old(chip.faults)
      invariant WordReads(old(chip.romReads), chip.romReads, RoundDown(offset, 4), WordsEnd(offset + len))
    {
      var want := Min(len - done, 252);
      assert 0 < want <= 252 && want <= len - done by {
        LeastOfTwo(len - done, 252);
      }
      var pos := Wrap32(offset + done);
      assert pos == offset + done;
      WindowIsWordRead(pos, want, offset, len);
      OneMoreRead(old(chip.romReads), chip.romReads, Range(RoundDown(pos, 4), WordsEnd(pos + want)),
                  RoundDown(offset, 4), WordsEnd(offset + len));
      var got := ReadWindow(chip, pos, want);
      if got.Err? {
        WindowIsRefused(offset + done, offset, len);
        return Err(got.error);
      }
      forall k | 0 <= k < want {
        out[done + k] := got.value[k];
      }
      done := done + want;
    }
    r := Ok(());
  }

  // Chunks before `done` are programmed, the chunk at `done` is cut anywhere, nothing follows.
  ghost predicate StoppedAt(before: seq<byte>, at: nat, data: seq<byte>, done: nat, after: seq<byte>)
    requires done <= |data|
  {
    Torn(Programmed(before, at, data[..done]), at + done, data[done..Min(done + 256, |data|)], after)
  }

  lemma StoppedIsTorn(before: seq<byte>, at: nat, data: seq<byte>, done: nat, after: seq<byte>)
    requires done <= |data| && StoppedAt(before, at, data, done, after)
    ensures Torn(before, at, data, after)
  {
    var chunk := data[done..Min(done + 256, |data|)];
    var mid := Programmed(before, at, data[..done]);
    forall i | 0 <= i < |before| && at <= i < at + |data|
      ensures Covers(before[i], after[i]) && Covers(after[i], before[i] & data[i - at])
    {
      if at + done <= i < at + done + |chunk| {
        assert chunk[i - at - done] == data[i - at];
      } else {
        assert after[i] == mid[i];
      }
    }
  }

  method ProgramChunk(chip: Chip, dest: nat, bytes: seq<byte>) returns (ok: bool)
    requires dest % 4 == 0 && |bytes| % 4 == 0 && |bytes| <= 4 * WINDOW_WORDS
    modifies chip
    ensures |chip.cells| == |old(chip.cells)|
    ensures ok ==> chip.cells == Programmed(old(chip.cells), dest, bytes) && chip.faults == old(chip.faults)
    ensures ok ==> dest + |bytes| <= |chip.cells|
    ensures chip.unlocked == old(chip.unlocked)
    ensures dest + |bytes| <= |chip.cells| && chip.unlocked ==> chip.faults == old(chip.faults) + (if ok then 0 else 1)
    ensures old(chip.faults) <= chip.faults
    ensures Torn(old(chip.cells), dest, bytes, chip.cells)
    ensures chip.erases == old(chip.erases)
    ensures chip.contents == old(chip.contents) || chip.contents == old(chip.contents) + [chip.cells]
  {
    hide Torn, Programmed, BytesOf;
    var words := Pack(bytes);
    ghost var before := chip.cells;
    ok := chip.RomWrite(dest, words, |bytes|);
    TornKeepsLength(before, dest, BytesOf(words[..])[..|bytes|], chip.cells);
  }

  method FlashProgram(chip: Chip, at: nat, data: seq<byte>) returns (r: Result<(), FlashError>)
    requires chip.Valid() && at < USIZE_RANGE
    modifies chip
    ensures chip.Valid() && |chip.cells| == |old(chip.cells)|
    ensures r.Ok? ==> at % 4 == 0 && |data| % 4 == 0
    ensures r.Ok? ==> chip.cells == Programmed(old(chip.cells), at, data) && chip.faults == old(chip.faults)
    ensures at % 4 != 0 || |data| % 4 != 0 ==> chip.cells == old(chip.cells) && r == Err(Program(at))
    ensures chip.unlocked == old(chip.unlocked)
    ensures at % 4 == 0 && |data| % 4 == 0 && at + |data| <= |chip.cells| && chip.unlocked ==>
              chip.faults == old(chip.faults) + (if r.Err? then 1 else 0)
    ensures r.Err? ==> r.error.Program? && at <= r.error.at <= at + |data| && ChunkStart(r.error.at - at)
    // the chunks before the failing one are complete, those after it untouched
    ensures r.Err? ==> StoppedAt(old(chip.cells), at, data, r.error.at - at, chip.cells)
    ensures Torn(old(chip.cells), at, data, chip.cells)
    ensures old(chip.faults) <= chip.faults && chip.erases == old(chip.erases)
    // after every chunk the flash is a cut of the whole program
    ensures old(chip.contents) <= chip.contents
    ensures TornLog(old(chip.cells), at, data, chip.contents, |old(chip.contents)|)
  {
    hide Torn, Programmed, ChunkStart, Wrap32;
    NoChunks();
    if at % 4 != 0 || |data| % 4 != 0 {
      NothingProgrammed(chip.cells, at, data);
      return Err(Program(at));
    }
    var done := 0;
    NothingProgrammed(chip.cells, at, data);
    while done < |data|
      invariant |chip.cells| == |old(chip.cells)|
      invariant done <= |data| && (done < |data| ==> ChunkStart(done))
      invariant 0 < done ==> at + done <= |chip.cells| < USIZE_RANGE
      invariant chip.unlocked == old(chip.unlocked)
      invariant chip.erases == old(chip.erases) && old(chip.contents) <= chip.contents
      invariant TornLog(old(chip.cells), at, data, chip.contents, |old(chip.contents)|)
      invariant chip.cells == Programmed(old(chip.cells), at, data[..done])
      invariant chip.faults == old(chip.faults)
    {
      var n := Min(|data| - done, 256);
      ChunkEnds(at, done, n, |data|);
      var dest := Wrap32(at + done);
      assert dest == at + done;
      var ok := ProgramChunk(chip, dest, data[done..done + n]);
      StoppedIsTorn(old(chip.cells), at, data, done, chip.cells);
      if !ok {
        return Err(Program(dest));
      }
      ProgramInPieces(old(chip.cells), at, data, done, n);
      done := done + n;
    }
    assert data[..|data|] == data;
    ProgrammedIsTorn(old(chip.cells), at, data);
    r := Ok(());
  }

  // Fills a word buffer from bytes, four at a time, lowest byte first.
  method Pack(bytes: seq<byte>) returns (words: array<bv32>)
    requires |bytes| % 4 == 0 && |bytes| <= 4 * WINDOW_WORDS
    ensures fresh(words) && words.Length == WINDOW_WORDS
    ensures BytesOf(words[..])[..|bytes|] == bytes
  {
    words := new bv32[WINDOW_WORDS](_ => 0);
    for k := 0 to |bytes| / 4
      invariant forall j :: 0 <= j < k ==>
        words[j] == PackLE(bytes[4 * j], bytes[4 * j + 1], bytes[4 * j + 2], bytes[4 * j + 3])
    {
      words[k] := PackLE(bytes[4 * k], bytes[4 * k + 1], bytes[4 * k + 2], bytes[4 * k + 3]);
    }
    PackedWindow(words[..], bytes);
  }

  lemma NoChunks()
    ensures ChunkStart(0)
  {
  }

  lemma NothingProgrammed(cells: seq<byte>, at: nat, data: seq<byte>)
    ensures Programmed(cells, at, data[..0]) == cells
    ensures StoppedAt(cells, at, data, 0, cells) && Torn(cells, at, data, cells)
  {
    UntouchedIsTorn(cells, at, data[0..Min(256, |data|)]);
    UntouchedIsTorn(cells, at, data);
    assert Programmed(cells, at, data[..0]) == cells;
  }

  // Chunks start at multiples of their size.
  predicate ChunkStart(done: nat) {
    done % 256 == 0
  }

  lemma ChunkEnds(at: nat, done: nat, n: nat, len: nat)
    requires at % 4 == 0 && ChunkStart(done) && done < len && len % 4 == 0 && n == Min(len - done, 256)
    ensures n % 4 == 0 && (at + done) % 4 == 0 && (done + n < len ==> ChunkStart(done + n))
  {
    DivModUnique(done, 4, 64 * (done / 256), 0);
    SumOfMultiples(at, done, 4);
    if n == 256 {
      DivModUnique(done + n, 256, done / 256 + 1, 0);
    } else {
      DifferenceOfMultiples(len, done, 4);
    }
  }

  lemma ProgramInPieces(cells: seq<byte>, at: nat, data: seq<byte>, done: nat, n: nat)
    requires done + n <= |data|
    ensures Programmed(Programmed(cells, at, data[..done]), at + done, data[done..done + n])
         == Programmed(cells, at, data[..done + n])
  {
  }

  // Reading back what was programmed gives the data exactly when no bit it sets was already
  // cleared; over erased cells it always does.
  lemma ReadsBack(cells: seq<byte>, at: nat, data: seq<byte>)
    requires at + |data| <= |cells|
    ensures Programmed(cells, at, data)[at..at + |data|] == data
       <==> forall j :: 0 <= j < |data| ==> Covers(cells[at + j], data[j])
    ensures (forall i :: at <= i < at + |data| ==> cells[i] == ERASED) ==>
              Programmed(cells, at, data)[at..at + |data|] == data
  {
    var back := Programmed(cells, at, data)[at..at + |data|];
    forall j | 0 <= j < |data|
      ensures back[j] == data[j] <==> Covers(cells[at + j], data[j])
      ensures cells[at + j] == ERASED ==> back[j] == data[j]
    {
      ReadsBackAt(cells, at, data, j);
    }
    hide Programmed, Covers;
  }

  lemma ReadsBackAt(cells: seq<byte>, at: nat, data: seq<byte>, j: nat)
    requires at + |data| <= |cells| && j < |data|
    ensures Programmed(cells, at, data)[at + j] == data[j] <==> Covers(cells[at + j], data[j])
    ensures cells[at + j] == ERASED ==> Programmed(cells, at, data)[at + j] == data[j]
  {
    ErasedIsNeutral(data[j]);
  }

  lemma ErasedIsNeutral(b: byte)
    ensures ERASED & b == b
  {
  }
}
