/** The `otadata` entry format as far as this repository relies on it, and the update protocol:
    erase a sector, program the body, program the commit word, each checked before the next.
    The format itself belongs to FiBeWI; `Lawful` states the contract its users here assume. */
module BootEntries {
  import opened Machine
  import opened FlashChip

  const SECTOR_SIZE: nat := 0x1000

  // Fields the repository reads: a 32-bit sequence number and a 32-bit state code.
  datatype Entry = Entry(seqNo: u32, state: u32)

  datatype Write = Write(sector: nat, entry: Entry)

  // `data` is the slice of the operation's buffer that is programmed.
  datatype Op = Erase | Program(offset: nat, data: seq<byte>)

  datatype Ops = Ops(erase: Op, body: Op, commit: Op)

  datatype Codec = Codec(
    entrySize: nat,
    commitAt: nat,
    commitLen: nat,
    encode: Entry -> seq<byte>,
    body: Entry -> seq<byte>,
    decode: seq<byte> -> Option<Entry>,
    ops: Write -> Ops)
  {
    ghost predicate Lawful() {
      && commitAt + commitLen <= entrySize <= SECTOR_SIZE
      && (forall e :: |encode(e)| == entrySize && decode(encode(e)) == Some(e))
      && (forall w :: LawfulOps(w))
      // an entry whose commit word is still erased does not decode
      && (forall raw | |raw| == entrySize && raw[commitAt..commitAt + commitLen] == Blank(commitLen) ::
            decode(raw) == None)
      // nor does one whose commit word is not exactly the right one
      && (forall e, raw | SameOutside(encode(e), raw, commitAt, commitAt + commitLen) ::
            raw == encode(e) || decode(raw) == None)
    }

    // The body operation leaves the commit word erased; the commit operation writes only that word.
    ghost predicate LawfulOps(w: Write) {
      var o := ops(w);
      && o.erase.Erase? && o.body.Program? && o.commit.Program?
      && o.body.offset + |o.body.data| <= entrySize
      && (o.body.offset + |o.body.data| <= commitAt || commitAt + commitLen <= o.body.offset)
      && o.commit.offset == commitAt && |o.commit.data| == commitLen
      && Programmed(Blank(entrySize), o.body.offset, o.body.data) == body(w.entry)
      && Programmed(body(w.entry), o.commit.offset, o.commit.data) == encode(w.entry)
    }
  }

  function Blank(n: nat): (r: seq<byte>)
    ensures |r| == n
  {
    seq(n, _ => ERASED)
  }

  // ---------------------------------------------------------------- the laws have a model

  function SampleBody(e: Entry): seq<byte> {
    ToLE32(e.seqNo) + ToLE32(e.state) + Blank(4)
  }

  function SampleEncode(e: Entry): seq<byte> {
    ToLE32(e.seqNo) + ToLE32(e.state) + [0, 0, 0, 0]
  }

  function SampleDecode(raw: seq<byte>): Option<Entry> {
    if |raw| == 12 && raw[8..12] == [0, 0, 0, 0] then Some(Entry(LE32(raw, 0), LE32(raw, 4))) else None
  }

  // Two words and a commit word that is cleared last.
  const SAMPLE := Codec(12, 8, 4, SampleEncode, SampleBody, SampleDecode,
                        (w: Write) => Ops(Erase, Program(0, ToLE32(w.entry.seqNo) + ToLE32(w.entry.state)),
                                          Program(8, [0, 0, 0, 0])))

  lemma LawsHaveAModel()
    ensures SAMPLE.Lawful()
  {
    hide SampleEncode, SampleDecode, SampleBody, SameOutside;
    forall e ensures |SampleEncode(e)| == 12 && SampleDecode(SampleEncode(e)) == Some(e) {
      SampleRoundTrip(e);
    }
    forall w: Write ensures SAMPLE.LawfulOps(w) {
      SampleOps(w.entry);
    }
    forall raw | |raw| == 12 && raw[8..12] == Blank(4) ensures SampleDecode(raw) == None {
      SampleBlank(raw);
    }
    forall e, raw | SameOutside(SampleEncode(e), raw, 8, 12)
      ensures raw == SampleEncode(e) || SampleDecode(raw) == None
    {
      SampleCommit(e, raw);
    }
  }

  lemma SampleFields(e: Entry)
    ensures LE32(SampleEncode(e), 0) == LE32(ToLE32(e.seqNo), 0) && LE32(SampleEncode(e), 4) == LE32(ToLE32(e.state), 0)
  {
    hide ToLE32;
  }

  lemma SampleRoundTrip(e: Entry)
    ensures |SampleEncode(e)| == 12 && SampleDecode(SampleEncode(e)) == Some(e)
  {
    LE32RoundTrip(e.seqNo);
    LE32RoundTrip(e.state);
    SampleFields(e);
    hide ToLE32, LE32;
  }

  lemma SampleBlank(raw: seq<byte>)
    requires |raw| == 12 && raw[8..12] == Blank(4)
    ensures SampleDecode(raw) == None
  {
    assert Blank(4)[0] == ERASED;
  }

  lemma SampleCommit(e: Entry, raw: seq<byte>)
    requires SameOutside(SampleEncode(e), raw, 8, 12)
    ensures raw == SampleEncode(e) || SampleDecode(raw) == None
  {
    hide ToLE32, LE32;
    if raw[8..12] == [0, 0, 0, 0] {
      assert raw == raw[..8] + raw[8..12];
      assert SampleEncode(e) == raw[..8] + [0, 0, 0, 0];
    }
  }

  lemma SampleOps(e: Entry)
    ensures Programmed(Blank(12), 0, ToLE32(e.seqNo) + ToLE32(e.state)) == SampleBody(e)
    ensures Programmed(SampleBody(e), 8, [0, 0, 0, 0]) == SampleEncode(e)
  {
    hide ToLE32;
    var d := ToLE32(e.seqNo) + ToLE32(e.state);
    forall i | 0 <= i < 12 ensures Programmed(Blank(12), 0, d)[i] == SampleBody(e)[i] {
    }
    forall i | 0 <= i < 12 ensures Programmed(SampleBody(e), 8, [0, 0, 0, 0])[i] == SampleEncode(e)[i] {
    }
  }
}
