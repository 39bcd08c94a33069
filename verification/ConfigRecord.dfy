/** Framing of one configuration record (adapters/config-space/src/lib.rs). */
module ConfigRecord {
  import opened Machine

  type u8 = x: int | 0 <= x < 256

  const MAGIC: seq<u8> := [67, 83, 77, 49]   // "CSM1"
  const FLAG_PRESENT: u8 := 1
  const HEADER_LEN: nat := 13

  datatype Record = Record(generation: nat, present: bool, payload: seq<u8>) {
    predicate Valid() {
      generation < U64_RANGE
    }
  }

  // Little-endian bytes of `x`, lowest first.
  function ToLE(x: nat, n: nat): (r: seq<u8>)
    ensures |r| == n
  {
    if n == 0 then [] else [x % 256] + ToLE(x / 256, n - 1)
  }

  function FromLE(b: seq<u8>): nat {
    if b == [] then 0 else b[0] + 256 * FromLE(b[1..])
  }

  function Pow256(n: nat): (r: nat)
    ensures 0 < r
  {
    if n == 0 then 1 else 256 * Pow256(n - 1)
  }

  lemma {:induction false} LERoundTrip(x: nat, n: nat)
    requires x < Pow256(n)
    ensures FromLE(ToLE(x, n)) == x
  {
    if n == 0 {
    } else {
      LERoundTrip(x / 256, n - 1);
      assert ToLE(x, n)[1..] == ToLE(x / 256, n - 1);
    }
  }

  lemma {:induction false} LEOfValue(b: seq<u8>)
    ensures FromLE(b) < Pow256(|b|) && ToLE(FromLE(b), |b|) == b
  {
    if b == [] {
    } else {
      LEOfValue(b[1..]);
      var v := FromLE(b);
      assert v % 256 == b[0] && v / 256 == FromLE(b[1..]);
      assert b == [b[0]] + b[1..];
    }
  }

  lemma U64HasEightBytes()
    ensures Pow256(8) == U64_RANGE
  {
    assert Pow256(1) == 256;
    assert Pow256(2) == 65536;
    assert Pow256(3) == 16777216;
    assert Pow256(4) == 0x1_0000_0000;
    assert Pow256(5) == 0x100_0000_0000;
    assert Pow256(6) == 0x1_0000_0000_0000;
    assert Pow256(7) == 0x100_0000_0000_0000;
  }

  function Encode(r: Record): (raw: seq<u8>)
    ensures |raw| == HEADER_LEN + |r.payload|
  {
    MAGIC + ToLE(r.generation, 8) + [if r.present then FLAG_PRESENT else 0] + r.payload
  }

  // `None` is a corrupt record. Any flag bit other than the lowest makes the record corrupt.
  function Decode(raw: seq<u8>): Option<Record> {
    if |raw| < HEADER_LEN || raw[..4] != MAGIC then None
    else
      var flags := raw[12];
      if flags / 2 != 0 then None
      else Some(Record(FromLE(raw[4..12]), flags % 2 == 1, raw[HEADER_LEN..]))
  }

  lemma {:induction false} ByteOfLE(x: nat, n: nat, k: nat)
    requires k < n
    ensures ToLE(x, n)[k] == x / Pow256(k) % 256
    decreases k
  {
    if k == 0 {
    } else {
      ByteOfLE(x / 256, n - 1, k - 1);
      DivideTwice(x, Pow256(k - 1));
    }
  }

  lemma DivideTwice(x: nat, b: nat)
    requires 0 < b
    ensures x / 256 / b == x / (256 * b)
  {
    var q, r := x / 256 / b, x / 256 % b;
    assert x / 256 == b * q + r;
    assert 256 * b * q == 256 * (b * q);
    DivModUnique(x, 256 * b, q, 256 * r + x % 256);
  }

  // The record byte by byte: "CSM1", the generation lowest byte first, a flag byte, the payload.
  lemma RecordLayout(r: Record)
    requires r.Valid()
    ensures var raw, g := Encode(r), r.generation;
      && |raw| == 13 + |r.payload|
      && raw[0] == 0x43 && raw[1] == 0x53 && raw[2] == 0x4D && raw[3] == 0x31
      && raw[4] == g % 256 && raw[5] == g / 0x100 % 256 && raw[6] == g / 0x1_0000 % 256
      && raw[7] == g / 0x100_0000 % 256 && raw[8] == g / 0x1_0000_0000 % 256 && raw[9] == g / 0x100_0000_0000 % 256
      && raw[10] == g / 0x1_0000_0000_0000 % 256 && raw[11] == g / 0x100_0000_0000_0000
      && raw[12] == (if r.present then 1 else 0)
      && raw[13..] == r.payload
  {
    var le := ToLE(r.generation, 8);
    U64HasEightBytes();
    forall k: nat | k < 8 ensures le[k] == r.generation / Pow256(k) % 256 {
      ByteOfLE(r.generation, 8, k);
    }
    PowersOf256();
    assert forall k: nat | k < 8 :: Encode(r)[4 + k] == le[k];
    hide ToLE, Pow256;
  }

  lemma PowersOf256()
    ensures Pow256(0) == 1 && Pow256(1) == 0x100 && Pow256(2) == 0x1_0000 && Pow256(3) == 0x100_0000
    ensures Pow256(4) == 0x1_0000_0000 && Pow256(5) == 0x100_0000_0000 && Pow256(6) == 0x1_0000_0000_0000
    ensures Pow256(7) == 0x100_0000_0000_0000
  {
    assert Pow256(1) == 0x100;
    assert Pow256(3) == 0x100_0000;
    assert Pow256(5) == 0x100_0000_0000;
  }

  // Decoding gives back what was encoded.
  lemma DecodeInvertsEncode(r: Record)
    requires r.Valid()
    ensures Decode(Encode(r)) == Some(r)
  {
    U64HasEightBytes();
    LERoundTrip(r.generation, 8);
    hide ToLE, FromLE, Pow256;
    var raw := Encode(r);
    assert raw[..4] == MAGIC;
    assert raw[4..12] == ToLE(r.generation, 8);
    assert raw[HEADER_LEN..] == r.payload;
  }

  // Whatever decodes is exactly the encoding of its record: no two encodings of one record.
  lemma EncodeInvertsDecode(raw: seq<u8>)
    requires Decode(raw).Some?
    ensures Decode(raw).value.Valid() && Encode(Decode(raw).value) == raw
  {
    U64HasEightBytes();
    LEOfValue(raw[4..12]);
    hide ToLE, FromLE, Pow256;
    var r := Decode(raw).value;
    assert raw == raw[..4] + raw[4..12] + [raw[12]] + raw[13..];
  }
}
