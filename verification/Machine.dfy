/** Machine-level vocabulary shared by every module: bytes, the 32-bit address
    arithmetic of the ESP32 targets, and rounding helpers. */
module Machine {

  type byte = bv8

  type u32 = x: int | 0 <= x < 0x1_0000_0000

  const ERASED: byte := 0xFF
  const USIZE_RANGE: nat := 0x1_0000_0000   // usize and u32 are both 32 bits wide on the targets
  const U64_RANGE: nat := 0x1_0000_0000_0000_0000

  datatype Option<+T> = None | Some(value: T)
  datatype Result<+T, +E> = Ok(value: T) | Err(error: E)

  function Min(a: nat, b: nat): nat {
    if a <= b then a else b
  }

  // A sum as a 32-bit register holds it.
  function Wrap32(x: nat): (r: nat)
    ensures r < USIZE_RANGE && (x < USIZE_RANGE ==> r == x)
  {
    x % USIZE_RANGE
  }

  // Rust's `div_ceil`.
  function DivCeil(a: nat, b: nat): nat
    requires 0 < b
  {
    if a % b == 0 then a / b else a / b + 1
  }

  // The longest multiple of `m` that fits in `x`.
  function RoundDown(x: nat, m: nat): (r: nat)
    requires 0 < m
    ensures r <= x < r + m
  {
    x - x % m
  }

  // ---------------------------------------------------------------- little-endian numbers

  // The byte of value `n`.
  function ByteOfNat(n: nat): byte
    requires n < 256
  {
    if n == 0 then 0 else ByteOfNat(n - 1) + 1
  }

  lemma {:induction false} ByteHoldsNumber(n: nat)
    requires n < 256
    ensures ByteOfNat(n) as int == n
  {
    if n == 0 {
    } else {
      ByteHoldsNumber(n - 1);
      NextByte(ByteOfNat(n - 1));
    }
  }

  lemma NextByte(b: byte)
    requires b as int < 255
    ensures (b + 1) as int == b as int + 1
  {
  }

  function ToLE32(x: u32): (r: seq<byte>)
    ensures |r| == 4
  {
    [ByteOfNat(x % 256), ByteOfNat(x / 256 % 256), ByteOfNat(x / 65536 % 256), ByteOfNat(x / 16777216)]
  }

  function LE32(b: seq<byte>, at: nat): u32
    requires at + 4 <= |b|
  {
    b[at] as int + 256 * (b[at + 1] as int) + 65536 * (b[at + 2] as int) + 16777216 * (b[at + 3] as int)
  }

  // Division by 256, one byte after the other, takes a number apart.
  lemma BytesOfNumber(x: u32)
    ensures x % 256 + 256 * (x / 256 % 256) + 65536 * (x / 65536 % 256) + 16777216 * (x / 16777216) == x
    ensures 0 <= x / 16777216 < 256
  {
    var q1 := x / 256;
    var q2 := q1 / 256;
    var q3 := q2 / 256;
    assert x == 256 * q1 + x % 256 && q1 == 256 * q2 + q1 % 256 && q2 == 256 * q3 + q2 % 256;
    DivModUnique(x, 65536, q2, 256 * (q1 % 256) + x % 256);
    DivModUnique(x, 16777216, q3, 65536 * (q2 % 256) + 256 * (q1 % 256) + x % 256);
  }

  lemma LE32RoundTrip(x: u32)
    ensures LE32(ToLE32(x), 0) == x
  {
    BytesOfNumber(x);
    ByteHoldsNumber(x % 256);
    ByteHoldsNumber(x / 256 % 256);
    ByteHoldsNumber(x / 65536 % 256);
    ByteHoldsNumber(x / 16777216);
  }

  // ---------------------------------------------------------------- masks

  function Pow2(k: nat): (r: nat)
    ensures 0 < r
  {
    if k == 0 then 1 else 2 * Pow2(k - 1)
  }

  // The bitwise `&` of two unsigned numbers, from the lowest bit up.
  function BitAnd(a: nat, b: nat): nat {
    if a == 0 then 0 else (if a % 2 == 1 && b % 2 == 1 then 1 else 0) + 2 * BitAnd(a / 2, b / 2)
  }

  // The bitwise `!` of a 32-bit number.
  function BitNot32(x: nat): nat
    requires x < USIZE_RANGE
  {
    USIZE_RANGE - 1 - x
  }

  lemma {:induction false} AllOnesKeep(x: nat, width: nat)
    requires x < Pow2(width)
    ensures BitAnd(x, Pow2(width) - 1) == x
  {
    if x == 0 {
    } else {
      assert (Pow2(width) - 1) / 2 == Pow2(width - 1) - 1;
      AllOnesKeep(x / 2, width - 1);
    }
  }

  // Clearing the `k` lowest bits rounds down to a multiple of two to the `k`.
  lemma {:induction false} MaskRoundsDown(x: nat, k: nat, width: nat)
    requires k <= width && x < Pow2(width)
    ensures Pow2(k) <= Pow2(width) && BitAnd(x, Pow2(width) - Pow2(k)) == RoundDown(x, Pow2(k))
    decreases k
  {
    if k == 0 {
      AllOnesKeep(x, width);
    } else {
      MaskRoundsDown(x / 2, k - 1, width - 1);
      assert (Pow2(width) - Pow2(k)) / 2 == Pow2(width - 1) - Pow2(k - 1);
      RoundDownDoubles(x, Pow2(k - 1));
    }
  }

  lemma RoundDownDoubles(x: nat, m: nat)
    requires 0 < m
    ensures RoundDown(x, 2 * m) == 2 * RoundDown(x / 2, m)
  {
    var q, r := x / 2 / m, x / 2 % m;
    assert x / 2 == m * q + r;
    assert 2 * m * q == 2 * (m * q);
    DivModUnique(x, 2 * m, q, 2 * r + x % 2);
  }

  lemma Pow2Of32()
    ensures Pow2(32) == USIZE_RANGE
  {
    assert Pow2(8) == 0x100;
    assert Pow2(16) == 0x1_0000;
    assert Pow2(24) == 0x100_0000;
  }

  // The source's idiom `x & !(m - 1)` for a power of two is rounding down.
  lemma MaskIsRoundDown(x: nat, m: nat, k: nat)
    requires x < USIZE_RANGE && m == Pow2(k) && k <= 32
    ensures m <= USIZE_RANGE && BitAnd(x, BitNot32(m - 1)) == RoundDown(x, m)
  {
    Pow2Of32();
    MaskRoundsDown(x, k, 32);
  }

  // ---------------------------------------------------------------- division

  // The only quotient and remainder that fit.
  lemma DivModUnique(x: int, m: int, q: int, r: int)
    requires 0 < m && 0 <= r < m && x == m * q + r
    ensures x / m == q && x % m == r
  {
    var d := x / m - q;
    assert m * d == r - x % m by {
      assert x == m * (x / m) + x % m;
      assert m * (x / m - q) == m * (x / m) - m * q;
    }
    assert d > 0 ==> m * d >= m;
    assert d < 0 ==> m * d <= -m;
  }

  // Stepping a dividend by one crosses a multiple or stays within the quotient.
  lemma DivStep(x: int, m: int)
    requires 1 < m
    ensures x / m == (x - 1) / m + (if x % m == 0 then 1 else 0)
  {
    var q, r := (x - 1) / m, (x - 1) % m;
    if r == m - 1 {
      assert m * (q + 1) == m * q + m;
      DivModUnique(x, m, q + 1, 0);
    } else {
      DivModUnique(x, m, q, r + 1);
    }
  }

  lemma SumOfMultiples(a: nat, b: nat, m: nat)
    requires 0 < m && a % m == 0 && b % m == 0
    ensures (a + b) % m == 0
    ensures (a + b) / m == a / m + b / m
  {
    assert a + b == m * (a / m + b / m) by {
      assert a == m * (a / m) && b == m * (b / m);
      assert m * (a / m + b / m) == m * (a / m) + m * (b / m);
    }
    DivModUnique(a + b, m, a / m + b / m, 0);
  }

  lemma DifferenceOfMultiples(a: nat, b: nat, m: nat)
    requires 0 < m && b <= a && a % m == 0 && b % m == 0
    ensures (a - b) % m == 0
    ensures a == b || b + m <= a
  {
    assert a - b == m * (a / m - b / m) by {
      assert a == m * (a / m) && b == m * (b / m);
      assert m * (a / m - b / m) == m * (a / m) - m * (b / m);
    }
    DivModUnique(a - b, m, a / m - b / m, 0);
    if a != b {
      assert a - b == m * ((a - b) / m);
      assert (a - b) / m >= 1;
    }
  }

  lemma RoundedDown(n: nat, m: nat)
    requires 0 < m
    ensures RoundDown(n, m) % m == 0
    ensures n % m == 0 ==> RoundDown(n, m) == n
  {
    DivModUnique(n - n % m, m, n / m, 0);
  }

  lemma RoundedUp(n: nat, m: nat)
    requires 0 < m
    ensures n <= DivCeil(n, m) * m < n + m
    ensures n % m == 0 ==> DivCeil(n, m) * m == n
    ensures (DivCeil(n, m) * m) % m == 0
  {
    var q := n / m;
    assert n == q * m + n % m;
    if n % m != 0 {
      assert (q + 1) * m == q * m + m;
    }
    var c := DivCeil(n, m);
    assert c * m == m * c + 0;
    DivModUnique(c * m, m, c, 0);
  }

  // The units of size `m` that `n` reaches into end at `n` rounded up.
  lemma UnitsReached(n: nat, m: nat, i: nat)
    requires 0 < m
    ensures i < DivCeil(n, m) * m <==> i - i % m < n
  {
    RoundedUp(n, m);
    RoundedDown(i, m);
    var c, d := DivCeil(n, m) * m, RoundDown(i, m);
    hide DivCeil;
    if d < c {
      DifferenceOfMultiples(c, d, m);
    }
  }

  lemma MultipleOfMultiple(a: nat, m: nat, n: nat)
    requires 0 < m && 0 < n && a % m == 0 && m % n == 0
    ensures a % n == 0
  {
    var q := (a / m) * (m / n);
    assert a == m * (a / m) && m == n * (m / n);
    assert n * q == n * (m / n) * (a / m);
    DivModUnique(a, n, q, 0);
  }

  // ---------------------------------------------------------------- slices

  lemma JoinSlices(s: seq<byte>, a: nat, b: nat, c: nat)
    requires a <= b <= c <= |s|
    ensures s[a..c] == s[a..b] + s[b..c]
  {
  }
}
