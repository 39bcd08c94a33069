/** How many NVS entries a blob occupies (adapters/config-space/src/lib.rs). Item size, the most
    data one page can hold and the entries of a page are constants of the NVS format. */
module BlobEntries {
  import opened Machine

  datatype Geometry = Geometry(itemSize: nat, maxChunk: nat, entriesPerPage: nat) {
    predicate Valid() {
      0 < itemSize < USIZE_RANGE && 0 < maxChunk < USIZE_RANGE && entriesPerPage < USIZE_RANGE
    }

    predicate WholeItems()
      requires Valid()
    {
      maxChunk % itemSize == 0
    }

    // Chunks are whole items, as in the NVS format: there the closed form is the real cost.
    predicate Exact() {
      Valid() && WholeItems()
    }
  }

  // `a.checked_add(b)` on a 32-bit size.
  function CheckedAdd(a: nat, b: nat): Option<nat> {
    if a + b < USIZE_RANGE then Some(a + b) else None
  }

  function CheckedMul(a: nat, b: nat): Option<nat> {
    if a * b < USIZE_RANGE then Some(a * b) else None
  }

  function EntriesForBlob(g: Geometry, size: nat): Option<nat>
    requires g.Valid()
  {
    match CheckedAdd(size, g.itemSize - 1)
    case None => None
    case Some(roundedItems) =>
      match CheckedAdd(size, g.maxChunk - 1)
      case None => None
      case Some(roundedChunks) =>
        match CheckedAdd(roundedItems / g.itemSize, roundedChunks / g.maxChunk)
        case None => None
        case Some(sum) => CheckedAdd(sum, 1)
  }

  // The blob as it is stored: an index entry, then per chunk one header and its rounded-up data items.
  function ChunkCost(g: Geometry, size: nat): nat
    requires g.Valid()
  {
    if size == 0 then 0
    else
      var chunk := Min(size, g.maxChunk);
      1 + DivCeil(chunk, g.itemSize) + ChunkCost(g, size - chunk)
  }

  function SplitCost(g: Geometry, size: nat): nat
    requires g.Valid()
  {
    1 + ChunkCost(g, size)
  }

  // The closed form without its overflow checks.
  function Entries(g: Geometry, size: nat): nat
    requires g.Valid()
  {
    DivCeil(size, g.itemSize) + DivCeil(size, g.maxChunk) + 1
  }

  // Adding `m - 1` before dividing rounds the quotient up.
  lemma RoundsUp(a: nat, m: nat)
    requires 0 < m
    ensures (a + (m - 1)) / m == DivCeil(a, m)
  {
    var q, r := a / m, a % m;
    if r == 0 {
      DivModUnique(a + (m - 1), m, q, m - 1);
    } else {
      assert m * (q + 1) == m * q + m;
      DivModUnique(a + (m - 1), m, q + 1, r - 1);
    }
  }

  // The answer is the closed form, and there is none exactly when a checked step overflows.
  lemma ChecksOnlyOverflow(g: Geometry, size: nat)
    requires g.Valid()
    ensures EntriesForBlob(g, size) ==
      if size + g.itemSize <= USIZE_RANGE && size + g.maxChunk <= USIZE_RANGE && Entries(g, size) < USIZE_RANGE
      then Some(Entries(g, size)) else None
  {
    RoundsUp(size, g.itemSize);
    RoundsUp(size, g.maxChunk);
    hide DivCeil;
  }

  // Moving a whole multiple out of a rounded-up quotient.
  lemma CeilSplit(a: nat, b: nat, m: nat)
    requires 0 < m && b % m == 0
    ensures DivCeil(a + b, m) == DivCeil(a, m) + b / m
  {
    var q, r, k := a / m, a % m, b / m;
    assert a + b == m * (q + k) + r by {
      assert m * (q + k) == m * q + m * k;
    }
    DivModUnique(a + b, m, q + k, r);
  }

  // The closed form counts what splitting really costs when chunks are whole items.
  lemma {:induction false} ClosedFormIsSplitCost(g: Geometry, size: nat)
    requires g.Exact()
    ensures Entries(g, size) == SplitCost(g, size)
    decreases size
  {
    if size == 0 {
      CeilOfSmall(0, g.itemSize);
      CeilOfSmall(0, g.maxChunk);
    } else if size <= g.maxChunk {
      CeilOfSmall(size, g.maxChunk);
      assert ChunkCost(g, size - size) == 0;
      hide DivCeil;
    } else {
      ClosedFormIsSplitCost(g, size - g.maxChunk);
      CeilSplit(size - g.maxChunk, g.maxChunk, g.itemSize);
      DivModUnique(g.maxChunk, g.maxChunk, 1, 0);
      CeilSplit(size - g.maxChunk, g.maxChunk, g.maxChunk);
      assert DivCeil(g.maxChunk, g.itemSize) == g.maxChunk / g.itemSize;
      hide DivCeil;
    }
  }

  lemma CeilOfSmall(a: nat, m: nat)
    requires 0 < m && a <= m
    ensures DivCeil(a, m) == if a == 0 then 0 else 1
  {
    if a == m {
      DivModUnique(a, m, 1, 0);
    } else {
      DivModUnique(a, m, 0, a);
    }
  }

  lemma {:induction false} CostOfFullChunks(g: Geometry, k: nat)
    requires g.Valid()
    ensures k * g.maxChunk >= 0 && ChunkCost(g, k * g.maxChunk) == k * (1 + DivCeil(g.maxChunk, g.itemSize))
  {
    if k == 0 {
    } else {
      CostOfFullChunks(g, k - 1);
      var c := 1 + DivCeil(g.maxChunk, g.itemSize);
      assert k * g.maxChunk == (k - 1) * g.maxChunk + g.maxChunk;
      assert k * c == (k - 1) * c + c;
      assert (k - 1) * g.maxChunk >= 0;
      hide DivCeil;
    }
  }

  // It counts right for every size exactly when a full chunk is made of whole items; otherwise it
  // falls short at the latest for as many full chunks as an item has bytes.
  lemma ExactIffChunksAreWholeItems(g: Geometry)
    requires g.Valid()
    ensures (forall size: nat :: Entries(g, size) == SplitCost(g, size)) <==> g.WholeItems()
  {
    if g.WholeItems() {
      forall size: nat ensures Entries(g, size) == SplitCost(g, size) {
        ClosedFormIsSplitCost(g, size);
      }
    } else {
      FallsShort(g);
    }
  }

  lemma FallsShort(g: Geometry)
    requires g.Valid() && !g.WholeItems()
    ensures var size: nat := g.itemSize * g.maxChunk; Entries(g, size) < SplitCost(g, size)
  {
    var k, m := g.itemSize, g.maxChunk;
    CostOfFullChunks(g, k);
    WholeQuotients(k, m);
    CeilOfRemainder(m, k);
    assert k * (1 + DivCeil(m, k)) == k + k * DivCeil(m, k);
    hide DivCeil;
  }

  lemma WholeQuotients(k: nat, m: nat)
    requires 0 < k && 0 < m
    ensures DivCeil(k * m, k) == m && DivCeil(k * m, m) == k
  {
    DivModUnique(k * m, k, m, 0);
    DivModUnique(k * m, m, k, 0);
  }

  lemma CeilOfRemainder(m: nat, k: nat)
    requires 0 < k && m % k != 0
    ensures k * DivCeil(m, k) > m
  {
    assert k * (m / k + 1) == k * (m / k) + k;
  }

  // Larger blobs never take fewer entries.
  lemma EntriesMonotone(g: Geometry, a: nat, b: nat)
    requires g.Valid() && a <= b
    ensures Entries(g, a) <= Entries(g, b)
  {
    CeilMonotone(a, b, g.itemSize);
    CeilMonotone(a, b, g.maxChunk);
    hide DivCeil;
  }

  lemma CeilMonotone(a: nat, b: nat, m: nat)
    requires 0 < m && a <= b
    ensures DivCeil(a, m) <= DivCeil(b, m)
  {
    RoundedUp(a, m);
    RoundedUp(b, m);
    hide DivCeil;
    assert (DivCeil(b, m) + 1) * m == DivCeil(b, m) * m + m;
    SmallerFactor(DivCeil(a, m), DivCeil(b, m) + 1, m);
  }

  lemma SmallerFactor(p: nat, q: nat, m: nat)
    requires 0 < m && p * m < q * m
    ensures p < q
  {
    assert (p - q) * m == p * m - q * m;
  }

  lemma SplitCostMonotone(g: Geometry, a: nat, b: nat)
    requires g.Exact() && a <= b
    ensures SplitCost(g, a) <= SplitCost(g, b)
  {
    ClosedFormIsSplitCost(g, a);
    ClosedFormIsSplitCost(g, b);
    EntriesMonotone(g, a, b);
  }

  // Even the smallest blob takes its index entry, and unless it is empty a header and an item.
  lemma SplitCostPositive(g: Geometry, size: nat)
    requires g.Valid()
    ensures 1 <= SplitCost(g, size) && (0 < size ==> 3 <= SplitCost(g, size))
  {
    if 0 < size {
      CeilPositive(Min(size, g.maxChunk), g.itemSize);
    }
    hide DivCeil;
  }

  lemma CeilPositive(a: nat, m: nat)
    requires 0 < a && 0 < m
    ensures 1 <= DivCeil(a, m)
  {
    RoundedUp(a, m);
  }

  // What the closed form answers, with its checks, is the real cost.
  lemma AnswerIsSplitCost(g: Geometry, size: nat)
    requires g.Exact() && EntriesForBlob(g, size).Some?
    ensures EntriesForBlob(g, size).value == SplitCost(g, size)
  {
    ChecksOnlyOverflow(g, size);
    ClosedFormIsSplitCost(g, size);
    hide EntriesForBlob, Entries, SplitCost;
  }
}
