/** Bounded erase of a partition-relative range (hardware/partitions/src/lib.rs). */
module Partitions {
  import opened Machine
  import opened FlashChip

  datatype PartitionRange = PartitionRange(offset: nat, size: nat) {
    // Both fields are 32-bit on the targets.
    predicate Valid() {
      offset < USIZE_RANGE && size < USIZE_RANGE
    }
  }

  datatype PartitionError = AddressOverflow | Unaligned | Flash

  // A range that lies in order and on erase boundaries inside the partition, at
  // absolute addresses that 32 bits can hold.
  predicate Erasable(part: PartitionRange, from: nat, to: nat, eraseSize: nat)
    requires 0 < eraseSize
  {
    && from <= to <= part.size
    && from % eraseSize == 0 && to % eraseSize == 0
    && (from < to ==> part.offset + to < USIZE_RANGE)
  }

  method EraseRange(chip: Chip, part: PartitionRange, logicalFrom: nat, logicalTo: nat)
    returns (r: Result<(), PartitionError>)
    requires chip.Valid() && part.Valid() && logicalFrom < U64_RANGE && logicalTo < U64_RANGE
    modifies chip
    ensures old(chip.faults) <= chip.faults
    ensures chip.Valid()
    ensures r.Ok? ==> logicalTo % chip.eraseSize == 0
    ensures r.Ok? ==> logicalFrom < logicalTo ==>
              part.offset + logicalTo <= |chip.cells| && part.offset % chip.eraseSize == 0
    ensures r.Ok? ==> chip.cells == Erased(old(chip.cells), part.offset + logicalFrom, part.offset + logicalTo)
    ensures r.Ok? ==> chip.faults == old(chip.faults)
    ensures chip.erases == if r.Ok? && logicalFrom < logicalTo
              then old(chip.erases) + [Range(part.offset + logicalFrom, part.offset + logicalTo)]
              else old(chip.erases)
    // every command that reaches the hardware stays inside the range and the partition, and none programs
    ensures Confined(old(chip.commands), chip.commands, part.offset + logicalFrom, part.offset + logicalTo)
    ensures OnlyErases(old(chip.commands), chip.commands)
    ensures Confined(old(chip.commands), chip.commands, part.offset, part.offset + part.size)
    // a range that is not erasable is refused without touching the chip, with the reason
    ensures (r == Err(Unaligned)) <==>
              logicalFrom <= logicalTo < USIZE_RANGE &&
              (logicalFrom % chip.eraseSize != 0 || logicalTo % chip.eraseSize != 0)
    ensures Erasable(part, logicalFrom, logicalTo, chip.eraseSize) <==> (r.Ok? || r.error == Flash)
    ensures r.Err? && r.error != Flash ==> chip.cells == old(chip.cells) && chip.commands == old(chip.commands)
    ensures SameOutside(old(chip.cells), chip.cells, part.offset + logicalFrom, part.offset + logicalTo)
    // an erasable range on whole erase blocks of the chip fails only through the hardware
    ensures r == Err(Flash) && part.offset % chip.eraseSize == 0 && part.offset + part.size <= |chip.cells| ==>
              old(chip.faults) < chip.faults
  {
    if logicalTo < logicalFrom {
      return Err(AddressOverflow);
    }
    if logicalFrom >= USIZE_RANGE || logicalTo >= USIZE_RANGE {
      return Err(AddressOverflow);
    }
    if logicalFrom % chip.eraseSize != 0 || logicalTo % chip.eraseSize != 0 {
      return Err(Unaligned);
    }
    if logicalTo > part.size {
      return Err(AddressOverflow);
    }
    if logicalFrom == logicalTo {
      assert Erased(chip.cells, part.offset + logicalFrom, part.offset + logicalTo) == chip.cells;
      return Ok(());
    }
    var absoluteFrom := part.offset + logicalFrom;
    var absoluteTo := part.offset + logicalTo;
    if absoluteTo >= USIZE_RANGE {
      return Err(AddressOverflow);
    }
    if part.offset % chip.eraseSize == 0 {
      SumOfMultiples(part.offset, logicalFrom, chip.eraseSize);
      SumOfMultiples(part.offset, logicalTo, chip.eraseSize);
    }
    var ok := chip.Erase(absoluteFrom, absoluteTo);
    if !ok {
      return Err(Flash);
    }
    SumAligned(part.offset, logicalFrom, chip.eraseSize);
    r := Ok(());
  }

  lemma SumAligned(a: nat, b: nat, m: nat)
    requires 0 < m && b % m == 0 && (a + b) % m == 0
    ensures a % m == 0
  {
    DifferenceOfMultiples(a + b, b, m);
  }
}
