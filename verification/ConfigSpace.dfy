/** The configuration backend over NVS (adapters/config-space/src/lib.rs): capacity at boot,
    reservations, and records whose generation counts the changes of their space. */
module ConfigSpace {
  import opened Machine
  import opened ConfigRecord
  import opened BlobEntries
  import opened NvsStore

  datatype ConfigError = Unavailable | WriteFailed | InvalidSpace | CorruptRecord | GenerationOverflow

  datatype Snapshot = Snapshot(generation: nat, data: seq<u8>)

  const MAX_NVS_KEY_LEN: nat := 15
  const CANARY: u8 := 0xA5

  predicate ValidSpaceName(space: string) {
    0 < |space| <= MAX_NVS_KEY_LEN && forall i :: 0 <= i < |space| ==> 0 < space[i] as int < 128
  }

  function SaturatingAdd(a: nat, b: nat): nat {
    Min(a + b, USIZE_RANGE - 1)
  }

  function SaturatingSub(a: nat, b: nat): nat {
    if a >= b then a - b else 0
  }

  // Twice the entries of the largest record, so that the old version can exist beside the new one.
  function ReservationUnits(g: Geometry, space: string, maxBytes: nat): Option<nat>
    requires g.Exact()
  {
    if !ValidSpaceName(space) then None
    else
      match CheckedAdd(HEADER_LEN, maxBytes)
      case None => None
      case Some(size) =>
        match EntriesForBlob(g, size)
        case None => None
        case Some(oneVersion) => CheckedMul(oneVersion, 2)
  }

  lemma ReservationIsTwoVersions(g: Geometry, space: string, maxBytes: nat)
    requires g.Exact() && ReservationUnits(g, space, maxBytes).Some?
    ensures ReservationUnits(g, space, maxBytes).value == 2 * SplitCost(g, HEADER_LEN + maxBytes)
  {
    hide EntriesForBlob, SplitCost, Geometry.WholeItems;
    AnswerIsSplitCost(g, HEADER_LEN + maxBytes);
  }

  // There is a reservation for every valid name whose record sizes fit 32 bits, and for no other.
  lemma ReservationExists(g: Geometry, space: string, maxBytes: nat)
    requires g.Exact()
    ensures ReservationUnits(g, space, maxBytes).Some? <==>
      && 1 <= |space| <= 15 && (forall i :: 0 <= i < |space| ==> '\U{1}' <= space[i] <= '\U{7F}')
      && 13 + maxBytes + g.itemSize <= 0x1_0000_0000 && 13 + maxBytes + g.maxChunk <= 0x1_0000_0000
      && 2 * SplitCost(g, 13 + maxBytes) < 0x1_0000_0000
  {
    ChecksOnlyOverflow(g, HEADER_LEN + maxBytes);
    ClosedFormIsSplitCost(g, HEADER_LEN + maxBytes);
    NamesAccepted(space);
    hide EntriesForBlob, SplitCost, Entries, Geometry.WholeItems, ValidSpaceName;
  }

  // Names are 1 to 15 characters of ASCII without NUL.
  lemma NamesAccepted(space: string)
    ensures ValidSpaceName(space) <==>
      1 <= |space| <= 15 && forall i :: 0 <= i < |space| ==> '\U{1}' <= space[i] <= '\U{7F}'
  {
  }

  // ---------------------------------------------------------------- admission

  // Every claimed space has a reservation, and together they fit the capacity.
  ghost predicate Admitted(g: Geometry, claims: map<string, nat>, capacity: nat)
    requires g.Exact()
  {
    && (forall k :: k in claims ==> ReservationUnits(g, k, claims[k]).Some?)
    && Sum(Reservations(g, claims)) <= capacity
  }

  ghost function Reservations(g: Geometry, claims: map<string, nat>): map<string, nat>
    requires g.Exact()
  {
    map k | k in claims && ReservationUnits(g, k, claims[k]).Some? :: ReservationUnits(g, k, claims[k]).value
  }

  // Every stored record belongs to a claimed space and fits its budget.
  ghost predicate WithinBudgets(claims: map<string, nat>, blobs: map<string, seq<u8>>) {
    forall k :: k in blobs ==> k in claims && |blobs[k]| <= HEADER_LEN + claims[k]
  }

  ghost function OneVersion(g: Geometry, claims: map<string, nat>): map<string, nat>
    requires g.Exact()
  {
    map k | k in claims :: SplitCost(g, HEADER_LEN + claims[k])
  }

  // Stored records and one more version of any claimed space stay within the capacity.
  lemma StoredTakesHalf(g: Geometry, claims: map<string, nat>, capacity: nat, blobs: map<string, seq<u8>>,
                        space: string, size: nat)
    requires g.Exact() && Admitted(g, claims, capacity) && WithinBudgets(claims, blobs)
    requires space in claims && size <= HEADER_LEN + claims[space]
    ensures Used(g, blobs) + SplitCost(g, size) <= capacity && 0 < capacity
  {
    hide SplitCost, Geometry.WholeItems, ReservationUnits;
    var one, all := OneVersion(g, claims), Reservations(g, claims);
    forall k | k in claims ensures all[k] == 2 * one[k] {
      ReservationIsTwoVersions(g, k, claims[k]);
    }
    SumDoubles(one, all);
    forall k | k in blobs ensures SplitCost(g, |blobs[k]|) <= one[k] {
      SplitCostMonotone(g, |blobs[k]|, HEADER_LEN + claims[k]);
    }
    SumMonotone(Costs(g, blobs), one);
    SplitCostMonotone(g, size, HEADER_LEN + claims[space]);
    MemberBelowSum(one, space);
    SplitCostPositive(g, size);
  }

  // The admission promise, on the ledger: with the old version still stored, a further in-budget
  // version finds its entries and one page's worth to spare, less what this backend has added
  // outside its blobs since boot.
  lemma ReservationsSuffice(g: Geometry, claims: map<string, nat>, capacity: nat, blobs: map<string, seq<u8>>,
                            free: nat, entries: nat, overheadAtBoot: nat, overhead: nat, space: string, size: nat)
    requires g.Exact() && overheadAtBoot <= entries &&
             capacity == SaturatingSub(entries - overheadAtBoot, g.entriesPerPage)
    requires free + Used(g, blobs) + overhead == entries
    requires Admitted(g, claims, capacity) && WithinBudgets(claims, blobs)
    requires space in claims && size <= HEADER_LEN + claims[space]
    ensures free + overhead >= SplitCost(g, size) + g.entriesPerPage + overheadAtBoot
  {
    hide SplitCost, Used, Admitted, WithinBudgets;
    StoredTakesHalf(g, claims, capacity, blobs, space, size);
  }

  // ---------------------------------------------------------------- histories

  datatype Op = Commit(space: string, data: seq<u8>) | Clear(space: string)

  function NextGeneration(m: map<string, Record>, space: string): nat {
    if space in m then m[space].generation + 1 else 1
  }

  function Apply(m: map<string, Record>, op: Op): map<string, Record> {
    m[op.space := Record(NextGeneration(m, op.space), op.Commit?, if op.Commit? then op.data else [])]
  }

  // The records after a history of changes to a store that held `start`.
  function History(start: map<string, Record>, ops: seq<Op>): map<string, Record> {
    if ops == [] then start else Apply(History(start, ops[..|ops| - 1]), ops[|ops| - 1])
  }

  // What working hardware makes of a change request.
  function AfterChange(g: Geometry, namespaceCost: nat, s: Store, op: Op): Store
    requires g.Exact()
  {
    if !ValidSpaceName(op.space) || !Replaceable(s.blobs, op.space) then s
    else
      var m := Records(s.blobs);
      var record := Record(NextGeneration(m, op.space), op.Commit?, if op.Commit? then op.data else []);
      AfterSet(g, namespaceCost, s, op.space, Encode(record))
  }

  // No record of the space, or one that has a next generation.
  predicate Replaceable(blobs: map<string, seq<u8>>, space: string) {
    space in blobs ==> Decode(blobs[space]).Some? && Decode(blobs[space]).value.generation + 1 < U64_RANGE
  }

  // What it makes of a self-check.
  function AfterCheck(namespaceCost: nat, s: Store): Store {
    if s.free < 1 + (if s.hasHealth then 0 else namespaceCost) then s
    else AfterDeleteCanary(AfterSetCanary(namespaceCost, s, CANARY))
  }

  lemma NoRoomNoCanary(namespaceCost: nat, s: Store)
    ensures s.free < 1 + (if s.hasHealth then 0 else namespaceCost) ==> AfterSetCanary(namespaceCost, s, CANARY) == s
  {
  }

  function ChangesOf(ops: seq<Op>, space: string): seq<Op> {
    if ops == [] then []
    else
      var rest := ChangesOf(ops[..|ops| - 1], space);
      if ops[|ops| - 1].space == space then rest + [ops[|ops| - 1]] else rest
  }

  function GenerationOf(m: map<string, Record>, space: string): nat {
    if space in m then m[space].generation else 0
  }

  function Visible(m: map<string, Record>, space: string): Option<Snapshot> {
    if space in m && m[space].present then Some(Snapshot(m[space].generation, m[space].payload)) else None
  }

  // What a space shows after its own changes `own`, whatever happened to the others: the data of
  // the last change if that was a commit, with a generation that counts commits and clears alike.
  function Latest(start: map<string, Record>, own: seq<Op>, space: string): Option<Snapshot> {
    if own == [] then Visible(start, space)
    else match own[|own| - 1]
      case Commit(_, data) => Some(Snapshot(GenerationOf(start, space) + |own|, data))
      case Clear(_) => None
  }

  // The generation rises by exactly one with every change of the space and never starts over.
  lemma {:induction false} GenerationCountsChanges(start: map<string, Record>, ops: seq<Op>, space: string)
    ensures var own := ChangesOf(ops, space); var m := History(start, ops);
      && GenerationOf(m, space) == GenerationOf(start, space) + |own|
      && Visible(m, space) == Latest(start, own, space)
  {
    if ops == [] {
    } else {
      GenerationCountsChanges(start, ops[..|ops| - 1], space);
    }
  }

  // The history with a change that has reached the store, reported or not.
  ghost function Extended(history: seq<Op>, op: Op, reported: bool, before: map<string, seq<u8>>,
                          after: map<string, seq<u8>>): seq<Op>
  {
    if reported || after != before then history + [op] else history
  }

  lemma HistoryGoesOn(r: Result<nat, ConfigError>, before: map<string, seq<u8>>, after: map<string, seq<u8>>, op: Op,
                      start: map<string, Record>, history: seq<Op>)
    requires ReplaceOutcome(r, before, after, op) && Records(before) == History(start, history)
    ensures Records(after) == History(start, Extended(history, op, r.Ok?, before, after))
  {
    hide Records, Apply, NextGeneration, ValidSpaceName, Decode;
    assert (history + [op])[..|history|] == history;
  }

  // The records a store holds; corrupt blobs hold none.
  function Records(blobs: map<string, seq<u8>>): map<string, Record> {
    map k | k in blobs && Decode(blobs[k]).Some? :: Decode(blobs[k]).value
  }

  lemma RecordsUpdate(blobs: map<string, seq<u8>>, space: string, r: Record)
    requires r.Valid()
    ensures Records(blobs[space := Encode(r)]) == Records(blobs)[space := r]
  {
    DecodeInvertsEncode(r);
    hide Decode, Encode;
  }

  // ---------------------------------------------------------------- the backend

  // The process-wide health flag.
  class Health {
    var healthy: bool
    constructor ()
      ensures healthy
    {
      healthy := true;
    }
  }

  // The blobs whose keys have been visited.
  ghost function Visited(blobs: map<string, seq<u8>>, keys: seq<string>): map<string, seq<u8>> {
    map k | k in blobs && k in keys :: blobs[k]
  }

  lemma VisitOneMore(g: Geometry, blobs: map<string, seq<u8>>, keys: seq<string>, i: nat)
    requires g.Exact() && i < |keys| && Distinct(keys) && (forall k :: k in keys ==> k in blobs)
    ensures Used(g, Visited(blobs, keys[..i + 1]))
              == Used(g, Visited(blobs, keys[..i])) + SplitCost(g, |blobs[keys[i]]|)
    ensures Used(g, Visited(blobs, keys[..i + 1])) <= Used(g, blobs)
  {
    hide SplitCost;
    var k := keys[i];
    assert keys[..i + 1] == keys[..i] + [k];
    assert k !in keys[..i];
    assert Visited(blobs, keys[..i + 1]) == Visited(blobs, keys[..i])[k := blobs[k]];
    UsedUpdate(g, Visited(blobs, keys[..i]), k, blobs[k]);
    SumMonotone(Costs(g, Visited(blobs, keys[..i + 1])), Costs(g, blobs));
  }

  // Every stored blob's size passes the checks of the entry count.
  ghost predicate Countable(g: Geometry, blobs: map<string, seq<u8>>)
    requires g.Exact()
  {
    forall k :: k in blobs ==>
      && |blobs[k]| + g.itemSize <= 0x1_0000_0000 && |blobs[k]| + g.maxChunk <= 0x1_0000_0000
      && SplitCost(g, |blobs[k]|) < 0x1_0000_0000
  }

  lemma NoneIsNotCountable(g: Geometry, blobs: map<string, seq<u8>>)
    requires g.Exact() && exists k :: k in blobs && EntriesForBlob(g, |blobs[k]|) == None
    ensures !Countable(g, blobs)
  {
    hide EntriesForBlob, SplitCost, Entries, Geometry.WholeItems;
    var k :| k in blobs && EntriesForBlob(g, |blobs[k]|) == None;
    ChecksOnlyOverflow(g, |blobs[k]|);
    ClosedFormIsSplitCost(g, |blobs[k]|);
  }

  // The cost of all stored configuration blobs, each counted once.
  method OwnedEntries(nvs: Nvs) returns (r: Result<nat, ConfigError>)
    requires nvs.Valid()
    modifies nvs`faults
    ensures r.Ok? ==> r.value == Used(nvs.g, nvs.blobs)
    ensures r.Err? ==> r.error == WriteFailed || r.error == CorruptRecord
    ensures r == Err(CorruptRecord) ==> exists k :: k in nvs.blobs && EntriesForBlob(nvs.g, |nvs.blobs[k]|) == None
    ensures r == Err(WriteFailed) ==> old(nvs.faults) < nvs.faults
    ensures old(nvs.faults) <= nvs.faults
  {
    hide EntriesForBlob, SplitCost, Used, Geometry.WholeItems;
    var ok, keys := nvs.Keys();
    if !ok {
      return Err(WriteFailed);
    }
    var owned := 0;
    NothingVisited(nvs.g, nvs.blobs, keys);
    for i := 0 to |keys|
      invariant owned == Used(nvs.g, Visited(nvs.blobs, keys[..i])) <= Used(nvs.g, nvs.blobs)
      invariant old(nvs.faults) <= nvs.faults
    {
      var key := keys[i];
      var found := nvs.Get(key);
      if !found.Found? {
        return Err(WriteFailed);
      }
      var entries := EntriesForBlob(nvs.g, |found.raw|);
      if entries.None? {
        return Err(CorruptRecord);
      }
      AnswerIsSplitCost(nvs.g, |found.raw|);
      VisitOneMore(nvs.g, nvs.blobs, keys, i);
      owned := SaturatingAdd(owned, entries.value);
    }
    AllVisited(nvs.blobs, keys);
    r := Ok(owned);
  }

  lemma NothingVisited(g: Geometry, blobs: map<string, seq<u8>>, keys: seq<string>)
    requires g.Exact()
    ensures Used(g, Visited(blobs, keys[..0])) == 0
  {
    assert Costs(g, Visited(blobs, keys[..0])) == map[];
  }

  lemma AllVisited(blobs: map<string, seq<u8>>, keys: seq<string>)
    requires forall k :: k in keys <==> k in blobs
    ensures Visited(blobs, keys[..|keys|]) == blobs
  {
    assert keys[..|keys|] == keys;
  }

  // How one request to the backend ended, and the hardware's failures counted before and after it.
  datatype Attempt = Attempt(failed: Option<ConfigError>, before: nat, after: nat)

  function ErrorOf(r: Result<nat, ConfigError>): Option<ConfigError> {
    if r.Ok? then None else Some(r.error)
  }

  class NvsConfigBackend {
    const nvs: Nvs
    const health: Health
    const capacityUnits: nat
    // Entries kept outside the blobs when the capacity was computed.
    ghost const overheadAtBoot: nat
    // The records found at boot, and the changes since, oldest first.
    ghost const start: map<string, Record>
    ghost var history: seq<Op>
    // All requests since boot that could change the store, oldest first.
    ghost var attempts: seq<Attempt>

    constructor (nvs: Nvs, health: Health, capacityUnits: nat, ghost overheadAtBoot: nat)
      ensures this.nvs == nvs && this.health == health && start == Records(nvs.blobs) && history == []
      ensures attempts == []
      ensures this.capacityUnits == capacityUnits && this.overheadAtBoot == overheadAtBoot
    {
      this.nvs, this.health, this.capacityUnits, this.overheadAtBoot := nvs, health, capacityUnits, overheadAtBoot;
      start, history, attempts := Records(nvs.blobs), [], [];
    }

    // The store holds what the changes since boot have made of it.
    ghost predicate Tracks()
      reads this, nvs
    {
      Records(nvs.blobs) == History(start, history)
    }

    // The capacity is the one `New` computes: every entry of the partition that is neither other
    // users' nor kept outside the blobs, less one page.
    ghost predicate Booted() {
      && nvs.foreign + overheadAtBoot <= nvs.total
      && capacityUnits == SaturatingSub(nvs.total - nvs.foreign - overheadAtBoot, nvs.g.entriesPerPage)
    }

    // The capacity at boot. It does not depend on what is stored in the spaces: entries of stored
    // blobs are added back, so only what this backend keeps outside its blobs lowers it.
    static method New(nvs: Nvs, health: Health) returns (r: Result<NvsConfigBackend, ConfigError>)
      requires nvs.Valid()
      modifies nvs`faults, health
      ensures r.Ok? ==> fresh(r.value) && r.value.nvs == nvs && r.value.health == health && health.healthy
      ensures r.Ok? ==> r.value.Tracks() && r.value.start == Records(nvs.blobs) && r.value.history == []
      ensures r.Ok? ==> r.value.overheadAtBoot == nvs.Overhead() && r.value.Booted()
      ensures r.Err? ==> r.error == Unavailable || r.error == WriteFailed || r.error == CorruptRecord
      ensures r == Err(Unavailable) ==> !health.healthy
      ensures r.Err? && r.error != CorruptRecord ==> old(nvs.faults) < nvs.faults
      // corruption is reported only of a blob whose size the entry count cannot hold
      ensures r == Err(CorruptRecord) ==> !Countable(nvs.g, nvs.blobs)
      ensures old(nvs.faults) <= nvs.faults
    {
      hide Used, Countable, EntriesForBlob;
      var ready := nvs.Open();
      if !ready {
        health.healthy := false;
        return Err(Unavailable);
      }
      var counted := nvs.Open();
      if !counted {
        health.healthy := false;
        return Err(WriteFailed);
      }
      var reclaimable := SaturatingAdd(nvs.empty, nvs.erased);
      var owned := OwnedEntries(nvs);
      if owned.Err? {
        if owned == Err(CorruptRecord) {
          NoneIsNotCountable(nvs.g, nvs.blobs);
        }
        return Err(owned.error);
      }
      var capacity := SaturatingSub(SaturatingAdd(reclaimable, owned.value), nvs.g.entriesPerPage);
      health.healthy := true;
      var b := new NvsConfigBackend(nvs, health, capacity, nvs.Overhead());
      r := Ok(b);
    }

    // `commit` and `clear`: the next generation of the space replaces its record.
    method Replace(space: string, present: bool, payload: seq<u8>) returns (r: Result<nat, ConfigError>)
      requires nvs.Valid() && HEADER_LEN + |payload| < USIZE_RANGE && (present || payload == [])
      modifies this`history, this`attempts, nvs, health
      ensures attempts == old(attempts) + [Attempt(ErrorOf(r), old(nvs.faults), nvs.faults)]
      ensures nvs.Valid() && (old(nvs.hasConfigNamespace) ==> nvs.hasConfigNamespace)
      ensures nvs.canary == old(nvs.canary) && nvs.hasHealthNamespace == old(nvs.hasHealthNamespace)
      ensures ReplaceOutcome(r, old(nvs.blobs), nvs.blobs, if present then Op.Commit(space, payload)
                             else Op.Clear(space))
      ensures history
                == Extended(old(history), if present then Op.Commit(space, payload) else Op.Clear(space), r.Ok?,
                            old(nvs.blobs), nvs.blobs)
      ensures old(Tracks()) ==> Tracks()
      ensures old(nvs.faults) <= nvs.faults
      ensures nvs.faults == old(nvs.faults) ==>
        nvs.Contents() == AfterChange(nvs.g, nvs.namespaceCost, old(nvs.Contents()),
                                      if present then Op.Commit(space, payload) else Op.Clear(space))
      ensures OnlyRecord(old(nvs.blobs), nvs.blobs, space, HEADER_LEN + |payload|)
      // a failure of a valid request marks the store unhealthy; nothing marks it healthy again here
      ensures r.Ok? || r.error == InvalidSpace ==> health.healthy == old(health.healthy)
      ensures r.Err? && r.error != InvalidSpace ==> !health.healthy
      ensures r.Ok? ==> nvs.hasConfigNamespace
      // with room for one more version, only the hardware can fail the write
      ensures old(nvs.Needed(HEADER_LEN + |payload|)) <= old(nvs.empty) + old(nvs.erased) ==>
                r == Err(WriteFailed) || r == Err(Unavailable) ==> old(nvs.faults) < nvs.faults
    {
      hide ValidSpaceName, Decode, Encode, Records, Apply, Used, History, AfterSet, OverheadOf, Sane, SplitCost,
          NextGeneration;
      ghost var op := if present then Op.Commit(space, payload) else Op.Clear(space);
      if !ValidSpaceName(space) {
        attempts := attempts + [Attempt(Some(InvalidSpace), nvs.faults, nvs.faults)];
        return Err(InvalidSpace);
      }
      var ready := nvs.Open();
      if !ready {
        health.healthy := false;
        attempts := attempts + [Attempt(Some(Unavailable), old(nvs.faults), nvs.faults)];
        return Err(Unavailable);
      }
      ghost var before := nvs.blobs;
      r := ReplaceIn(space, present, payload);
      if Records(before) == History(start, history) {
        HistoryGoesOn(r, before, nvs.blobs, op, start, history);
      }
      history := Extended(history, op, r.Ok?, before, nvs.blobs);
      attempts := attempts + [Attempt(ErrorOf(r), old(nvs.faults), nvs.faults)];
      if r.Err? {
        health.healthy := false;
      }
    }

    // Commits inside a reservation find room whatever was committed and cleared before.
    method Commit(space: string, data: seq<u8>) returns (r: Result<nat, ConfigError>)
      requires nvs.Valid() && HEADER_LEN + |data| < USIZE_RANGE
      modifies this`history, this`attempts, nvs, health
      ensures attempts == old(attempts) + [Attempt(ErrorOf(r), old(nvs.faults), nvs.faults)]
      ensures nvs.Valid() && (old(nvs.hasConfigNamespace) ==> nvs.hasConfigNamespace)
      ensures nvs.canary == old(nvs.canary) && nvs.hasHealthNamespace == old(nvs.hasHealthNamespace)
      ensures ReplaceOutcome(r, old(nvs.blobs), nvs.blobs, Op.Commit(space, data))
      ensures history == Extended(old(history), Op.Commit(space, data), r.Ok?, old(nvs.blobs), nvs.blobs)
      ensures old(Tracks()) ==> Tracks()
      ensures old(nvs.faults) <= nvs.faults
      ensures nvs.faults == old(nvs.faults) ==>
                nvs.Contents() == AfterChange(nvs.g, nvs.namespaceCost, old(nvs.Contents()), Op.Commit(space, data))
      ensures OnlyRecord(old(nvs.blobs), nvs.blobs, space, HEADER_LEN + |data|)
      ensures r.Ok? ==> nvs.hasConfigNamespace
      ensures r.Err? && r.error != InvalidSpace ==> !health.healthy
      ensures Booted() && 2 * nvs.namespaceCost + 1 <= nvs.g.entriesPerPage ==>
                Reserved(nvs.g, capacityUnits, old(nvs.blobs), space, |data|) ==>
                  r == Err(WriteFailed) || r == Err(Unavailable) ==> old(nvs.faults) < nvs.faults
    {
      hide Reserved, Used, SplitCost, ReplaceOutcome, OnlyRecord;
      if Booted() && 2 * nvs.namespaceCost + 1 <= nvs.g.entriesPerPage &&
          Reserved(nvs.g, capacityUnits, nvs.blobs, space, |data|) {
        RoomForReserved(nvs.g, capacityUnits, nvs.blobs, nvs.empty + nvs.erased, nvs.total - nvs.foreign,
                        overheadAtBoot, nvs.Overhead(), space, |data|);
      }
      r := Replace(space, true, data);
    }

    method Clear(space: string) returns (r: Result<nat, ConfigError>)
      requires nvs.Valid()
      modifies this`history, this`attempts, nvs, health
      ensures attempts == old(attempts) + [Attempt(ErrorOf(r), old(nvs.faults), nvs.faults)]
      ensures nvs.Valid() && (old(nvs.hasConfigNamespace) ==> nvs.hasConfigNamespace)
      ensures nvs.canary == old(nvs.canary) && nvs.hasHealthNamespace == old(nvs.hasHealthNamespace)
      ensures ReplaceOutcome(r, old(nvs.blobs), nvs.blobs, Op.Clear(space))
      ensures history == Extended(old(history), Op.Clear(space), r.Ok?, old(nvs.blobs), nvs.blobs)
      ensures old(Tracks()) ==> Tracks()
      ensures old(nvs.faults) <= nvs.faults
      ensures nvs.faults == old(nvs.faults) ==>
                nvs.Contents() == AfterChange(nvs.g, nvs.namespaceCost, old(nvs.Contents()), Op.Clear(space))
      ensures OnlyRecord(old(nvs.blobs), nvs.blobs, space, HEADER_LEN)
      ensures r.Ok? ==> nvs.hasConfigNamespace
      ensures r.Err? && r.error != InvalidSpace ==> !health.healthy
      ensures Booted() && 2 * nvs.namespaceCost + 1 <= nvs.g.entriesPerPage ==>
                Reserved(nvs.g, capacityUnits, old(nvs.blobs), space, 0) ==>
                  r == Err(WriteFailed) || r == Err(Unavailable) ==> old(nvs.faults) < nvs.faults
    {
      hide Reserved, Used, SplitCost, ReplaceOutcome, OnlyRecord;
      if Booted() && 2 * nvs.namespaceCost + 1 <= nvs.g.entriesPerPage &&
          Reserved(nvs.g, capacityUnits, nvs.blobs, space, 0) {
        RoomForReserved(nvs.g, capacityUnits, nvs.blobs, nvs.empty + nvs.erased, nvs.total - nvs.foreign,
                        overheadAtBoot, nvs.Overhead(), space, 0);
      }
      r := Replace(space, false, []);
    }

    // The data last committed, with its generation; nothing after a clear or before any commit.
    method Load(space: string) returns (r: Result<Option<Snapshot>, ConfigError>)
      requires nvs.Valid()
      modifies nvs`faults, health
      ensures r.Ok? ==> r.value == Visible(Records(nvs.blobs), space) && ValidSpaceName(space)
      ensures r.Ok? && Tracks() ==> r.value == Latest(start, ChangesOf(history, space), space)
      ensures (r == Err(InvalidSpace)) <==> !ValidSpaceName(space)
      ensures r == Err(CorruptRecord) ==> space in nvs.blobs && Decode(nvs.blobs[space]) == None
      ensures r.Err? ==> r.error != GenerationOverflow
      ensures r == Err(WriteFailed) || r == Err(Unavailable) ==> old(nvs.faults) < nvs.faults
      ensures r.Err? && r.error != InvalidSpace ==> !health.healthy
      ensures r.Ok? || r.error == InvalidSpace ==> health.healthy == old(health.healthy)
    {
      hide ValidSpaceName, Decode, Records, History, Latest, ChangesOf;
      if !ValidSpaceName(space) {
        return Err(InvalidSpace);
      }
      var ready := nvs.Open();
      if !ready {
        health.healthy := false;
        return Err(Unavailable);
      }
      RecordOf(nvs.blobs, space);
      GenerationCountsChanges(start, history, space);
      var found := nvs.Get(space);
      match found {
        case Found(raw) =>
          var record := Decode(raw);
          if record.None? {
            health.healthy := false;
            return Err(CorruptRecord);
          }
          r := Ok(if record.value.present then Some(Snapshot(record.value.generation, record.value.payload)) else None);
        case Missing =>
          r := Ok(None);
        case Failed =>
          health.healthy := false;
          r := Err(WriteFailed);
      }
    }

    // Writes, reads back and removes a canary; the result becomes the health flag.
    method SelfCheck() returns (ok: bool)
      requires nvs.Valid()
      modifies this`attempts, nvs, health
      ensures attempts == old(attempts) + [Attempt(if ok then None else Some(WriteFailed), old(nvs.faults), nvs.faults)]
      ensures nvs.Valid() && nvs.blobs == old(nvs.blobs) && nvs.hasConfigNamespace == old(nvs.hasConfigNamespace)
      ensures old(nvs.hasHealthNamespace) ==> nvs.hasHealthNamespace
      ensures health.healthy == ok
      ensures ok ==> nvs.canary == None && nvs.faults == old(nvs.faults) && old(nvs.CanaryRoom())
      // with room for the canary, only the hardware can fail the check
      ensures !ok && old(nvs.CanaryRoom()) ==> old(nvs.faults) < nvs.faults
      ensures old(nvs.faults) <= nvs.faults
      ensures nvs.faults == old(nvs.faults) ==> nvs.Contents() == AfterCheck(nvs.namespaceCost, old(nvs.Contents()))
    {
      hide Used, OverheadOf, Sane, AfterSetCanary, AfterDeleteCanary, Nvs.Valid;
      NoRoomNoCanary(nvs.namespaceCost, nvs.Contents());
      ok := false;
      var ready := nvs.Open();
      if ready {
        var written := nvs.SetCanary(CANARY);
        if written {
          var got := nvs.GetCanary();
          if got.Some? {
            var deleted := nvs.DeleteCanary();
            ok := deleted && got == Some(CANARY);
          }
        }
      }
      health.healthy := ok;
      attempts := attempts + [Attempt(if ok then None else Some(WriteFailed), old(nvs.faults), nvs.faults)];
    }

    // The part that runs on the opened store.
    method ReplaceIn(space: string, present: bool, payload: seq<u8>) returns (r: Result<nat, ConfigError>)
      requires nvs.Valid() && (present || payload == [])
      modifies nvs
      ensures nvs.Valid() && (old(nvs.hasConfigNamespace) ==> nvs.hasConfigNamespace)
      ensures nvs.canary == old(nvs.canary) && nvs.hasHealthNamespace == old(nvs.hasHealthNamespace)
      ensures ReplaceOutcome(r, old(nvs.blobs), nvs.blobs, if present then Op.Commit(space, payload)
                             else Op.Clear(space))
      ensures old(nvs.faults) <= nvs.faults
      ensures nvs.faults == old(nvs.faults) && ValidSpaceName(space) ==>
        nvs.Contents() == AfterChange(nvs.g, nvs.namespaceCost, old(nvs.Contents()),
                                      if present then Op.Commit(space, payload) else Op.Clear(space))
      ensures OnlyRecord(old(nvs.blobs), nvs.blobs, space, HEADER_LEN + |payload|)
      ensures r.Ok? ==> nvs.hasConfigNamespace
      ensures r.Err? ==> r.error != InvalidSpace && r.error != Unavailable
      ensures old(nvs.Needed(HEADER_LEN + |payload|)) <= old(nvs.empty) + old(nvs.erased) ==> r == Err(WriteFailed) ==>
                old(nvs.faults) < nvs.faults
    {
      hide Decode, Encode, Records, Apply, Used, SplitCost, AfterSet, ValidSpaceName;
      ghost var before := nvs.blobs;
      RecordOf(before, space);
      var generation := 1;
      var found := nvs.Get(space);
      match found {
        case Found(raw) =>
          var record := Decode(raw);
          if record.None? {
            return Err(CorruptRecord);
          }
          if record.value.generation + 1 >= U64_RANGE {
            return Err(GenerationOverflow);
          }
          generation := record.value.generation + 1;
        case Missing =>
        case Failed =>
          return Err(WriteFailed);
      }
      var record := Record(generation, present, payload);
      RecordsUpdate(before, space, record);
      ApplyIs(Records(before), if present then Op.Commit(space, payload) else Op.Clear(space), record);
      var ok := nvs.Set(space, Encode(record));
      r := if ok then Ok(generation) else Err(WriteFailed);
    }
  }

  lemma RecordOf(blobs: map<string, seq<u8>>, space: string)
    ensures space in Records(blobs) <==> space in blobs && Decode(blobs[space]).Some?
    ensures space in Records(blobs) ==>
              Records(blobs)[space] == Decode(blobs[space]).value && Records(blobs)[space].Valid()
  {
    if space in Records(blobs) {
      EncodeInvertsDecode(blobs[space]);
    }
    hide Decode;
  }

  lemma ApplyIs(m: map<string, Record>, op: Op, r: Record)
    requires r == Record(NextGeneration(m, op.space), op.Commit?, if op.Commit? then op.data else [])
    ensures Apply(m, op) == m[op.space := r]
  {
  }

  // At most the record of one space has changed, to one of the given size.
  ghost predicate OnlyRecord(before: map<string, seq<u8>>, after: map<string, seq<u8>>, space: string, size: nat) {
    forall k :: k in after ==> (k in before && after[k] == before[k]) || (k == space && |after[k]| == size)
  }

  // Some admitted set of claims covers everything stored and gives the space that much room.
  ghost predicate Reserved(g: Geometry, capacity: nat, blobs: map<string, seq<u8>>, space: string, size: nat)
    requires g.Exact()
  {
    exists claims :: Admitted(g, claims, capacity) && WithinBudgets(claims, blobs) && space in claims &&
        size <= claims[space]
  }

  // An in-budget change, whatever its result, keeps every record within its budget.
  lemma BudgetsKept(claims: map<string, nat>, before: map<string, seq<u8>>, after: map<string, seq<u8>>, space: string,
                    size: nat)
    requires WithinBudgets(claims, before) && OnlyRecord(before, after, space, HEADER_LEN + size)
    requires space in claims && size <= claims[space]
    ensures WithinBudgets(claims, after)
  {
  }

  lemma RoomForReserved(g: Geometry, capacity: nat, blobs: map<string, seq<u8>>, free: nat, entries: nat,
                        overheadAtBoot: nat, overhead: nat, space: string, size: nat)
    requires g.Exact() && overheadAtBoot <= entries &&
             capacity == SaturatingSub(entries - overheadAtBoot, g.entriesPerPage)
    requires free + Used(g, blobs) + overhead == entries && Reserved(g, capacity, blobs, space, size)
    ensures free + overhead >= SplitCost(g, HEADER_LEN + size) + g.entriesPerPage + overheadAtBoot
  {
    hide SplitCost, Used, Admitted, WithinBudgets;
    var claims :| Admitted(g, claims, capacity) && WithinBudgets(claims, blobs) && space in claims &&
        size <= claims[space];
    ReservationsSuffice(g, claims, capacity, blobs, free, entries, overheadAtBoot, overhead, space, HEADER_LEN + size);
  }

  // The very first commit is the case that moves it: it adds the namespace's own entries.
  method FirstCommitCostsTheNamespace(nvs: Nvs, health: Health, space: string, data: seq<u8>)
    returns (before: Result<NvsConfigBackend, ConfigError>, after: Result<NvsConfigBackend, ConfigError>,
             committed: bool)
    requires nvs.Valid() && HEADER_LEN + |data| < USIZE_RANGE
    modifies nvs, health
    ensures before.Ok? && after.Ok? && committed && 0 < after.value.capacityUnits ==>
      before.value.capacityUnits == after.value.capacityUnits + if old(nvs.hasConfigNamespace) then 0
          else nvs.namespaceCost
  {
    hide ReplaceOutcome, OnlyRecord, Reserved, Used;
    committed := false;
    before := NvsConfigBackend.New(nvs, health);
    if before.Ok? {
      var r := before.value.Commit(space, data);
      committed := r.Ok?;
    }
    after := NvsConfigBackend.New(nvs, health);
  }

  // What a change request does to the stored blobs, by its result.
  ghost predicate ReplaceOutcome(r: Result<nat, ConfigError>, before: map<string, seq<u8>>, after: map<string, seq<u8>>,
                                 op: Op) {
    match r
    case Ok(generation) =>
      // the records change as the history says, and the new generation is reported
      && Records(after) == Apply(Records(before), op)
      && generation == NextGeneration(Records(before), op.space) < U64_RANGE
    case Err(InvalidSpace) => !ValidSpaceName(op.space) && after == before
    case Err(CorruptRecord) => op.space in before && Decode(before[op.space]) == None && after == before
    case Err(GenerationOverflow) =>
      op.space in Records(before) && Records(before)[op.space].generation == U64_RANGE - 1 && after == before
    case Err(Unavailable) => after == before
    // a failed write leaves the old record or, unreported, the new one
    case Err(WriteFailed) =>
      after == before ||
          (NextGeneration(Records(before), op.space) < U64_RANGE && Records(after) == Apply(Records(before), op))
  }
}
