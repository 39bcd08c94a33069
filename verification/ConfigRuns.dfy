/** Whole runs of the configuration backend (adapters/config-space/src/lib.rs): what any sequence of
    commits, clears and self-checks does to the capacity the next boot computes, and to the room
    that reservations promise. */
module ConfigRuns {
  import opened Machine
  import opened ConfigRecord
  import opened BlobEntries
  import opened NvsStore
  import opened ConfigSpace

  datatype Request = Change(op: Op) | Check

  function After(g: Geometry, namespaceCost: nat, s: Store, req: Request): Store
    requires g.Exact()
  {
    match req
    case Change(op) => AfterChange(g, namespaceCost, s, op)
    case Check => AfterCheck(namespaceCost, s)
  }

  // What working hardware makes of a sequence of requests.
  function AfterAll(g: Geometry, namespaceCost: nat, s: Store, reqs: seq<Request>): Store
    requires g.Exact()
    decreases |reqs|
  {
    if reqs == [] then s else AfterAll(g, namespaceCost, After(g, namespaceCost, s, reqs[0]), reqs[1..])
  }

  lemma {:induction false} AfterOneMore(g: Geometry, namespaceCost: nat, s: Store, reqs: seq<Request>, req: Request)
    requires g.Exact()
    ensures AfterAll(g, namespaceCost, s, reqs + [req])
              == After(g, namespaceCost, AfterAll(g, namespaceCost, s, reqs), req)
    decreases |reqs|
  {
    hide After;
    if reqs == [] {
      assert ([] + [req])[1..] == [];
      assert AfterAll(g, namespaceCost, After(g, namespaceCost, s, req), []) == After(g, namespaceCost, s, req);
    } else {
      AfterOneMore(g, namespaceCost, After(g, namespaceCost, s, reqs[0]), reqs[1..], req);
      assert (reqs + [req])[1..] == reqs[1..] + [req];
    }
  }

  // Entries that are free or hold this backend's blobs.
  ghost function Room(g: Geometry, s: Store): nat
    requires g.Exact()
  {
    s.free + Used(g, s.blobs)
  }

  // The capacity a boot computes from a store.
  ghost function Capacity(g: Geometry, s: Store): nat
    requires g.Exact()
  {
    SaturatingSub(Room(g, s), g.entriesPerPage)
  }

  // ---------------------------------------------------------------- what a run spends

  // Namespaces that exist after a run and did not before it.
  function Created(s: Store, t: Store): nat {
    (if !s.hasConfig && t.hasConfig then 1 else 0) + (if !s.hasHealth && t.hasHealth then 1 else 0)
  }

  // One step or many: nothing vanishes, and entries only move between blobs, free ones and overhead.
  ghost predicate Spends(g: Geometry, namespaceCost: nat, s: Store, t: Store)
    requires g.Exact()
  {
    && Room(g, t) + OverheadOf(namespaceCost, t) == Room(g, s) + OverheadOf(namespaceCost, s)
    && (s.hasConfig ==> t.hasConfig) && (s.hasHealth ==> t.hasHealth) && (t.canary.Some? ==> s.canary.Some?)
    && (Sane(s) ==> Sane(t))
  }

  lemma ChangeSpends(g: Geometry, namespaceCost: nat, s: Store, op: Op)
    requires g.Exact()
    ensures Spends(g, namespaceCost, s, AfterChange(g, namespaceCost, s, op))
  {
    hide SplitCost, Used, Records, NextGeneration, Encode, ValidSpaceName, Replaceable, Geometry.WholeItems;
    if ValidSpaceName(op.space) && Replaceable(s.blobs, op.space) {
      var record := Record(NextGeneration(Records(s.blobs), op.space), op.Commit?, if op.Commit? then op.data else []);
      UsedUpdate(g, s.blobs, op.space, Encode(record));
    }
  }

  lemma CheckSpends(g: Geometry, namespaceCost: nat, s: Store)
    requires g.Exact()
    ensures Spends(g, namespaceCost, s, AfterCheck(namespaceCost, s))
  {
    hide Used, Geometry.WholeItems;
  }

  lemma {:induction false} RunSpends(g: Geometry, namespaceCost: nat, s: Store, reqs: seq<Request>)
    requires g.Exact()
    ensures Spends(g, namespaceCost, s, AfterAll(g, namespaceCost, s, reqs))
    decreases |reqs|
  {
    hide AfterChange, AfterCheck, OverheadOf, Room, Sane;
    if reqs == [] {
    } else {
      var t := After(g, namespaceCost, s, reqs[0]);
      match reqs[0] {
        case Change(op) => ChangeSpends(g, namespaceCost, s, op);
        case Check => CheckSpends(g, namespaceCost, s);
      }
      RunSpends(g, namespaceCost, t, reqs[1..]);
    }
  }

  // The capacity law of a run: what the next boot misses is exactly the namespaces the run created,
  // and what it gains is a canary that an earlier interrupted check had left.
  lemma CapacityLaw(g: Geometry, namespaceCost: nat, s: Store, reqs: seq<Request>)
    requires g.Exact()
    ensures var t := AfterAll(g, namespaceCost, s, reqs);
      && Room(g, s) + (if s.canary.Some? && t.canary.None? then 1 else 0) == Room(g, t) + namespaceCost * Created(s, t)
      && (0 < Capacity(g, s) && 0 < Capacity(g, t) ==>
            Capacity(g, s) + (if s.canary.Some? && t.canary.None? then 1 else 0)
            == Capacity(g, t) + namespaceCost * Created(s, t))
  {
    hide AfterAll, Room;
    RunSpends(g, namespaceCost, s, reqs);
  }

  // ---------------------------------------------------------------- when capacity is conserved

  // The space can be cleared: its name and record are in order and its generation can rise.
  predicate Clearable(blobs: map<string, seq<u8>>, space: string) {
    space in blobs && ValidSpaceName(space) && Replaceable(blobs, space)
  }

  // Entries that clearing a space frees.
  function Excess(g: Geometry, blobs: map<string, seq<u8>>, space: string): nat
    requires g.Exact() && space in blobs
  {
    if Clearable(blobs, space) then SaturatingSub(SplitCost(g, |blobs[space]|), SplitCost(g, HEADER_LEN)) else 0
  }

  ghost function Excesses(g: Geometry, blobs: map<string, seq<u8>>): map<string, nat>
    requires g.Exact()
  {
    map k | k in blobs :: Excess(g, blobs, k)
  }

  // The most entries that are ever free in a run: those that are, and those that clearing every
  // space would free, if there is room to clear one at all.
  ghost function MostFree(g: Geometry, s: Store): nat
    requires g.Exact()
  {
    if s.free < SplitCost(g, HEADER_LEN) then s.free else s.free + Sum(Excesses(g, s.blobs))
  }

  // Some run finds room to create a namespace.
  ghost predicate MayCreate(g: Geometry, namespaceCost: nat, s: Store)
    requires g.Exact()
  {
    if s.hasConfig then !s.hasHealth && namespaceCost + 1 <= MostFree(g, s)
    else namespaceCost + (if s.hasHealth then SplitCost(g, HEADER_LEN) else 1) <= s.free
  }

  lemma HeaderIsLeast(g: Geometry, blobs: map<string, seq<u8>>, space: string)
    requires g.Exact() && Clearable(blobs, space)
    ensures SplitCost(g, HEADER_LEN) <= SplitCost(g, |blobs[space]|)
    ensures Excess(g, blobs, space) == SplitCost(g, |blobs[space]|) - SplitCost(g, HEADER_LEN)
  {
    hide SplitCost, Geometry.WholeItems, ValidSpaceName;
    SplitCostMonotone(g, HEADER_LEN, |blobs[space]|);
  }

  lemma RecordLeast(g: Geometry, r: Record)
    requires g.Exact()
    ensures SplitCost(g, HEADER_LEN) <= SplitCost(g, |Encode(r)|) && 3 <= SplitCost(g, HEADER_LEN)
  {
    hide SplitCost, Geometry.WholeItems;
    SplitCostMonotone(g, HEADER_LEN, |Encode(r)|);
    SplitCostPositive(g, HEADER_LEN);
  }

  // A change never raises the most that can become free.
  lemma MostFreeFalls(g: Geometry, namespaceCost: nat, s: Store, op: Op)
    requires g.Exact() && s.hasConfig
    ensures MostFree(g, AfterChange(g, namespaceCost, s, op)) <= MostFree(g, s)
  {
    hide SplitCost, Records, NextGeneration, Encode, ValidSpaceName, Replaceable, Geometry.WholeItems, Sum, Excess;
    if ValidSpaceName(op.space) && Replaceable(s.blobs, op.space) {
      var record := Record(NextGeneration(Records(s.blobs), op.space), op.Commit?, if op.Commit? then op.data else []);
      var value := Encode(record);
      RecordLeast(g, record);
      if SplitCost(g, |value|) <= s.free {
        var blobs := s.blobs[op.space := value];
        ExcessesUpdate(g, s.blobs, op.space, value);
        if op.space in s.blobs {
          HeaderIsLeast(g, s.blobs, op.space);
        }
        ExcessBound(g, blobs, op.space);
      }
    }
  }

  lemma ExcessesUpdate(g: Geometry, blobs: map<string, seq<u8>>, space: string, value: seq<u8>)
    requires g.Exact()
    ensures var after := blobs[space := value];
      Sum(Excesses(g, after)) + (if space in blobs then Excess(g, blobs, space) else 0)
      == Sum(Excesses(g, blobs)) + Excess(g, after, space)
  {
    hide SplitCost, Geometry.WholeItems, Sum, ValidSpaceName;
    var after := blobs[space := value];
    forall k | k in blobs && k != space ensures Excess(g, after, k) == Excess(g, blobs, k) {
    }
    assert Excesses(g, after) == Excesses(g, blobs)[space := Excess(g, after, space)];
    SumUpdate(Excesses(g, blobs), space, Excess(g, after, space));
  }

  lemma ExcessBound(g: Geometry, blobs: map<string, seq<u8>>, space: string)
    requires g.Exact() && space in blobs && HEADER_LEN <= |blobs[space]|
    ensures Excess(g, blobs, space) + SplitCost(g, HEADER_LEN) <= SplitCost(g, |blobs[space]|)
    ensures |blobs[space]| == HEADER_LEN ==> Excess(g, blobs, space) == 0
  {
    hide SplitCost, Geometry.WholeItems, ValidSpaceName, Replaceable;
    SplitCostMonotone(g, HEADER_LEN, |blobs[space]|);
  }

  // Where no namespace can be created, none is.
  lemma NothingCreated(g: Geometry, namespaceCost: nat, s: Store, req: Request)
    requires g.Exact() && Sane(s) && s.canary.None? && !MayCreate(g, namespaceCost, s)
    ensures var t := After(g, namespaceCost, s, req);
      t.hasConfig == s.hasConfig && t.hasHealth == s.hasHealth && t.canary.None? && !MayCreate(g, namespaceCost, t)
  {
    hide SplitCost, Records, NextGeneration, Encode, ValidSpaceName, Replaceable, Geometry.WholeItems, Excesses, Sum;
    match req {
      case Change(op) =>
        var record :=
            Record(NextGeneration(Records(s.blobs), op.space), op.Commit?, if op.Commit? then op.data else []);
        RecordLeast(g, record);
        if s.hasConfig {
          hide MostFree;
          MostFreeFalls(g, namespaceCost, s, op);
        }
      case Check =>
        SplitCostPositive(g, HEADER_LEN);
    }
  }

  lemma {:induction false} NothingEverCreated(g: Geometry, namespaceCost: nat, s: Store, reqs: seq<Request>)
    requires g.Exact() && Sane(s) && s.canary.None? && !MayCreate(g, namespaceCost, s)
    ensures var t := AfterAll(g, namespaceCost, s, reqs);
      t.hasConfig == s.hasConfig && t.hasHealth == s.hasHealth && t.canary.None?
    decreases |reqs|
  {
    hide After, MayCreate, Sane;
    if reqs == [] {
    } else {
      NothingCreated(g, namespaceCost, s, reqs[0]);
      StaysSane(g, namespaceCost, s, reqs[0]);
      NothingEverCreated(g, namespaceCost, After(g, namespaceCost, s, reqs[0]), reqs[1..]);
    }
  }

  lemma StaysSane(g: Geometry, namespaceCost: nat, s: Store, req: Request)
    requires g.Exact() && Sane(s)
    ensures Sane(After(g, namespaceCost, s, req))
  {
    hide Sane, AfterChange, AfterCheck, Room;
    match req {
      case Change(op) => ChangeSpends(g, namespaceCost, s, op);
      case Check => CheckSpends(g, namespaceCost, s);
    }
  }

  // ---------------------------------------------------------------- runs that create a namespace

  lemma {:induction false} PositiveMember(m: map<string, nat>) returns (k: string)
    requires 0 < Sum(m)
    ensures k in m && 0 < m[k]
    decreases |m|
  {
    k :| k in m && Sum(m) == m[k] + Sum(m - {k});
    if 0 < m[k] {
    } else {
      k := PositiveMember(m - {k});
    }
  }

  // Clearing a space moves its excess to the free entries.
  lemma ClearOne(g: Geometry, namespaceCost: nat, s: Store, space: string)
    requires g.Exact() && s.hasConfig && SplitCost(g, HEADER_LEN) <= s.free && Clearable(s.blobs, space)
    ensures var t := AfterChange(g, namespaceCost, s, Op.Clear(space));
      && t.hasConfig && t.hasHealth == s.hasHealth && t.canary == s.canary
      && t.free == s.free + Excess(g, s.blobs, space)
      && Sum(Excesses(g, t.blobs)) + Excess(g, s.blobs, space) == Sum(Excesses(g, s.blobs))
  {
    hide SplitCost, Records, NextGeneration, Encode, ValidSpaceName, Replaceable, Geometry.WholeItems, Sum, Excess;
    var record := Record(NextGeneration(Records(s.blobs), space), false, []);
    HeaderIsLeast(g, s.blobs, space);
    ExcessesUpdate(g, s.blobs, space, Encode(record));
    ExcessBound(g, s.blobs[space := Encode(record)], space);
  }

  // Clearing every space that can be frees all there is to free.
  lemma {:induction false} ClearAll(g: Geometry, namespaceCost: nat, s: Store) returns (reqs: seq<Request>)
    requires g.Exact() && s.hasConfig && SplitCost(g, HEADER_LEN) <= s.free
    ensures var t := AfterAll(g, namespaceCost, s, reqs);
      t.free == s.free + Sum(Excesses(g, s.blobs)) && t.hasHealth == s.hasHealth && t.canary == s.canary
    decreases Sum(Excesses(g, s.blobs))
  {
    hide SplitCost, Geometry.WholeItems, Sum, AfterChange, Clearable;
    if Sum(Excesses(g, s.blobs)) == 0 {
      reqs := [];
    } else {
      var k := PositiveMember(Excesses(g, s.blobs));
      ClearOne(g, namespaceCost, s, k);
      var req := Change(Op.Clear(k));
      var rest := ClearAll(g, namespaceCost, After(g, namespaceCost, s, req));
      reqs := [req] + rest;
      assert reqs[1..] == rest;
    }
  }

  lemma CheckCreates(g: Geometry, namespaceCost: nat, s: Store)
    requires g.Exact() && !s.hasHealth && namespaceCost + 1 <= s.free
    ensures After(g, namespaceCost, s, Check).hasHealth
  {
    hide Geometry.WholeItems;
  }

  lemma ClearCreates(g: Geometry, namespaceCost: nat, s: Store)
    requires g.Exact() && Sane(s) && !s.hasConfig && namespaceCost + SplitCost(g, HEADER_LEN) <= s.free
    ensures After(g, namespaceCost, s, Change(Op.Clear("a"))).hasConfig
  {
    hide Geometry.WholeItems, SplitCost, Records, NextGeneration, Encode;
    var record := Record(NextGeneration(Records(s.blobs), "a"), false, []);
    assert ValidSpaceName("a");
    assert |Encode(record)| == HEADER_LEN;
  }

  lemma OneRequest(g: Geometry, namespaceCost: nat, s: Store, req: Request)
    requires g.Exact()
    ensures AfterAll(g, namespaceCost, s, [req]) == After(g, namespaceCost, s, req)
  {
    hide After;
    assert [req][1..] == [];
    assert AfterAll(g, namespaceCost, After(g, namespaceCost, s, req), []) == After(g, namespaceCost, s, req);
  }

  lemma SomeRunCreates(g: Geometry, namespaceCost: nat, s: Store) returns (reqs: seq<Request>)
    requires g.Exact() && Sane(s) && MayCreate(g, namespaceCost, s)
    ensures 0 < Created(s, AfterAll(g, namespaceCost, s, reqs))
  {
    hide After, AfterAll, SplitCost, Geometry.WholeItems, Sum, Excesses, Sane;
    if !s.hasConfig && s.hasHealth {
      reqs := [Change(Op.Clear("a"))];
      ClearCreates(g, namespaceCost, s);
      OneRequest(g, namespaceCost, s, reqs[0]);
    } else if namespaceCost + 1 <= s.free {
      reqs := [Check];
      CheckCreates(g, namespaceCost, s);
      OneRequest(g, namespaceCost, s, Check);
    } else {
      var clears := ClearAll(g, namespaceCost, s);
      CheckCreates(g, namespaceCost, AfterAll(g, namespaceCost, s, clears));
      AfterOneMore(g, namespaceCost, s, clears, Check);
      reqs := clears + [Check];
    }
  }

  // ---------------------------------------------------------------- the condition

  ghost predicate Conserved(g: Geometry, namespaceCost: nat, s: Store)
    requires g.Exact()
  {
    forall reqs :: Capacity(g, AfterAll(g, namespaceCost, s, reqs)) == Capacity(g, s)
  }

  // With no canary left behind, the capacity is the same after every run exactly when namespaces
  // cost nothing, or there is no capacity to lose, or no run can create a namespace.
  lemma ConservedWithoutCanary(g: Geometry, namespaceCost: nat, s: Store)
    requires g.Exact() && Sane(s) && s.canary.None?
    ensures Conserved(g, namespaceCost, s) <==>
      namespaceCost == 0 || Capacity(g, s) == 0 || !MayCreate(g, namespaceCost, s)
  {
    hide AfterAll, MayCreate, Room, Sane;
    if namespaceCost == 0 || Capacity(g, s) == 0 || !MayCreate(g, namespaceCost, s) {
      forall reqs ensures Capacity(g, AfterAll(g, namespaceCost, s, reqs)) == Capacity(g, s) {
        CapacityLaw(g, namespaceCost, s, reqs);
        if !MayCreate(g, namespaceCost, s) {
          NothingEverCreated(g, namespaceCost, s, reqs);
        }
      }
    } else {
      var reqs := SomeRunCreates(g, namespaceCost, s);
      CapacityLaw(g, namespaceCost, s, reqs);
      assert Room(g, AfterAll(g, namespaceCost, s, reqs)) < Room(g, s);
      assert Capacity(g, AfterAll(g, namespaceCost, s, reqs)) != Capacity(g, s);
    }
  }

  // A full store takes no request.
  lemma {:induction false} FullStoreStays(g: Geometry, namespaceCost: nat, s: Store, reqs: seq<Request>)
    requires g.Exact() && s.free == 0
    ensures AfterAll(g, namespaceCost, s, reqs) == s
    decreases |reqs|
  {
    hide SplitCost, Geometry.WholeItems, Records, NextGeneration, Encode, ValidSpaceName, Replaceable;
    if reqs == [] {
    } else {
      match reqs[0] {
        case Change(op) =>
          var record :=
              Record(NextGeneration(Records(s.blobs), op.space), op.Commit?, if op.Commit? then op.data else []);
          SplitCostPositive(g, |Encode(record)|);
        case Check =>
      }
      FullStoreStays(g, namespaceCost, s, reqs[1..]);
    }
  }

  lemma CheckRemovesCanary(g: Geometry, namespaceCost: nat, s: Store)
    requires g.Exact() && Sane(s) && s.canary.Some? && 0 < s.free
    ensures Room(g, After(g, namespaceCost, s, Check)) == Room(g, s) + 1
  {
    hide Used, Geometry.WholeItems;
  }

  // With a canary left behind, the capacity is the same after every run exactly when the store is too
  // full to check again, or the entry the canary frees does not fill a page.
  lemma ConservedWithCanary(g: Geometry, namespaceCost: nat, s: Store)
    requires g.Exact() && Sane(s) && s.canary.Some?
    ensures Conserved(g, namespaceCost, s) <==> s.free == 0 || Room(g, s) < g.entriesPerPage
  {
    hide After, AfterAll, Room, Sane;
    if s.free == 0 {
      forall reqs ensures Capacity(g, AfterAll(g, namespaceCost, s, reqs)) == Capacity(g, s) {
        FullStoreStays(g, namespaceCost, s, reqs);
      }
    } else if Room(g, s) < g.entriesPerPage {
      forall reqs ensures Capacity(g, AfterAll(g, namespaceCost, s, reqs)) == Capacity(g, s) {
        CapacityLaw(g, namespaceCost, s, reqs);
      }
    } else {
      CheckRemovesCanary(g, namespaceCost, s);
      OneRequest(g, namespaceCost, s, Check);
      assert Capacity(g, AfterAll(g, namespaceCost, s, [Check])) != Capacity(g, s);
    }
  }

  // The exact condition, for every store.
  lemma ConservedIff(g: Geometry, namespaceCost: nat, s: Store)
    requires g.Exact() && Sane(s)
    ensures Conserved(g, namespaceCost, s) <==>
      if s.canary.Some? then s.free == 0 || Room(g, s) < g.entriesPerPage
      else namespaceCost == 0 || Capacity(g, s) == 0 || !MayCreate(g, namespaceCost, s)
  {
    hide Conserved, Room, Capacity, MayCreate, Sane;
    if s.canary.Some? {
      ConservedWithCanary(g, namespaceCost, s);
    } else {
      ConservedWithoutCanary(g, namespaceCost, s);
    }
  }

  // With both namespaces in place nothing can be created; with room for the smallest record and a
  // namespace, one that is missing can. So a store with that room and some capacity conserves it
  // exactly when namespaces cost nothing or both exist.
  lemma ConservedWithRoom(g: Geometry, namespaceCost: nat, s: Store)
    requires g.Exact() && Sane(s) && s.canary.None?
    ensures s.hasConfig && s.hasHealth ==> Conserved(g, namespaceCost, s)
    ensures 0 < Capacity(g, s) && namespaceCost + SplitCost(g, HEADER_LEN) <= s.free ==>
      (Conserved(g, namespaceCost, s) <==> namespaceCost == 0 || (s.hasConfig && s.hasHealth))
  {
    hide Conserved, SplitCost, Geometry.WholeItems, Capacity, Sum, Excesses;
    ConservedIff(g, namespaceCost, s);
    SplitCostPositive(g, HEADER_LEN);
  }

  // ---------------------------------------------------------------- the backend's runs

  // Two boots with any requests between them. On working hardware the store follows the requests,
  // so the two capacities obey the law, and are equal when the condition above holds.
  method CapacityAcrossRun(nvs: Nvs, health: Health, reqs: seq<Request>)
    returns (before: Result<NvsConfigBackend, ConfigError>, after: Result<NvsConfigBackend, ConfigError>)
    requires nvs.Valid()
    requires forall i :: 0 <= i < |reqs| && reqs[i].Change? && reqs[i].op.Commit? ==>
             HEADER_LEN + |reqs[i].op.data| < USIZE_RANGE
    modifies nvs, health
    ensures nvs.Valid()
    ensures before.Ok? && nvs.faults == old(nvs.faults) ==>
              nvs.Contents() == AfterAll(nvs.g, nvs.namespaceCost, old(nvs.Contents()), reqs)
    ensures before.Ok? && after.Ok? && nvs.faults == old(nvs.faults) ==>
      && before.value.capacityUnits == Capacity(nvs.g, old(nvs.Contents()))
      && after.value.capacityUnits == Capacity(nvs.g, nvs.Contents())
    // a boot fails only through the hardware or a blob that cannot be counted
    ensures before.Err? && Countable(nvs.g, old(nvs.blobs)) ==> old(nvs.faults) < nvs.faults
    ensures before.Ok? && after.Err? && Countable(nvs.g, nvs.blobs) ==> old(nvs.faults) < nvs.faults
    // whatever fails, the capacity moves by what is kept outside the blobs
    ensures before.Ok? && after.Ok? && 0 < before.value.capacityUnits && 0 < after.value.capacityUnits ==>
      before.value.capacityUnits + old(nvs.Overhead()) == after.value.capacityUnits + nvs.Overhead()
    ensures before.Ok? && after.Ok? && nvs.faults == old(nvs.faults) && 0 < before.value.capacityUnits &&
              0 < after.value.capacityUnits ==>
      before.value.capacityUnits + (if old(nvs.canary).Some? && nvs.canary.None? then 1 else 0)
      == after.value.capacityUnits + nvs.namespaceCost * Created(old(nvs.Contents()), nvs.Contents())
    ensures before.Ok? && after.Ok? && nvs.faults == old(nvs.faults) ==>
      Conserved(nvs.g, nvs.namespaceCost, old(nvs.Contents())) ==>
          before.value.capacityUnits == after.value.capacityUnits
  {
    hide Used, Countable, OverheadOf, Sane, AfterChange, AfterCheck, AfterAll, ReplaceOutcome, OnlyRecord, Reserved,
        Geometry.WholeItems, SplitCost, Extended;
    ghost var start := nvs.Contents();
    before := NvsConfigBackend.New(nvs, health);
    after := before;
    if before.Err? {
      return;
    }
    var backend := before.value;
    assert reqs[..0] == [];
    NoRequests(nvs.g, nvs.namespaceCost, start);
    for n := 0 to |reqs|
      invariant nvs.Valid()
      invariant old(nvs.faults) <= nvs.faults
      invariant nvs.faults == old(nvs.faults) ==> nvs.Contents() == AfterAll(nvs.g, nvs.namespaceCost, start, reqs[..n])
    {
      assert reqs[..n + 1] == reqs[..n] + [reqs[n]];
      AfterOneMore(nvs.g, nvs.namespaceCost, start, reqs[..n], reqs[n]);
      Perform(backend, reqs[n]);
    }
    assert reqs[..|reqs|] == reqs;
    after := NvsConfigBackend.New(nvs, health);
    CapacityLaw(nvs.g, nvs.namespaceCost, start, reqs);
  }

  lemma NoRequests(g: Geometry, namespaceCost: nat, s: Store)
    requires g.Exact()
    ensures AfterAll(g, namespaceCost, s, []) == s
  {
  }

  method Perform(backend: NvsConfigBackend, req: Request)
    requires backend.nvs.Valid()
    requires req.Change? && req.op.Commit? ==> HEADER_LEN + |req.op.data| < USIZE_RANGE
    modifies backend`history, backend`attempts, backend.nvs, backend.health
    ensures backend.nvs.Valid()
    ensures old(backend.nvs.faults) <= backend.nvs.faults
    ensures backend.nvs.faults == old(backend.nvs.faults) ==>
      backend.nvs.Contents() == After(backend.nvs.g, backend.nvs.namespaceCost, old(backend.nvs.Contents()), req)
  {
    hide Used, OverheadOf, Sane, AfterChange, AfterCheck, ReplaceOutcome, OnlyRecord, Reserved, Geometry.WholeItems,
        SplitCost, Extended;
    match req {
      case Change(op) =>
        match op {
          case Commit(space, data) =>
            var r := backend.Commit(space, data);
          case Clear(space) =>
            var r := backend.Clear(space);
        }
      case Check =>
        var ok := backend.SelfCheck();
    }
  }

  // ---------------------------------------------------------------- reservations over a run

  ghost predicate AllDecode(blobs: map<string, seq<u8>>) {
    forall k :: k in blobs ==> Decode(blobs[k]).Some?
  }

  // The request changes a claimed space within its budget, or none.
  predicate InBudget(claims: map<string, nat>, req: Request) {
    req.Change? ==> req.op.space in claims && (req.op.Commit? ==> |req.op.data| <= claims[req.op.space])
  }

  lemma ClaimsAreNamed(g: Geometry, claims: map<string, nat>, capacity: nat, space: string)
    requires g.Exact() && Admitted(g, claims, capacity) && space in claims
    ensures ValidSpaceName(space) && HEADER_LEN + claims[space] < USIZE_RANGE
  {
    hide ValidSpaceName, Reservations, Sum, EntriesForBlob;
    assert ReservationUnits(g, space, claims[space]).Some?;
  }

  lemma StillDecodes(r: Result<nat, ConfigError>, before: map<string, seq<u8>>, after: map<string, seq<u8>>, op: Op,
                     size: nat)
    requires ReplaceOutcome(r, before, after, op) && OnlyRecord(before, after, op.space, size) && AllDecode(before)
    ensures AllDecode(after)
  {
    hide Decode, NextGeneration, ValidSpaceName;
    forall k | k in after ensures Decode(after[k]).Some? {
      if after != before && k == op.space {
        assert k in Records(after);
      }
    }
  }

  // A change that fails does so through the hardware while it is carried out, or because the
  // generations of its space are exhausted.
  predicate KeepsPromise(a: Attempt) {
    a.failed.None? || a.failed == Some(GenerationOverflow) || a.before < a.after
  }

  // Claims admitted at boot keep their promise over every run: each change of any sequence of in-budget
  // commits, clears and self-checks does, whatever failed before it or fails later.
  method ReservedRun(backend: NvsConfigBackend, ghost claims: map<string, nat>, reqs: seq<Request>)
    returns (results: seq<Result<nat, ConfigError>>)
    requires backend.nvs.Valid() && backend.Booted() &&
             2 * backend.nvs.namespaceCost + 1 <= backend.nvs.g.entriesPerPage
    requires Admitted(backend.nvs.g, claims, backend.capacityUnits)
    requires WithinBudgets(claims, backend.nvs.blobs) && AllDecode(backend.nvs.blobs)
    requires forall i :: 0 <= i < |reqs| ==> InBudget(claims, reqs[i])
    modifies backend`history, backend`attempts, backend.nvs, backend.health
    ensures backend.nvs.Valid() && WithinBudgets(claims, backend.nvs.blobs) && AllDecode(backend.nvs.blobs)
    // the backend's log has one attempt per request, with its result, and the counts join up
    ensures |results| == |reqs| && old(backend.attempts) <= backend.attempts
    ensures |backend.attempts| == |old(backend.attempts)| + |reqs|
    ensures Joined(backend.attempts[|old(backend.attempts)|..], old(backend.nvs.faults), backend.nvs.faults)
    ensures forall i :: 0 <= i < |reqs| && reqs[i].Change? ==>
              var a := backend.attempts[|old(backend.attempts)| + i];
              a.failed == ErrorOf(results[i]) && KeepsPromise(a)
  {
    hide Used, OverheadOf, Sane, SplitCost, Admitted, WithinBudgets, AllDecode, InBudget, Geometry.WholeItems,
        NvsConfigBackend.Booted, KeepsPromise, ErrorOf;
    ghost var log := backend.attempts;
    results := [];
    assert backend.attempts[|log|..] == [];
    for n := 0 to |reqs|
      invariant backend.nvs.Valid() && WithinBudgets(claims, backend.nvs.blobs) && AllDecode(backend.nvs.blobs)
      invariant |results| == n && log <= backend.attempts && |backend.attempts| == |log| + n
      invariant Joined(backend.attempts[|log|..], old(backend.nvs.faults), backend.nvs.faults)
      invariant forall i :: 0 <= i < n && reqs[i].Change? ==>
        backend.attempts[|log| + i].failed == ErrorOf(results[i]) && KeepsPromise(backend.attempts[|log| + i])
    {
      ghost var before := backend.attempts;
      var r := PerformReserved(backend, claims, reqs[n]);
      JoinMore(before[|log|..], backend.attempts[|before|], old(backend.nvs.faults));
      assert backend.attempts[|log|..] == before[|log|..] + [backend.attempts[|before|]];
      results := results + [r];
    }
  }

  // Each attempt starts where the one before it ended.
  ghost predicate Joined(attempts: seq<Attempt>, from: nat, to: nat) {
    if attempts == [] then from == to
    else
      var last := attempts[|attempts| - 1];
      last.before <= last.after == to && Joined(attempts[..|attempts| - 1], from, last.before)
  }

  lemma JoinMore(attempts: seq<Attempt>, a: Attempt, from: nat)
    requires Joined(attempts, from, a.before) && a.before <= a.after
    ensures Joined(attempts + [a], from, a.after)
  {
    assert (attempts + [a])[..|attempts|] == attempts;
  }

  // One request of such a run; a self-check is reported as generation 0.
  method PerformReserved(backend: NvsConfigBackend, ghost claims: map<string, nat>, req: Request)
    returns (r: Result<nat, ConfigError>)
    requires backend.nvs.Valid() && backend.Booted() &&
             2 * backend.nvs.namespaceCost + 1 <= backend.nvs.g.entriesPerPage
    requires Admitted(backend.nvs.g, claims, backend.capacityUnits)
    requires WithinBudgets(claims, backend.nvs.blobs) && AllDecode(backend.nvs.blobs) && InBudget(claims, req)
    modifies backend`history, backend`attempts, backend.nvs, backend.health
    ensures backend.nvs.Valid() && WithinBudgets(claims, backend.nvs.blobs) && AllDecode(backend.nvs.blobs)
    ensures old(backend.nvs.faults) <= backend.nvs.faults
    ensures |backend.attempts| == |old(backend.attempts)| + 1 && old(backend.attempts) <= backend.attempts
    ensures var a := backend.attempts[|old(backend.attempts)|];
      && a.before == old(backend.nvs.faults) && a.after == backend.nvs.faults
      && (req.Change? ==> a.failed == ErrorOf(r) && KeepsPromise(a))
  {
    hide Used, OverheadOf, Sane, SplitCost, Admitted, WithinBudgets, AllDecode, Geometry.WholeItems, AfterChange,
        AfterCheck, ReplaceOutcome, OnlyRecord, Reserved, Extended, NvsConfigBackend.Booted, ValidSpaceName;
    ghost var before := backend.nvs.blobs;
    r := Ok(0);
    match req {
      case Change(op) =>
        var size := if op.Commit? then |op.data| else 0;
        ClaimsAreNamed(backend.nvs.g, claims, backend.capacityUnits, op.space);
        ClaimIsReserved(backend.nvs.g, backend.capacityUnits, claims, before, op.space, size);
        match op {
          case Commit(space, data) =>
            r := backend.Commit(space, data);
          case Clear(space) =>
            r := backend.Clear(space);
        }
        StillDecodes(r, before, backend.nvs.blobs, op, HEADER_LEN + size);
        BudgetsKept(claims, before, backend.nvs.blobs, op.space, size);
        OutcomeErrors(r, before, backend.nvs.blobs, op);
      case Check =>
        var ok := backend.SelfCheck();
    }
  }

  lemma ClaimIsReserved(g: Geometry, capacity: nat, claims: map<string, nat>, blobs: map<string, seq<u8>>,
                        space: string, size: nat)
    requires g.Exact() && Admitted(g, claims, capacity) && WithinBudgets(claims, blobs) && space in claims &&
             size <= claims[space]
    ensures Reserved(g, capacity, blobs, space, size)
  {
    hide Admitted, WithinBudgets;
  }

  // A named space whose record decodes rules out the other refusals.
  lemma OutcomeErrors(r: Result<nat, ConfigError>, before: map<string, seq<u8>>, after: map<string, seq<u8>>, op: Op)
    requires ReplaceOutcome(r, before, after, op) && ValidSpaceName(op.space) && AllDecode(before)
    ensures r.Ok? || r.error == GenerationOverflow || r.error == WriteFailed || r.error == Unavailable
  {
    hide Decode, Records, Apply, NextGeneration, ValidSpaceName;
  }
}
