/** Non-volatile storage as this backend sees it: named blobs and a ledger of fixed-size entries.
    The storage engine (esp-nvs) is outside the repository. The ledger assumes that storing a blob
    takes what splitting it into chunks costs while the old version still exists, that superseded
    entries become free, and that the first value of a namespace adds `namespaceCost` entries which
    stay. `namespaceCost == 0` is the ledger without namespace entries. */
module NvsStore {
  import opened Machine
  import opened ConfigRecord
  import opened BlobEntries

  // ---------------------------------------------------------------- sums over maps

  ghost function Sum(m: map<string, nat>): nat {
    if m == map[] then 0
    else
      var k :| k in m;
      m[k] + Sum(m - {k})
  }

  // The sum does not depend on the order of the keys.
  lemma {:induction false} SumWithout(m: map<string, nat>, k: string)
    requires k in m
    ensures Sum(m) == m[k] + Sum(m - {k})
    decreases |m|
  {
    var j :| j in m && Sum(m) == m[j] + Sum(m - {j});
    if j == k {
    } else {
      SumWithout(m - {j}, k);
      SumWithout(m - {k}, j);
      assert (m - {j}) - {k} == (m - {k}) - {j};
    }
  }

  lemma SumUpdate(m: map<string, nat>, k: string, v: nat)
    ensures Sum(m[k := v]) + (if k in m then m[k] else 0) == Sum(m) + v
  {
    SumWithout(m[k := v], k);
    if k in m {
      SumWithout(m, k);
      assert m[k := v] - {k} == m - {k};
    } else {
      assert m[k := v] - {k} == m;
    }
  }

  // Fewer keys and smaller values sum to no more.
  lemma {:induction false} SumMonotone(a: map<string, nat>, b: map<string, nat>)
    requires a.Keys <= b.Keys && forall k :: k in a ==> a[k] <= b[k]
    ensures Sum(a) <= Sum(b)
    decreases |b|
  {
    if b == map[] {
    } else {
      var k :| k in b;
      SumWithout(b, k);
      if k in a {
        SumWithout(a, k);
        SumMonotone(a - {k}, b - {k});
      } else {
        assert a - {k} == a;
        SumMonotone(a, b - {k});
      }
    }
  }

  lemma {:induction false} SumDoubles(a: map<string, nat>, b: map<string, nat>)
    requires a.Keys == b.Keys && forall k :: k in a ==> b[k] == 2 * a[k]
    ensures Sum(b) == 2 * Sum(a)
    decreases |b|
  {
    if b == map[] {
    } else {
      var k :| k in b;
      SumWithout(a, k);
      SumWithout(b, k);
      SumDoubles(a - {k}, b - {k});
    }
  }

  lemma MemberBelowSum(m: map<string, nat>, k: string)
    requires k in m
    ensures m[k] <= Sum(m)
  {
    SumWithout(m, k);
  }

  // ---------------------------------------------------------------- the store

  // Entries of every stored blob.
  ghost function Costs(g: Geometry, blobs: map<string, seq<u8>>): map<string, nat>
    requires g.Exact()
  {
    map k | k in blobs :: SplitCost(g, |blobs[k]|)
  }

  ghost function Used(g: Geometry, blobs: map<string, seq<u8>>): nat
    requires g.Exact()
  {
    Sum(Costs(g, blobs))
  }

  lemma UsedUpdate(g: Geometry, blobs: map<string, seq<u8>>, k: string, v: seq<u8>)
    requires g.Exact()
    ensures Used(g, blobs[k := v]) + (if k in blobs then SplitCost(g, |blobs[k]|) else 0)
              == Used(g, blobs) + SplitCost(g, |v|)
  {
    assert Costs(g, blobs[k := v]) == Costs(g, blobs)[k := SplitCost(g, |v|)];
    SumUpdate(Costs(g, blobs), k, SplitCost(g, |v|));
  }

  // ---------------------------------------------------------------- what working hardware does

  // The store as a value: what it holds, and how many entries are free.
  datatype Store = Store(blobs: map<string, seq<u8>>, canary: Option<u8>, hasConfig: bool, hasHealth: bool, free: nat)

  // Entries kept outside the blobs.
  function OverheadOf(namespaceCost: nat, s: Store): nat {
    (if s.hasConfig then namespaceCost else 0) + (if s.hasHealth then namespaceCost else 0)
    + (if s.canary.Some? then 1 else 0)
  }

  // Namespaces exist before their values.
  predicate Sane(s: Store) {
    (s.blobs != map[] ==> s.hasConfig) && (s.canary.Some? ==> s.hasHealth)
  }

  // A blob takes its place beside its old version, or nothing happens.
  function AfterSet(g: Geometry, namespaceCost: nat, s: Store, key: string, value: seq<u8>): Store
    requires g.Exact()
  {
    var need := SplitCost(g, |value|) + if s.hasConfig then 0 else namespaceCost;
    if s.free < need then s
    else
      var freed := if key in s.blobs then SplitCost(g, |s.blobs[key]|) else 0;
      Store(s.blobs[key := value], s.canary, true, s.hasHealth, s.free - need + freed)
  }

  function AfterSetCanary(namespaceCost: nat, s: Store, value: u8): Store {
    var need := 1 + if s.hasHealth then 0 else namespaceCost;
    if s.free < need then s
    else Store(s.blobs, Some(value), s.hasConfig, true, s.free - need + if s.canary.Some? then 1 else 0)
  }

  function AfterDeleteCanary(s: Store): Store {
    Store(s.blobs, None, s.hasConfig, s.hasHealth, s.free + if s.canary.Some? then 1 else 0)
  }

  datatype Lookup = Found(raw: seq<u8>) | Missing | Failed

  class Nvs {
    const g: Geometry
    const namespaceCost: nat
    const total: nat
    // Configuration blobs, and the one-byte value of the health namespace.
    var blobs: map<string, seq<u8>>
    var canary: Option<u8>
    var hasConfigNamespace: bool
    var hasHealthNamespace: bool
    // Entries never written, entries of superseded values, entries of other users.
    var empty: nat
    var erased: nat
    const foreign: nat
    // How many operations that had room the hardware has failed.
    ghost var faults: nat

    constructor (g: Geometry, namespaceCost: nat, total: nat, foreign: nat)
      requires g.Exact() && foreign <= total < USIZE_RANGE
      ensures Valid() && this.g == g && this.namespaceCost == namespaceCost && blobs == map[] && faults == 0
    {
      this.g, this.namespaceCost, this.total, this.foreign := g, namespaceCost, total, foreign;
      blobs, canary, hasConfigNamespace, hasHealthNamespace := map[], None, false, false;
      empty, erased, faults := total - foreign, 0, 0;
      new;
      assert Costs(g, blobs) == map[];
    }

    ghost function Contents(): Store
      reads this
    {
      Store(blobs, canary, hasConfigNamespace, hasHealthNamespace, empty + erased)
    }

    // Entries of this backend that are not part of a configuration blob.
    ghost function Overhead(): nat
      reads this
    {
      OverheadOf(namespaceCost, Contents())
    }

    // Every entry is accounted for, once.
    ghost predicate Valid()
      reads this
    {
      && g.Exact() && total < USIZE_RANGE
      && empty + erased + foreign + Used(g, blobs) + Overhead() == total
      && Sane(Contents())
    }

    // Entries a new version of a blob needs on top of everything stored.
    ghost function Needed(size: nat): nat
      reads this
      requires g.Exact()
    {
      SplitCost(g, size) + if hasConfigNamespace then 0 else namespaceCost
    }

    method Open() returns (ok: bool)
      modifies this`faults
      ensures faults == old(faults) + (if ok then 0 else 1)
      ensures old(Valid()) ==> Valid()
    {
      ok := *;
      if !ok {
        faults := faults + 1;
      }
    }

    method Get(key: string) returns (r: Lookup)
      modifies this`faults
      ensures r.Found? ==> key in blobs && r.raw == blobs[key]
      ensures r.Missing? ==> key !in blobs
      ensures faults == old(faults) + (if r.Failed? then 1 else 0)
    {
      var ok: bool := *;
      if !ok {
        faults := faults + 1;
        return Failed;
      }
      r := if key in blobs then Found(blobs[key]) else Missing;
    }

    // Reclaiming pages moves superseded entries back to the empty ones.
    method Settle(free: nat)
      modifies this`empty, this`erased
      ensures empty + erased == free
    {
      var reclaimed := *;
      empty := if 0 <= reclaimed <= free then reclaimed else free;
      erased := free - empty;
    }

    // A failed write leaves the old version or, when only the report is lost, the new one.
    method Set(key: string, value: seq<u8>) returns (ok: bool)
      requires Valid()
      modifies this
      ensures Valid() && canary == old(canary) && hasHealthNamespace == old(hasHealthNamespace)
      ensures old(hasConfigNamespace) ==> hasConfigNamespace
      ensures ok ==> blobs == old(blobs)[key := value] && hasConfigNamespace && faults == old(faults)
      ensures !ok ==> blobs == old(blobs) || blobs == old(blobs)[key := value]
      ensures !ok && old(Needed(|value|)) <= old(empty) + old(erased) ==> old(faults) < faults
      ensures faults == old(faults) ==> Contents() == AfterSet(g, namespaceCost, old(Contents()), key, value)
      ensures old(faults) <= faults
    {
      hide SplitCost, Used, Geometry.WholeItems;
      var need := SplitCost(g, |value|) + if hasConfigNamespace then 0 else namespaceCost;
      if empty + erased < need {
        return false;
      }
      ok := *;
      var done: bool := *;
      if ok || done {
        UsedUpdate(g, blobs, key, value);
        var freed := if key in blobs then SplitCost(g, |blobs[key]|) else 0;
        Settle(empty + erased - need + freed);
        blobs := blobs[key := value];
        hasConfigNamespace := true;
      }
      if !ok {
        faults := faults + 1;
      }
    }

    // The configuration keys in some order, without repetition.
    method Keys() returns (ok: bool, keys: seq<string>)
      modifies this`faults
      ensures ok ==> (forall k :: k in keys <==> k in blobs) && Distinct(keys)
      ensures faults == old(faults) + (if ok then 0 else 1)
    {
      ok := *;
      if !ok {
        faults := faults + 1;
      }
      keys := [];
      var rest := blobs.Keys;
      while rest != {}
        invariant rest <= blobs.Keys && Distinct(keys)
        invariant forall k :: k in keys <==> k in blobs.Keys - rest
        decreases rest
      {
        var k :| k in rest;
        assert forall i :: 0 <= i < |keys| ==> keys[i] in keys;
        keys := keys + [k];
        rest := rest - {k};
      }
    }

    // A canary finds its entries.
    ghost predicate CanaryRoom()
      reads this
    {
      1 + (if hasHealthNamespace then 0 else namespaceCost) <= empty + erased
    }

    method SetCanary(value: u8) returns (ok: bool)
      requires Valid()
      modifies this
      ensures Valid() && blobs == old(blobs) && hasConfigNamespace == old(hasConfigNamespace)
      ensures old(hasHealthNamespace) ==> hasHealthNamespace
      ensures ok ==> canary == Some(value) && faults == old(faults) && old(CanaryRoom())
      ensures !ok ==> canary == old(canary) || canary == Some(value)
      ensures !ok && old(CanaryRoom()) ==> old(faults) < faults
      ensures faults == old(faults) ==> Contents() == AfterSetCanary(namespaceCost, old(Contents()), value)
      ensures faults == old(faults) ==> ok == old(CanaryRoom())
      ensures old(faults) <= faults
    {
      hide Used;
      var need := 1 + if hasHealthNamespace then 0 else namespaceCost;
      if empty + erased < need {
        return false;
      }
      ok := *;
      var done: bool := *;
      if ok || done {
        Settle(empty + erased - need + if canary.Some? then 1 else 0);
        canary := Some(value);
        hasHealthNamespace := true;
      }
      if !ok {
        faults := faults + 1;
      }
    }

    // Hardware that fails may report nothing, or another value than the one stored.
    method GetCanary() returns (r: Option<u8>)
      modifies this`faults
      ensures r.Some? ==> (r == canary <==> faults == old(faults))
      ensures r.None? ==> canary == None || old(faults) < faults
      ensures old(faults) <= faults
      ensures old(Valid()) ==> Valid()
    {
      var read: Option<u8> := *;
      r := read;
      if r != canary {
        faults := faults + 1;
      }
    }

    method DeleteCanary() returns (ok: bool)
      requires Valid()
      modifies this
      ensures Valid() && blobs == old(blobs) && hasConfigNamespace == old(hasConfigNamespace)
      ensures hasHealthNamespace == old(hasHealthNamespace)
      ensures ok ==> canary == None
      ensures !ok ==> canary == old(canary) || canary == None
      ensures faults == old(faults) ==> Contents() == AfterDeleteCanary(old(Contents()))
      ensures faults == old(faults) + (if ok then 0 else 1)
    {
      ok := *;
      var done: bool := *;
      if ok || done {
        erased := erased + if canary.Some? then 1 else 0;
        canary := None;
      }
      if !ok {
        faults := faults + 1;
      }
    }
  }

  ghost predicate Distinct(keys: seq<string>) {
    forall i, j :: 0 <= i < j < |keys| ==> keys[i] != keys[j]
  }
}
