/** One entry per network of a scan, with the strongest access point of each
    (services/wifi/src/lib.rs). */
module WifiScan {
  import opened Machine

  type Bssid = seq<int>

  datatype AccessPoint = AccessPoint(ssid: string, bssid: Bssid, signal: int, secured: bool)

  // Access point `i` is the first of its network to reach the network's strongest signal.
  ghost predicate EarliestStrongest(aps: seq<AccessPoint>, i: nat) {
    && i < |aps|
    && (forall j :: 0 <= j < |aps| && aps[j].ssid == aps[i].ssid ==> aps[j].signal <= aps[i].signal)
    && (forall j :: 0 <= j < i && aps[j].ssid == aps[i].ssid ==> aps[j].signal < aps[i].signal)
  }

  // Access point `i` is the first of its network.
  ghost predicate FirstOfNetwork(aps: seq<AccessPoint>, i: nat) {
    i < |aps| && aps[i].ssid != "" && forall j :: 0 <= j < i ==> aps[j].ssid != aps[i].ssid
  }

  // The first access points of all the named networks, in scan order.
  ghost predicate Firsts(aps: seq<AccessPoint>, firsts: seq<nat>) {
    && (forall k :: 0 <= k < |firsts| ==> FirstOfNetwork(aps, firsts[k]))
    && (forall k, l :: 0 <= k < l < |firsts| ==> firsts[k] < firsts[l])
    && (forall i :: 0 <= i < |aps| && FirstOfNetwork(aps, i) ==> i in firsts)
  }

  // Each entry is the earliest strongest access point of its network.
  ghost predicate Bests(aps: seq<AccessPoint>, found: seq<AccessPoint>, firsts: seq<nat>, bests: seq<nat>) {
    && |firsts| == |bests| == |found|
    && (forall k :: 0 <= k < |found| ==> EarliestStrongest(aps, bests[k]) && found[k] == aps[bests[k]])
    && (forall k :: 0 <= k < |found| ==> firsts[k] < |aps| && found[k].ssid == aps[firsts[k]].ssid)
  }

  // What a scan lists, with where each entry comes from.
  ghost predicate Listing(aps: seq<AccessPoint>, found: seq<AccessPoint>, firsts: seq<nat>, bests: seq<nat>) {
    Firsts(aps, firsts) && Bests(aps, found, firsts, bests)
  }

  // Networks are listed once each.
  lemma ListedOnce(aps: seq<AccessPoint>, found: seq<AccessPoint>, firsts: seq<nat>, bests: seq<nat>, k: nat, l: nat)
    requires Listing(aps, found, firsts, bests) && k < |found| && l < |found| && found[k].ssid == found[l].ssid
    ensures k == l
  {
    assert FirstOfNetwork(aps, firsts[k]) && FirstOfNetwork(aps, firsts[l]);
    assert firsts[k] == firsts[l];
  }

  // Every named network is listed.
  lemma {:induction false} AllListed(aps: seq<AccessPoint>, found: seq<AccessPoint>, firsts: seq<nat>, bests: seq<nat>,
                                     i: nat) returns (k: nat)
    requires Listing(aps, found, firsts, bests) && i < |aps| && aps[i].ssid != ""
    ensures k < |found| && found[k].ssid == aps[i].ssid && aps[i].signal <= found[k].signal
    decreases i
  {
    if j: nat :| j < i && aps[j].ssid == aps[i].ssid {
      k := AllListed(aps, found, firsts, bests, j);
    } else {
      assert FirstOfNetwork(aps, i);
      k :| 0 <= k < |firsts| && firsts[k] == i;
    }
    assert EarliestStrongest(aps, bests[k]);
  }

  // The scan determines its listing.
  lemma ListingIsUnique(aps: seq<AccessPoint>, found: seq<AccessPoint>, firsts: seq<nat>, bests: seq<nat>,
                        found': seq<AccessPoint>, firsts': seq<nat>, bests': seq<nat>)
    requires Listing(aps, found, firsts, bests) && Listing(aps, found', firsts', bests')
    ensures found == found'
  {
    SortedSameElements(firsts, firsts');
    forall k | 0 <= k < |found| ensures found[k] == found'[k] {
      assert EarliestStrongest(aps, bests[k]) && EarliestStrongest(aps, bests'[k]);
      assert aps[bests[k]].ssid == aps[bests'[k]].ssid;
    }
  }

  lemma {:induction false} SortedSameElements(a: seq<nat>, b: seq<nat>)
    requires forall k, l :: 0 <= k < l < |a| ==> a[k] < a[l]
    requires forall k, l :: 0 <= k < l < |b| ==> b[k] < b[l]
    requires forall x :: x in a <==> x in b
    ensures a == b
    decreases |a|
  {
    assert a == [] || a[0] in a;
    assert b == [] || b[0] in b;
    if a == [] || b == [] {
    } else {
      assert a[0] == b[0];
      forall x ensures x in a[1..] <==> x in b[1..] {
        assert x in a <==> x == a[0] || x in a[1..];
        assert x in b <==> x == b[0] || x in b[1..];
        assert a[0] !in a[1..] && b[0] !in b[1..];
      }
      SortedSameElements(a[1..], b[1..]);
    }
  }

  // ---------------------------------------------------------------- one access point more

  lemma NothingListed()
    ensures Listing([], [], [], [])
  {
    assert Firsts([], []) && Bests([], [], [], []);
  }

  lemma FirstsOfMore(seen: seq<AccessPoint>, ap: AccessPoint, i: nat)
    requires i < |seen|
    ensures FirstOfNetwork(seen + [ap], i) <==> FirstOfNetwork(seen, i)
  {
    assert forall j: nat | j <= i :: (seen + [ap])[j] == seen[j];
  }

  lemma StrongestOfMore(seen: seq<AccessPoint>, ap: AccessPoint, i: nat)
    requires EarliestStrongest(seen, i) && (seen[i].ssid == ap.ssid ==> ap.signal <= seen[i].signal)
    ensures EarliestStrongest(seen + [ap], i)
  {}

  // An access point opens an entry when it is the first of its network.
  lemma FirstsGrow(seen: seq<AccessPoint>, ap: AccessPoint, firsts: seq<nat>)
    requires Firsts(seen, firsts)
    ensures Firsts(seen + [ap], if FirstOfNetwork(seen + [ap], |seen|) then firsts + [|seen|] else firsts)
  {
    assert forall k :: 0 <= k < |firsts| ==> FirstOfNetwork(seen, firsts[k]) && firsts[k] < |seen|;
    forall i: nat | i < |seen| ensures FirstOfNetwork(seen + [ap], i) <==> FirstOfNetwork(seen, i) {
      FirstsOfMore(seen, ap, i);
    }
    hide FirstOfNetwork;
    var grown := if FirstOfNetwork(seen + [ap], |seen|) then firsts + [|seen|] else firsts;
    forall k | 0 <= k < |grown| ensures FirstOfNetwork(seen + [ap], grown[k]) {}
    forall i | 0 <= i < |seen + [ap]| && FirstOfNetwork(seen + [ap], i) ensures i in grown {
      assert i < |seen| ==> i in firsts;
    }
  }

  // A nameless access point, or one no stronger than its network's entry, changes nothing.
  lemma Skip(seen: seq<AccessPoint>, ap: AccessPoint, found: seq<AccessPoint>, firsts: seq<nat>, bests: seq<nat>,
             k: nat)
    requires Listing(seen, found, firsts, bests)
    requires ap.ssid == "" || (k < |found| && found[k].ssid == ap.ssid && found[k].signal >= ap.signal)
    ensures Listing(seen + [ap], found, firsts, bests)
  {
    FirstsGrow(seen, ap, firsts);
    forall l | 0 <= l < |found| ensures EarliestStrongest(seen + [ap], bests[l]) {
      assert FirstOfNetwork(seen, firsts[l]);
      if found[l].ssid == ap.ssid {
        ListedOnce(seen, found, firsts, bests, k, l);
      }
      StrongestOfMore(seen, ap, bests[l]);
    }
    assert ap.ssid != "" ==> (seen + [ap])[firsts[k]].ssid == ap.ssid;
  }

  // A stronger access point takes its network's entry, in its place.
  lemma Replace(seen: seq<AccessPoint>, ap: AccessPoint, found: seq<AccessPoint>, firsts: seq<nat>, bests: seq<nat>,
                k: nat)
    requires Listing(seen, found, firsts, bests) && ap.ssid != ""
    requires k < |found| && found[k].ssid == ap.ssid && found[k].signal < ap.signal
    ensures Listing(seen + [ap], found[k := ap], firsts, bests[k := |seen|])
  {
    forall l | 0 <= l < |found| && found[l].ssid == ap.ssid ensures l == k {
      ListedOnce(seen, found, firsts, bests, k, l);
    }
    BestsReplaced(seen, ap, found, firsts, bests, k);
    FirstsGrow(seen, ap, firsts);
    assert (seen + [ap])[firsts[k]] == seen[firsts[k]];
    hide Bests, Firsts;
  }

  lemma BestsReplaced(seen: seq<AccessPoint>, ap: AccessPoint, found: seq<AccessPoint>, firsts: seq<nat>,
                      bests: seq<nat>, k: nat)
    requires Bests(seen, found, firsts, bests)
    requires k < |found| && found[k].ssid == ap.ssid && found[k].signal < ap.signal
    requires forall l :: 0 <= l < |found| && found[l].ssid == ap.ssid ==> l == k
    ensures Bests(seen + [ap], found[k := ap], firsts, bests[k := |seen|])
  {
    assert EarliestStrongest(seen, bests[k]);
    assert EarliestStrongest(seen + [ap], |seen|);
    forall l | 0 <= l < |found| && l != k ensures EarliestStrongest(seen + [ap], bests[l]) {
      StrongestOfMore(seen, ap, bests[l]);
    }
    hide EarliestStrongest;
  }

  // The first access point of a network opens its entry.
  lemma Open(seen: seq<AccessPoint>, ap: AccessPoint, found: seq<AccessPoint>, firsts: seq<nat>, bests: seq<nat>)
    requires Listing(seen, found, firsts, bests) && ap.ssid != ""
    requires forall k :: 0 <= k < |found| ==> found[k].ssid != ap.ssid
    ensures Listing(seen + [ap], found + [ap], firsts + [|seen|], bests + [|seen|])
  {
    forall j | 0 <= j < |seen| && seen[j].ssid != ""
      ensures exists k :: 0 <= k < |found| && found[k].ssid == seen[j].ssid {
      var k := AllListed(seen, found, firsts, bests, j);
    }
    assert FirstOfNetwork(seen + [ap], |seen|);
    FirstsGrow(seen, ap, firsts);
    hide FirstOfNetwork;
    hide Firsts;
    BestsGrow(seen, ap, found, firsts, bests);
  }

  lemma BestsGrow(seen: seq<AccessPoint>, ap: AccessPoint, found: seq<AccessPoint>, firsts: seq<nat>, bests: seq<nat>)
    requires Bests(seen, found, firsts, bests)
    requires forall j :: 0 <= j < |seen| ==> seen[j].ssid != ap.ssid
    ensures Bests(seen + [ap], found + [ap], firsts + [|seen|], bests + [|seen|])
  {
    assert EarliestStrongest(seen + [ap], |seen|);
    forall k | 0 <= k < |found| ensures EarliestStrongest(seen + [ap], bests[k]) {
      StrongestOfMore(seen, ap, bests[k]);
    }
    hide EarliestStrongest;
  }

  // ---------------------------------------------------------------- the Wi-Fi service

  datatype Network = Network(ssid: string, signal: int, secured: bool)

  datatype Pin = Pin(ssid: string, bssid: Bssid)

  function Find<T>(items: seq<T>, wanted: T -> bool): (r: Option<nat>)
    ensures r.Some? ==> r.value < |items| && wanted(items[r.value]) && forall j :: 0 <= j < r.value ==>
              !wanted(items[j])
    ensures r.None? ==> forall j :: 0 <= j < |items| ==> !wanted(items[j])
  {
    if items == [] then
      None
    else if wanted(items[0]) then
      Some(0)
    else
      match Find(items[1..], wanted)
      case None => None
      case Some(k) => Some(k + 1)
  }

  function PinsFor(found: seq<AccessPoint>): (pins: seq<Pin>)
    ensures |pins| == |found| && forall k :: 0 <= k < |found| ==> pins[k] == Pin(found[k].ssid, found[k].bssid)
  {
    seq(|found|, k requires 0 <= k < |found| => Pin(found[k].ssid, found[k].bssid))
  }

  // The pins are those of a listing of the access points.
  ghost predicate PinsOf(aps: seq<AccessPoint>, pins: seq<Pin>) {
    exists found: seq<AccessPoint>, firsts: seq<nat>, bests: seq<nat> ::
      Listing(aps, found, firsts, bests) && pins == PinsFor(found)
  }

  function PinnedBssid(pins: seq<Pin>, ssid: string): (r: Option<Bssid>) {
    match Find(pins, (pin: Pin) => pin.ssid == ssid)
    case None => None
    case Some(k) => Some(pins[k].bssid)
  }

  // Access point `i` is the earliest strongest of the network `ssid`, and `bssid` is its address.
  ghost predicate PinnedTo(aps: seq<AccessPoint>, i: nat, ssid: string, bssid: Bssid) {
    EarliestStrongest(aps, i) && aps[i].ssid == ssid && aps[i].bssid == bssid
  }

  lemma PinnedEntry(aps: seq<AccessPoint>, found: seq<AccessPoint>, firsts: seq<nat>, bests: seq<nat>, k: nat)
    requires Listing(aps, found, firsts, bests) && k < |found|
    ensures found[k].ssid != "" && exists i: nat :: i < |aps| && aps[i].ssid == found[k].ssid
    ensures exists i: nat :: PinnedTo(aps, i, found[k].ssid, found[k].bssid)
  {
    assert FirstOfNetwork(aps, firsts[k]) && EarliestStrongest(aps, bests[k]);
    assert PinnedTo(aps, bests[k], found[k].ssid, found[k].bssid);
  }

  // The access point pinned for a network is the earliest strongest of it in the scan; a name the
  // scan did not find pins nothing.
  lemma PinIsEarliestStrongest(aps: seq<AccessPoint>, pins: seq<Pin>, ssid: string)
    requires PinsOf(aps, pins)
    ensures PinnedBssid(pins, ssid).None? <==> ssid == "" || forall i :: 0 <= i < |aps| ==> aps[i].ssid != ssid
    ensures PinnedBssid(pins, ssid).Some? ==> exists i: nat :: PinnedTo(aps, i, ssid, PinnedBssid(pins, ssid).value)
  {
    var found: seq<AccessPoint>, firsts: seq<nat>, bests: seq<nat> :|
      Listing(aps, found, firsts, bests) && pins == PinsFor(found);
    forall i | 0 <= i < |aps| && aps[i].ssid != "" ensures exists k :: 0 <= k < |pins| && pins[k].ssid == aps[i].ssid {
      var k := AllListed(aps, found, firsts, bests, i);
      assert pins[k].ssid == aps[i].ssid;
    }
    var k := Find(pins, (pin: Pin) => pin.ssid == ssid);
    if k.Some? {
      PinnedEntry(aps, found, firsts, bests, k.value);
    }
  }

  class WifiManager {
    var strongestBssid: seq<Pin>

    // The access points of the last scan that succeeded.
    ghost var lastScan: seq<AccessPoint>

    ghost predicate Valid()
      reads this
    {
      PinsOf(lastScan, strongestBssid)
    }

    constructor ()
      ensures Valid() && lastScan == [] && strongestBssid == []
    {
      strongestBssid := [];
      lastScan := [];
      new;
      NothingListed();
      assert strongestBssid == PinsFor([]);
    }

    // `scanned` is what the radio answers; nothing when it is missing or the scan fails.
    method Scan(scanned: Option<seq<AccessPoint>>) returns (networks: seq<Network>, ghost found: seq<AccessPoint>,
                                                            ghost firsts: seq<nat>, ghost bests: seq<nat>)
      requires Valid()
      modifies this
      ensures Valid()
      ensures scanned.None? ==> networks == [] && strongestBssid == old(strongestBssid) && lastScan == old(lastScan)
      ensures scanned.Some? ==> lastScan == scanned.value && Listing(scanned.value, found, firsts, bests)
      ensures scanned.Some? ==> |networks| == |strongestBssid| == |found|
      ensures scanned.Some? ==> forall k :: 0 <= k < |found| ==>
                networks[k] == Network(found[k].ssid, found[k].signal, found[k].secured)
      ensures scanned.Some? ==> forall k :: 0 <= k < |found| ==> strongestBssid[k] == Pin(found[k].ssid, found[k].bssid)
    {
      networks, found, firsts, bests := [], [], [], [];
      if scanned.None? {
        return;
      }
      hide Listing, FirstOfNetwork, EarliestStrongest;
      var aps := scanned.value;
      assert Listing([], [], [], []) by {
        NothingListed();
      }
      var strongest: seq<AccessPoint> := [];
      for n := 0 to |aps|
        invariant Listing(aps[..n], strongest, firsts, bests)
      {
        var ap := aps[n];
        assert aps[..n + 1] == aps[..n] + [ap];
        if ap.ssid == "" {
          Skip(aps[..n], ap, strongest, firsts, bests, 0);
        } else {
          match Find(strongest, (known: AccessPoint) => known.ssid == ap.ssid)
          case Some(k) =>
            if strongest[k].signal >= ap.signal {
              Skip(aps[..n], ap, strongest, firsts, bests, k);
            } else {
              Replace(aps[..n], ap, strongest, firsts, bests, k);
              strongest, bests := strongest[k := ap], bests[k := n];
            }
          case None =>
            Open(aps[..n], ap, strongest, firsts, bests);
            strongest, firsts, bests := strongest + [ap], firsts + [n], bests + [n];
        }
      }
      assert aps[..|aps|] == aps;
      found := strongest;
      lastScan := aps;
      strongestBssid := PinsFor(strongest);
      networks := seq(|strongest|,
          k requires 0 <= k < |strongest| => Network(strongest[k].ssid, strongest[k].signal, strongest[k].secured));
    }

    // The access point a connection is pinned to, over any history of scans.
    method BssidFor(ssid: string) returns (bssid: Option<Bssid>)
      requires Valid()
      ensures bssid.None? <==> ssid == "" || forall i :: 0 <= i < |lastScan| ==> lastScan[i].ssid != ssid
      ensures bssid.Some? ==> exists i: nat :: PinnedTo(lastScan, i, ssid, bssid.value)
    {
      bssid := PinnedBssid(strongestBssid, ssid);
      PinIsEarliestStrongest(lastScan, strongestBssid, ssid);
    }
  }
}
