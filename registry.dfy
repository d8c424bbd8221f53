/** The registry of one (network, transport) protocol pair (transportEndpoints): the
    per-id tables of reuse groups, the raw endpoints, and the four-tier lookup of the
    table that serves a packet. */
module Registry {
  import opened Tcpip
  import MP = MultiPort
  import NE = NicEndpoints

  type Table = map<TransportEndpointID, NE.EndpointsByNic>

  /** The tables of all registries of a demultiplexer, by protocol pair. */
  type Tables = map<ProtocolIDs, Table>

  /** No id entry is empty, and every group is valid for the registry's pair. */
  ghost predicate TableValid(t: Table, pid: ProtocolIDs) {
    forall id :: id in t ==> NE.Valid(t[id], pid)
  }

  predicate TableNonEmptyGroups(t: Table) {
    forall id :: id in t ==> NE.GroupsNonEmpty(t[id])
  }

  ghost predicate TablesValid(s: Tables) {
    forall p :: p in s ==> TableValid(s[p], p)
  }

  predicate TablesNonEmptyGroups(s: Tables) {
    forall p :: p in s ==> TableNonEmptyGroups(s[p])
  }

  lemma ValidTablesNonEmptyGroups(s: Tables)
    requires TablesValid(s)
    ensures TablesNonEmptyGroups(s)
  {
    forall p | p in s ensures TableNonEmptyGroups(s[p]) {
      ValidTableNonEmptyGroups(s[p], p);
    }
  }

  lemma ValidTableNonEmptyGroups(t: Table, pid: ProtocolIDs)
    requires TableValid(t, pid)
    ensures TableNonEmptyGroups(t)
  {
    forall id | id in t ensures NE.GroupsNonEmpty(t[id]) {
      NE.ValidGroupsNonEmpty(t[id], pid);
    }
  }

  /** How many times ep is a member of the group registered under id on nic. */
  function Count(t: Table, id: TransportEndpointID, nic: NICID, ep: Endpoint): nat {
    if id in t then NE.Count(t[id], nic, ep) else 0
  }

  class TransportEndpoints {
    var endpoints: Table
    var rawEndpoints: seq<RawEndpoint>

    constructor ()
      ensures endpoints == map[] && rawEndpoints == []
    {
      endpoints := map[];
      rawEndpoints := [];
    }

    /** unregisterEndpoint: removes ep from the group of id on nic and deletes the id
        entry once its last group is gone. */
    method UnregisterEndpoint(id: TransportEndpointID, ep: Endpoint, nic: NICID)
      modifies this
      ensures endpoints == UnregisterId(old(endpoints), id, ep, nic)
      ensures rawEndpoints == old(rawEndpoints)
    {
      if id !in endpoints {
        return;
      }
      var e, empty := NE.UnregisterEndpoint(endpoints[id], nic, ep);
      if !empty {
        endpoints := endpoints[id := e];
        return;
      }
      endpoints := endpoints - {id};
    }
  }

  // ---------------------------------------------------------------------------
  // Raw endpoints

  /** The removal unregisterRawEndpoint makes: the first occurrence of x is overwritten
      by the last element and the list shortened by one; nothing happens when x is not
      registered. */
  function SwapRemove(s: seq<RawEndpoint>, x: RawEndpoint): (r: seq<RawEndpoint>)
    ensures x !in s ==> r == s
    ensures x in s ==> |r| == |s| - 1 && multiset(r) == multiset(s) - multiset{x}
  {
    var i := FirstIndex(s, x);
    if i == |s| then s
    else
      SwapRemoveMultiset(s, i);
      s[i := s[|s| - 1]][..|s| - 1]
  }

  lemma SwapRemoveMultiset<T>(s: seq<T>, i: nat)
    requires i < |s|
    ensures multiset(s[i := s[|s| - 1]][..|s| - 1]) == multiset(s) - multiset{s[i]}
  {
    var last := |s| - 1;
    var r := s[i := s[last]][..last];
    if i == last {
      assert s == r + [s[last]];
    } else {
      var a, b := s[..i], s[i + 1..last];
      SwapRemoveShape(s, i);
      MultisetSplit(a, s[last], b);
      MultisetSplit(a, s[i], b + [s[last]]);
    }
  }

  lemma SwapRemoveShape<T>(s: seq<T>, i: nat)
    requires i < |s| - 1
    ensures s[i := s[|s| - 1]][..|s| - 1] == s[..i] + [s[|s| - 1]] + s[i + 1..|s| - 1]
    ensures s == s[..i] + [s[i]] + (s[i + 1..|s| - 1] + [s[|s| - 1]])
  {
  }

  lemma MultisetSplit<T>(a: seq<T>, x: T, b: seq<T>)
    ensures multiset(a + [x] + b) == multiset(a) + multiset{x} + multiset(b)
  {
  }

  /** Registering a raw endpoint that was not registered and then unregistering it
      gives back the list as it was, order included. */
  lemma RawRegistrationUndone(s: seq<RawEndpoint>, x: RawEndpoint)
    requires x !in s
    ensures SwapRemove(s + [x], x) == s
  {
    var t := s + [x];
    assert t[|s|] == x;
    assert forall k :: 0 <= k < |s| ==> t[k] != x;
    assert FirstIndex(t, x) == |s|;
    assert t[|s| := t[|s|]][..|s|] == s;
  }

  // ---------------------------------------------------------------------------
  // Registration and unregistration of one id

  /** The registration step of the demultiplexer once the registry is known: an id
      seen for the first time gets an entry with the given seed; then the NIC-level
      registration. On failure the table is unchanged. */
  function RegisterId(t: Table, pid: ProtocolIDs, id: TransportEndpointID, ep: Endpoint,
                      reusePort: bool, nic: NICID, seed: uint32): (r: (Table, Option<Error>))
    ensures r.1.Some? ==> r.0 == t && r.1 == Some(ErrPortInUse)
    ensures r.1.None? <==>
      id !in t || nic !in t[id].endpoints || |t[id].endpoints[nic].endpoints| == 0 ||
      (t[id].endpoints[nic].reuse && reusePort)
    ensures r.1.None? ==> r.0.Keys == t.Keys + {id}
    ensures r.1.None? ==> r.0[id].seed == if id in t then t[id].seed else seed
    ensures r.1.None? ==> forall i :: i in t && i != id ==> r.0[i] == t[i]
    ensures r.1.None? ==> forall i, n, e :: Count(r.0, i, n, e) == Count(t, i, n, e) + (if i == id && n == nic && e == ep then 1 else 0)
  {
    var e := if id in t then t[id] else NE.Fresh(seed);
    var (e', err) := NE.Register(e, pid.network, pid.transport, ep, reusePort, nic);
    if err.Some? then (t, err) else (t[id := e'], None)
  }

  lemma RegisterIdKeepsValid(t: Table, pid: ProtocolIDs, id: TransportEndpointID, ep: Endpoint,
                             reusePort: bool, nic: NICID, seed: uint32)
    requires TableValid(t, pid)
    ensures TableValid(RegisterId(t, pid, id, ep, reusePort, nic, seed).0, pid)
  {
    var e := if id in t then t[id] else NE.Fresh(seed);
    NE.RegisterKeepsValid(e, pid, ep, reusePort, nic);
  }

  /** transportEndpoints.unregisterEndpoint on the table's value. */
  function UnregisterId(t: Table, id: TransportEndpointID, ep: Endpoint, nic: NICID): (r: Table)
    ensures id !in t ==> r == t
    ensures r.Keys <= t.Keys
    ensures forall i :: i in t && i != id ==> i in r && r[i] == t[i]
    ensures id in r ==> r[id].seed == t[id].seed
    ensures forall i, n, e :: Count(r, i, n, e) == (if i == id && n == nic && e == ep && Count(t, i, n, e) > 0
      then Count(t, i, n, e) - 1 else Count(t, i, n, e))
  {
    if id !in t then t
    else
      var (e, empty) := NE.Unregister(t[id], nic, ep);
      if empty then t - {id} else t[id := e]
  }

  lemma UnregisterIdKeepsValid(t: Table, pid: ProtocolIDs, id: TransportEndpointID, ep: Endpoint, nic: NICID)
    requires TableValid(t, pid)
    ensures TableValid(UnregisterId(t, id, ep, nic), pid)
  {
    if id in t {
      NE.UnregisterKeepsValid(t[id], pid, nic, ep);
    }
  }

  // ---------------------------------------------------------------------------
  // Lookup

  /** How far a serving id is from the packet's id: 2 for a wildcard remote part, plus 1
      for a wildcard local address. Lower is more specific. */
  function Rank(key: TransportEndpointID, id: TransportEndpointID): nat {
    (if key.remotePort == id.remotePort && key.remoteAddress == id.remoteAddress then 0 else 2) +
    (if key.localAddress == id.localAddress then 0 else 1)
  }

  /** The ids iterEndpointsLocked probes, in decreasing order of match quality: the id
      itself, without the local address, without the remote part, and with only the
      local port. Every probe serves the packet's id, the k-th probe is at most k away
      from it, and every serving id is the probe at its own rank. */
  function TierKeys(id: TransportEndpointID): (keys: seq<TransportEndpointID>)
    ensures |keys| == 4 && keys[0] == id
    ensures forall k :: 0 <= k < 4 ==> Serves(keys[k], id) && Rank(keys[k], id) <= k
    ensures forall key :: Serves(key, id) ==> Rank(key, id) < 4 && keys[Rank(key, id)] == key
  {
    var noLocal := id.(localAddress := []);
    var noRemote := id.(remoteAddress := [], remotePort := 0);
    [id, noLocal, noRemote, noRemote.(localAddress := [])]
  }

  /** A registered id serves a packet's id when the ports agree and each address of
      the registered id is either the packet's or the wildcard, the remote address being
      a wildcard only together with the remote port. */
  predicate Serves(key: TransportEndpointID, id: TransportEndpointID) {
    key.localPort == id.localPort &&
    (key.localAddress == id.localAddress || key.localAddress == []) &&
    ((key.remotePort == id.remotePort && key.remoteAddress == id.remoteAddress) ||
     (key.remotePort == 0 && key.remoteAddress == []))
  }

  /** The four tiers are exactly the registered ids that serve the packet's id. */
  lemma TierKeysAreServingIds(key: TransportEndpointID, id: TransportEndpointID)
    ensures key in TierKeys(id) <==> Serves(key, id)
  {
    var keys := TierKeys(id);
    if Serves(key, id) {
      if key.localAddress == id.localAddress {
        if key.remotePort == id.remotePort && key.remoteAddress == id.remoteAddress {
          assert key == keys[0];
        } else {
          assert key == keys[2];
        }
      } else {
        if key.remotePort == id.remotePort && key.remoteAddress == id.remoteAddress {
          assert key == keys[1];
        } else {
          assert key == keys[3];
        }
      }
    }
  }

  /** What one probe yields: the key's entry if the key is registered, else nothing. */
  function Probe(t: Table, k: TransportEndpointID): (r: seq<NE.EndpointsByNic>)
    ensures |r| <= 1 && (|r| == 1 <==> k in t) && (k in t ==> r[0] == t[k])
  {
    if k in t then [t[k]] else []
  }

  /** The table entries of the keys present in t, in the order of the keys. */
  function Hits(t: Table, keys: seq<TransportEndpointID>): (r: seq<NE.EndpointsByNic>)
    ensures |r| <= |keys|
    ensures forall e :: e in r <==> exists i :: 0 <= i < |keys| && keys[i] in t && t[keys[i]] == e
    ensures |r| == 0 <==> forall i :: 0 <= i < |keys| ==> keys[i] !in t
  {
    if keys == [] then []
    else
      var rest := Hits(t, keys[1..]);
      assert forall i :: 1 <= i < |keys| ==> keys[i] == keys[1..][i - 1];
      Probe(t, keys[0]) + rest
  }

  /** findAllEndpointsLocked: every table entry serving id, in tier order. */
  function FindAll(t: Table, id: TransportEndpointID): (r: seq<NE.EndpointsByNic>)
    ensures |r| <= 4
    ensures |r| == 0 <==> forall key :: key in t ==> !Serves(key, id)
  {
    Hits(t, TierKeys(id))
  }

  /** Hits of consecutive key lists are the hits of the first followed by those of the
      second: the order of the keys is kept, and every present key contributes, even
      one that occurs twice. */
  lemma {:induction false} HitsConcat(t: Table, a: seq<TransportEndpointID>, b: seq<TransportEndpointID>)
    ensures Hits(t, a + b) == Hits(t, a) + Hits(t, b)
    decreases |a|
  {
    if a == [] {
      assert a + b == b;
    } else {
      assert (a + b)[0] == a[0] && (a + b)[1..] == a[1..] + b;
      HitsConcat(t, a[1..], b);
    }
  }

  /** findAllEndpointsLocked collects the probes' entries in tier order, one per present
      probe, so an entry whose id two tiers share is collected twice. */
  lemma FindAllInTierOrder(t: Table, id: TransportEndpointID)
    ensures var keys := TierKeys(id);
      FindAll(t, id) == Probe(t, keys[0]) + Probe(t, keys[1]) + Probe(t, keys[2]) + Probe(t, keys[3])
  {
    HitsOfFour(t, TierKeys(id));
  }

  /** Hits of four keys, written out probe by probe. */
  lemma HitsOfFour(t: Table, keys: seq<TransportEndpointID>)
    requires |keys| == 4
    ensures Hits(t, keys) == Probe(t, keys[0]) + Probe(t, keys[1]) + Probe(t, keys[2]) + Probe(t, keys[3])
  {
    var p0, p1, p2, p3 := Probe(t, keys[0]), Probe(t, keys[1]), Probe(t, keys[2]), Probe(t, keys[3]);
    assert keys[1..][1..] == keys[2..] && keys[2..][1..] == keys[3..] && keys[3..][1..] == [];
    assert Hits(t, keys[3..]) == p3;
    assert Hits(t, keys[2..]) == p2 + p3;
    assert Hits(t, keys[1..]) == p1 + (p2 + p3);
    assert Hits(t, keys) == p0 + (p1 + (p2 + p3));
    assert p0 + (p1 + (p2 + p3)) == p0 + p1 + p2 + p3;
  }

  /** An id with the wildcard local address is its own first and second tier, so
      findAllEndpointsLocked collects its entry twice. */
  lemma FindAllRepeatsSharedTier(t: Table, id: TransportEndpointID)
    requires id.localAddress == [] && id in t
    ensures |FindAll(t, id)| >= 2 && FindAll(t, id)[0] == t[id] && FindAll(t, id)[1] == t[id]
  {
    FindAllInTierOrder(t, id);
  }

  /** findEndpointLocked: the entry of the first tier present in the table. */
  function FindEndpoint(t: Table, id: TransportEndpointID): (r: Option<NE.EndpointsByNic>)
    ensures r.Some? ==> r.value in t.Values
    ensures r.None? <==> forall key :: key in t ==> !Serves(key, id)
  {
    var keys := TierKeys(id);
    if keys[0] in t then Some(t[keys[0]])
    else if keys[1] in t then Some(t[keys[1]])
    else if keys[2] in t then Some(t[keys[2]])
    else if keys[3] in t then Some(t[keys[3]])
    else None
  }

  /** An entry is found by findAllEndpointsLocked exactly when some id it is
      registered under serves the packet's id. */
  lemma FindAllIsServingEntries(t: Table, id: TransportEndpointID, e: NE.EndpointsByNic)
    ensures e in FindAll(t, id) <==> exists key :: key in t && Serves(key, id) && t[key] == e
  {
    var keys := TierKeys(id);
    if e in FindAll(t, id) {
      var i :| 0 <= i < |keys| && keys[i] in t && t[keys[i]] == e;
      TierKeysAreServingIds(keys[i], id);
    }
    if exists key :: key in t && Serves(key, id) && t[key] == e {
      var key :| key in t && Serves(key, id) && t[key] == e;
      TierKeysAreServingIds(key, id);
      var i :| 0 <= i < |keys| && keys[i] == key;
    }
  }

  /** findEndpointLocked stops at the first hit of the same iteration
      findAllEndpointsLocked runs to the end. */
  lemma {:induction false} FindEndpointIsFirstHit(t: Table, id: TransportEndpointID)
    ensures FindEndpoint(t, id).None? <==> |FindAll(t, id)| == 0
    ensures FindEndpoint(t, id).Some? ==> FindEndpoint(t, id).value == FindAll(t, id)[0]
  {
    var keys := TierKeys(id);
    var k1, k2, k3 := keys[1..], keys[2..], keys[3..];
    assert k1[1..] == k2 && k2[1..] == k3 && k3[1..] == [];
    assert k1[0] == keys[1] && k2[0] == keys[2] && k3[0] == keys[3];
    if keys[0] !in t {
      assert FindAll(t, id) == Hits(t, k1);
      if keys[1] !in t {
        assert Hits(t, k1) == Hits(t, k2);
        if keys[2] !in t {
          assert Hits(t, k2) == Hits(t, k3);
        }
      }
    }
  }

  /** findEndpointLocked finds an entry exactly when some registered id serves the
      packet's id, and then the entry of a most specific one: no serving id has a lower
      rank. */
  lemma FindEndpointIsMostSpecific(t: Table, id: TransportEndpointID)
    ensures FindEndpoint(t, id).Some? <==> exists key :: key in t && Serves(key, id)
    ensures FindEndpoint(t, id).Some? ==>
      exists k :: k in t && Serves(k, id) && FindEndpoint(t, id) == Some(t[k]) &&
        forall key :: key in t && Serves(key, id) ==> Rank(k, id) <= Rank(key, id)
  {
    var keys := TierKeys(id);
    var j := if keys[0] in t then 0 else if keys[1] in t then 1 else if keys[2] in t then 2
             else if keys[3] in t then 3 else 4;
    forall key | key in t && Serves(key, id) ensures j <= Rank(key, id) {
      assert keys[Rank(key, id)] == key;
    }
    if j < 4 {
      assert FindEndpoint(t, id) == Some(t[keys[j]]);
    }
  }

  /** The entry registered under the packet's own id wins over every wildcard entry. */
  lemma ExactIdTakesPrecedence(t: Table, id: TransportEndpointID)
    requires id in t
    ensures FindEndpoint(t, id) == Some(t[id])
  {
  }
}
