/** Registration and unregistration across the demultiplexer's registries, as
    functions of their tables, and what they promise: the reuse and remote-port rules,
    validity of every table, and the rollback of a multi-protocol registration that
    fails part-way. */
module Registration {
  import opened Tcpip
  import NE = NicEndpoints
  import opened Registry
  import MP = MultiPort

  /** How many times ep is a member of the group registered under id on nic in the
      registry of pid. */
  function TCount(s: Tables, pid: ProtocolIDs, id: TransportEndpointID, nic: NICID, ep: Endpoint): nat {
    if pid in s then Count(s[pid], id, nic, ep) else 0
  }

  /** transportDemuxer.singleRegisterEndpoint: a remote port pins the endpoint (no port
      reuse); the pair must have a registry; the draw seed keys a new id entry. */
  function SingleRegister(s: Tables, netProto: NetworkProtocolNumber, transProto: TransportProtocolNumber,
                          id: TransportEndpointID, ep: Endpoint, reusePort: bool, nic: NICID, seed: uint32): (r: (Tables, Option<Error>))
    ensures var pid := ProtocolIDs(netProto, transProto);
      r.1 == Some(ErrUnknownProtocol) <==> pid !in s
    ensures r.1.Some? && ProtocolIDs(netProto, transProto) in s ==> r.1 == Some(ErrPortInUse)
    ensures r.1.Some? ==> r.0 == s
    ensures r.0.Keys == s.Keys
    ensures forall p :: p in s && p != ProtocolIDs(netProto, transProto) ==> r.0[p] == s[p]
    ensures r.1.None? ==> forall p, i, n, e :: (TCount(r.0, p, i, n, e) ==
      TCount(s, p, i, n, e) + (if p == ProtocolIDs(netProto, transProto) && i == id && n == nic && e == ep then 1 else 0))
  {
    var reuse := if id.remotePort != 0 then false else reusePort;
    var pid := ProtocolIDs(netProto, transProto);
    if pid !in s then (s, Some(ErrUnknownProtocol))
    else
      var (t, err) := RegisterId(s[pid], pid, id, ep, reuse, nic, seed);
      (s[pid := t], err)
  }

  /** An id with a remote port never shares a group: a second registration on the same
      NIC fails with ErrPortInUse, whatever the caller asked for. */
  lemma RemotePortPinsEndpoint(s: Tables, netProto: NetworkProtocolNumber, transProto: TransportProtocolNumber,
                               id: TransportEndpointID, ep: Endpoint, reusePort: bool, nic: NICID, seed: uint32)
    requires id.remotePort != 0
    requires var pid := ProtocolIDs(netProto, transProto);
      pid in s && id in s[pid] && nic in s[pid][id].endpoints && |s[pid][id].endpoints[nic].endpoints| > 0
    ensures SingleRegister(s, netProto, transProto, id, ep, reusePort, nic, seed) == (s, Some(ErrPortInUse))
  {
  }

  /** A registration succeeds exactly when no group is bound to the id on the NIC, or the
      group was created for reuse and this caller asks for reuse without a remote port. */
  lemma SingleRegisterAdmission(s: Tables, netProto: NetworkProtocolNumber, transProto: TransportProtocolNumber,
                                id: TransportEndpointID, ep: Endpoint, reusePort: bool, nic: NICID, seed: uint32)
    requires TablesValid(s)
    requires ProtocolIDs(netProto, transProto) in s
    ensures var pid := ProtocolIDs(netProto, transProto);
      SingleRegister(s, netProto, transProto, id, ep, reusePort, nic, seed).1.None? <==>
        (id !in s[pid] || nic !in s[pid][id].endpoints ||
         (s[pid][id].endpoints[nic].reuse && reusePort && id.remotePort == 0))
  {
    var pid := ProtocolIDs(netProto, transProto);
    if id in s[pid] && nic in s[pid][id].endpoints {
      assert NE.Valid(s[pid][id], pid);
    }
  }

  /** A registration into an existing id entry keeps its seed; a new entry gets the draw. */
  lemma SingleRegisterSeed(s: Tables, netProto: NetworkProtocolNumber, transProto: TransportProtocolNumber,
                           id: TransportEndpointID, ep: Endpoint, reusePort: bool, nic: NICID, seed: uint32)
    requires SingleRegister(s, netProto, transProto, id, ep, reusePort, nic, seed).1.None?
    ensures var pid := ProtocolIDs(netProto, transProto);
      var r := SingleRegister(s, netProto, transProto, id, ep, reusePort, nic, seed).0;
      id in r[pid] && r[pid][id].seed == if id in s[pid] then s[pid][id].seed else seed
  {
  }

  lemma SingleRegisterKeepsValid(s: Tables, netProto: NetworkProtocolNumber, transProto: TransportProtocolNumber,
                                 id: TransportEndpointID, ep: Endpoint, reusePort: bool, nic: NICID, seed: uint32)
    requires TablesValid(s)
    ensures TablesValid(SingleRegister(s, netProto, transProto, id, ep, reusePort, nic, seed).0)
  {
    var pid := ProtocolIDs(netProto, transProto);
    if pid in s {
      var reuse := if id.remotePort != 0 then false else reusePort;
      RegisterIdKeepsValid(s[pid], pid, id, ep, reuse, nic, seed);
    }
  }

  /** singleRegisterEndpoint once the registry and the NIC-level outcome are known: the
      id entry (new or existing) takes the registration, or nothing changes. */
  lemma SingleRegisterStep(s: Tables, netProto: NetworkProtocolNumber, transProto: TransportProtocolNumber,
                           id: TransportEndpointID, ep: Endpoint, reusePort: bool, nic: NICID, seed: uint32,
                           e': NE.EndpointsByNic, err: Option<Error>)
    requires var pid := ProtocolIDs(netProto, transProto);
      pid in s &&
      var e := if id in s[pid] then s[pid][id] else NE.Fresh(seed);
      (e', err) == NE.Register(e, netProto, transProto, ep, if id.remotePort != 0 then false else reusePort, nic)
    ensures var pid := ProtocolIDs(netProto, transProto);
      SingleRegister(s, netProto, transProto, id, ep, reusePort, nic, seed) ==
        (if err.Some? then s else s[pid := s[pid][id := e']], err)
  {
  }

  /** The unregistration from one registry, skipped when the pair has none. */
  function UnregisterOne(s: Tables, netProto: NetworkProtocolNumber, transProto: TransportProtocolNumber,
                         id: TransportEndpointID, ep: Endpoint, nic: NICID): (r: Tables)
    ensures r.Keys == s.Keys
    ensures forall p :: p in s && p != ProtocolIDs(netProto, transProto) ==> r[p] == s[p]
    ensures ProtocolIDs(netProto, transProto) in s ==>
      r[ProtocolIDs(netProto, transProto)] == UnregisterId(s[ProtocolIDs(netProto, transProto)], id, ep, nic)
    ensures forall p, i, n, e :: (TCount(r, p, i, n, e) ==
      if p == ProtocolIDs(netProto, transProto) && i == id && n == nic && e == ep && TCount(s, p, i, n, e) > 0
      then TCount(s, p, i, n, e) - 1 else TCount(s, p, i, n, e))
  {
    var pid := ProtocolIDs(netProto, transProto);
    if pid in s then s[pid := UnregisterId(s[pid], id, ep, nic)] else s
  }

  /** Flow affinity survives a registration elsewhere: the seed belongs to the id entry,
      so a group that the registration does not touch keeps its members and its seed, and
      every flow keeps reaching the member it reached before. */
  lemma FlowAffinityAcrossRegistration(s: Tables, netProto: NetworkProtocolNumber, transProto: TransportProtocolNumber,
                                       id: TransportEndpointID, ep: Endpoint, reusePort: bool, nic: NICID, seed: uint32,
                                       p: ProtocolIDs, key: TransportEndpointID, n: NICID,
                                       flow: TransportEndpointID, hash: MP.Hasher)
    requires p in s && key in s[p] && n in s[p][key].endpoints && |s[p][key].endpoints[n].endpoints| > 0
    requires p != ProtocolIDs(netProto, transProto) || key != id || n != nic
    ensures var r := SingleRegister(s, netProto, transProto, id, ep, reusePort, nic, seed).0;
      p in r && key in r[p] && n in r[p][key].endpoints &&
      r[p][key].endpoints[n] == s[p][key].endpoints[n] && r[p][key].seed == s[p][key].seed &&
      MP.SelectEndpoint(flow, r[p][key].endpoints[n], r[p][key].seed, hash) ==
        MP.SelectEndpoint(flow, s[p][key].endpoints[n], s[p][key].seed, hash)
  {
  }

  /** Flow affinity survives an unregistration elsewhere: removing a member from another
      group, id or registry leaves this group and its id entry's seed as they were, so
      the entry is not dropped and every flow keeps its member. */
  lemma FlowAffinityAcrossUnregistration(s: Tables, netProto: NetworkProtocolNumber, transProto: TransportProtocolNumber,
                                         id: TransportEndpointID, ep: Endpoint, nic: NICID,
                                         p: ProtocolIDs, key: TransportEndpointID, n: NICID,
                                         flow: TransportEndpointID, hash: MP.Hasher)
    requires p in s && key in s[p] && n in s[p][key].endpoints && |s[p][key].endpoints[n].endpoints| > 0
    requires p != ProtocolIDs(netProto, transProto) || key != id || n != nic
    ensures var r := UnregisterOne(s, netProto, transProto, id, ep, nic);
      p in r && key in r[p] && n in r[p][key].endpoints &&
      r[p][key].endpoints[n] == s[p][key].endpoints[n] && r[p][key].seed == s[p][key].seed &&
      MP.SelectEndpoint(flow, r[p][key].endpoints[n], r[p][key].seed, hash) ==
        MP.SelectEndpoint(flow, s[p][key].endpoints[n], s[p][key].seed, hash)
  {
  }

  /** transportDemuxer.unregisterEndpoint: one unregistration per network protocol, in order. */
  function UnregisterAll(s: Tables, netProtos: seq<NetworkProtocolNumber>, transProto: TransportProtocolNumber,
                         id: TransportEndpointID, ep: Endpoint, nic: NICID): (r: Tables)
    ensures r.Keys == s.Keys
    ensures forall p :: p in s && (forall k :: 0 <= k < |netProtos| ==> p != ProtocolIDs(netProtos[k], transProto)) ==>
      r[p] == s[p]
    decreases |netProtos|
  {
    if netProtos == [] then s
    else UnregisterAll(UnregisterOne(s, netProtos[0], transProto, id, ep, nic), netProtos[1..], transProto, id, ep, nic)
  }

  lemma {:induction false} UnregisterAllKeepsValid(s: Tables, netProtos: seq<NetworkProtocolNumber>, transProto: TransportProtocolNumber,
                                                   id: TransportEndpointID, ep: Endpoint, nic: NICID)
    requires TablesValid(s)
    ensures TablesValid(UnregisterAll(s, netProtos, transProto, id, ep, nic))
    decreases |netProtos|
  {
    if netProtos != [] {
      var pid := ProtocolIDs(netProtos[0], transProto);
      if pid in s {
        UnregisterIdKeepsValid(s[pid], pid, id, ep, nic);
      }
      UnregisterAllKeepsValid(UnregisterOne(s, netProtos[0], transProto, id, ep, nic), netProtos[1..], transProto, id, ep, nic);
    }
  }

  /** How many entries of netProtos name the registry pid. */
  function Occurrences(netProtos: seq<NetworkProtocolNumber>, transProto: TransportProtocolNumber, pid: ProtocolIDs): nat {
    if netProtos == [] then 0
    else (if ProtocolIDs(netProtos[0], transProto) == pid then 1 else 0) + Occurrences(netProtos[1..], transProto, pid)
  }

  lemma {:induction false} OccurrencesSnoc(netProtos: seq<NetworkProtocolNumber>, n: NetworkProtocolNumber,
                                           transProto: TransportProtocolNumber, pid: ProtocolIDs)
    ensures Occurrences(netProtos + [n], transProto, pid) ==
      Occurrences(netProtos, transProto, pid) + (if ProtocolIDs(n, transProto) == pid then 1 else 0)
    decreases |netProtos|
  {
    if netProtos != [] {
      assert (netProtos + [n])[1..] == netProtos[1..] + [n];
      OccurrencesSnoc(netProtos[1..], n, transProto, pid);
    }
  }

  /** Unregistering along netProtos takes one membership per listed registry, as long
      as there is one left. */
  lemma {:induction false} UnregisterAllCount(s: Tables, netProtos: seq<NetworkProtocolNumber>, transProto: TransportProtocolNumber,
                                              id: TransportEndpointID, ep: Endpoint, nic: NICID,
                                              p: ProtocolIDs, i: TransportEndpointID, n: NICID, e: Endpoint)
    ensures var c := TCount(s, p, i, n, e);
      var k := Occurrences(netProtos, transProto, p);
      TCount(UnregisterAll(s, netProtos, transProto, id, ep, nic), p, i, n, e) ==
        if i == id && n == nic && e == ep then (if c >= k then c - k else 0) else c
    decreases |netProtos|
  {
    if netProtos != [] {
      UnregisterAllCount(UnregisterOne(s, netProtos[0], transProto, id, ep, nic), netProtos[1..], transProto, id, ep, nic, p, i, n, e);
    }
  }

  /** transportDemuxer.registerEndpoint from the i-th network protocol on: register in
      turn; at the first failure, unregister from the protocols before it and return
      that error. seeds[j] is the random draw a new id entry would get at step j. */
  function RegisterFrom(s: Tables, netProtos: seq<NetworkProtocolNumber>, i: nat, transProto: TransportProtocolNumber,
                        id: TransportEndpointID, ep: Endpoint, reusePort: bool, nic: NICID, seeds: seq<uint32>): (r: (Tables, Option<Error>))
    requires i <= |netProtos| && |seeds| == |netProtos|
    ensures r.0.Keys == s.Keys
    ensures r.1 == None || r.1 == Some(ErrUnknownProtocol) || r.1 == Some(ErrPortInUse)
    decreases |netProtos| - i
  {
    if i == |netProtos| then (s, None)
    else
      var (s1, err) := SingleRegister(s, netProtos[i], transProto, id, ep, reusePort, nic, seeds[i]);
      if err.Some? then (UnregisterAll(s1, netProtos[..i], transProto, id, ep, nic), err)
      else RegisterFrom(s1, netProtos, i + 1, transProto, id, ep, reusePort, nic, seeds)
  }

  function Register(s: Tables, netProtos: seq<NetworkProtocolNumber>, transProto: TransportProtocolNumber,
                    id: TransportEndpointID, ep: Endpoint, reusePort: bool, nic: NICID, seeds: seq<uint32>): (r: (Tables, Option<Error>))
    requires |seeds| == |netProtos|
    ensures r.0.Keys == s.Keys
    ensures r.1 == None || r.1 == Some(ErrUnknownProtocol) || r.1 == Some(ErrPortInUse)
  {
    RegisterFrom(s, netProtos, 0, transProto, id, ep, reusePort, nic, seeds)
  }

  lemma {:induction false} RegisterFromKeepsValid(s: Tables, netProtos: seq<NetworkProtocolNumber>, i: nat, transProto: TransportProtocolNumber,
                                                  id: TransportEndpointID, ep: Endpoint, reusePort: bool, nic: NICID, seeds: seq<uint32>)
    requires i <= |netProtos| && |seeds| == |netProtos| && TablesValid(s)
    ensures TablesValid(RegisterFrom(s, netProtos, i, transProto, id, ep, reusePort, nic, seeds).0)
    decreases |netProtos| - i
  {
    if i < |netProtos| {
      SingleRegisterKeepsValid(s, netProtos[i], transProto, id, ep, reusePort, nic, seeds[i]);
      var (s1, err) := SingleRegister(s, netProtos[i], transProto, id, ep, reusePort, nic, seeds[i]);
      if err.Some? {
        UnregisterAllKeepsValid(s1, netProtos[..i], transProto, id, ep, nic);
      } else {
        RegisterFromKeepsValid(s1, netProtos, i + 1, transProto, id, ep, reusePort, nic, seeds);
      }
    }
  }

  /** The memberships of s are those of s0 plus one per protocol of netProtos[..i]. */
  ghost predicate AddedAlong(s0: Tables, s: Tables, netProtos: seq<NetworkProtocolNumber>, transProto: TransportProtocolNumber,
                             id: TransportEndpointID, ep: Endpoint, nic: NICID) {
    forall p, i, n, e :: TCount(s, p, i, n, e) ==
      TCount(s0, p, i, n, e) + (if i == id && n == nic && e == ep then Occurrences(netProtos, transProto, p) else 0)
  }

  lemma NothingAddedYet(s: Tables, none: seq<NetworkProtocolNumber>, transProto: TransportProtocolNumber,
                        id: TransportEndpointID, ep: Endpoint, nic: NICID)
    requires none == []
    ensures AddedAlong(s, s, none, transProto, id, ep, nic)
  {
    forall p ensures Occurrences(none, transProto, p) == 0 {
    }
  }

  /** A failed step rolls back everything the earlier steps added. */
  lemma RollbackCounts(s0: Tables, s1: Tables, done: seq<NetworkProtocolNumber>, transProto: TransportProtocolNumber,
                       id: TransportEndpointID, ep: Endpoint, nic: NICID)
    requires AddedAlong(s0, s1, done, transProto, id, ep, nic)
    ensures AddedAlong(s0, UnregisterAll(s1, done, transProto, id, ep, nic), [], transProto, id, ep, nic)
  {
    forall p, i, n, e ensures TCount(UnregisterAll(s1, done, transProto, id, ep, nic), p, i, n, e) == TCount(s0, p, i, n, e) {
      UnregisterAllCount(s1, done, transProto, id, ep, nic, p, i, n, e);
    }
  }

  /** A successful step adds one membership for the protocol it registered in. */
  lemma StepCounts(s0: Tables, s: Tables, done: seq<NetworkProtocolNumber>, netProto: NetworkProtocolNumber,
                   transProto: TransportProtocolNumber, id: TransportEndpointID, ep: Endpoint, reusePort: bool,
                   nic: NICID, seed: uint32)
    requires AddedAlong(s0, s, done, transProto, id, ep, nic)
    requires SingleRegister(s, netProto, transProto, id, ep, reusePort, nic, seed).1.None?
    ensures AddedAlong(s0, SingleRegister(s, netProto, transProto, id, ep, reusePort, nic, seed).0, done + [netProto],
                       transProto, id, ep, nic)
  {
    var s1 := SingleRegister(s, netProto, transProto, id, ep, reusePort, nic, seed).0;
    forall p, i', n, e ensures TCount(s1, p, i', n, e) ==
      TCount(s0, p, i', n, e) + (if i' == id && n == nic && e == ep then Occurrences(done + [netProto], transProto, p) else 0)
    {
      StepCountAt(TCount(s0, p, i', n, e), TCount(s, p, i', n, e), TCount(s1, p, i', n, e), done, netProto, transProto, p,
                  i' == id && n == nic && e == ep);
    }
  }

  lemma TakeOneMore<T>(s: seq<T>, i: nat)
    requires i < |s|
    ensures s[..i + 1] == s[..i] + [s[i]]
  {
  }

  lemma StepCountAt(c0: nat, c: nat, c1: nat, done: seq<NetworkProtocolNumber>, n: NetworkProtocolNumber,
                    transProto: TransportProtocolNumber, p: ProtocolIDs, same: bool)
    requires c == c0 + (if same then Occurrences(done, transProto, p) else 0)
    requires c1 == c + (if p == ProtocolIDs(n, transProto) && same then 1 else 0)
    ensures c1 == c0 + (if same then Occurrences(done + [n], transProto, p) else 0)
  {
    OccurrencesSnoc(done, n, transProto, p);
  }

  lemma {:induction false} RegisterFromCounts(s0: Tables, s: Tables, netProtos: seq<NetworkProtocolNumber>, i: nat,
                                              transProto: TransportProtocolNumber, id: TransportEndpointID, ep: Endpoint,
                                              reusePort: bool, nic: NICID, seeds: seq<uint32>)
    requires i <= |netProtos| && |seeds| == |netProtos|
    requires AddedAlong(s0, s, netProtos[..i], transProto, id, ep, nic)
    ensures var r := RegisterFrom(s, netProtos, i, transProto, id, ep, reusePort, nic, seeds);
      (r.1.Some? ==> AddedAlong(s0, r.0, [], transProto, id, ep, nic)) &&
      (r.1.None? ==> AddedAlong(s0, r.0, netProtos, transProto, id, ep, nic))
    decreases |netProtos| - i
  {
    if i == |netProtos| {
      assert netProtos[..i] == netProtos;
    } else {
      var (s1, err) := SingleRegister(s, netProtos[i], transProto, id, ep, reusePort, nic, seeds[i]);
      if err.Some? {
        assert s1 == s;
        RollbackCounts(s0, s1, netProtos[..i], transProto, id, ep, nic);
      } else {
        StepCounts(s0, s, netProtos[..i], netProtos[i], transProto, id, ep, reusePort, nic, seeds[i]);
        TakeOneMore(netProtos, i);
        RegisterFromCounts(s0, s1, netProtos, i + 1, transProto, id, ep, reusePort, nic, seeds);
      }
    }
  }

  /** The outcome of registerEndpoint over several network protocols: on success the
      endpoint has joined the group of every listed protocol (once per listing); on
      failure every membership is as before the call, and with valid tables so is every
      id entry and every NIC binding, in every registry. */
  lemma RegisterIsAllOrNothing(s: Tables, netProtos: seq<NetworkProtocolNumber>, transProto: TransportProtocolNumber,
                               id: TransportEndpointID, ep: Endpoint, reusePort: bool, nic: NICID, seeds: seq<uint32>)
    requires |seeds| == |netProtos| && TablesValid(s)
    ensures var r := Register(s, netProtos, transProto, id, ep, reusePort, nic, seeds);
      TablesValid(r.0) &&
      (r.1.None? ==> AddedAlong(s, r.0, netProtos, transProto, id, ep, nic)) &&
      (r.1.Some? ==> SameShape(s, r.0) && forall p, i, n, e :: TCount(r.0, p, i, n, e) == TCount(s, p, i, n, e))
  {
    assert netProtos[..0] == [];
    NothingAddedYet(s, netProtos[..0], transProto, id, ep, nic);
    RegisterFromCounts(s, s, netProtos, 0, transProto, id, ep, reusePort, nic, seeds);
    RegisterFromKeepsValid(s, netProtos, 0, transProto, id, ep, reusePort, nic, seeds);
    var r := Register(s, netProtos, transProto, id, ep, reusePort, nic, seeds);
    if r.1.Some? {
      MembershipsDetermineShape(s, r.0);
    }
  }

  /** The same registries, the same id entries in each, the same NIC bindings in each. */
  ghost predicate SameShape(s: Tables, s': Tables) {
    s.Keys == s'.Keys &&
    (forall p :: p in s ==> s[p].Keys == s'[p].Keys) &&
    (forall p, i :: p in s && i in s[p] ==> s[p][i].endpoints.Keys == s'[p][i].endpoints.Keys)
  }

  /** A member of the group bound to nic under id in the registry p. */
  lemma SomeMember(s: Tables, p: ProtocolIDs, i: TransportEndpointID, n: NICID) returns (e: Endpoint)
    requires TablesValid(s) && p in s && i in s[p] && n in s[p][i].endpoints
    ensures TCount(s, p, i, n, e) > 0
  {
    assert NE.Valid(s[p][i], p);
    e := s[p][i].endpoints[n].endpoints[0];
    assert e in multiset(s[p][i].endpoints[n].endpoints);
  }

  /** A NIC bound under id in the registry p. */
  lemma SomeNic(s: Tables, p: ProtocolIDs, i: TransportEndpointID) returns (n: NICID)
    requires TablesValid(s) && p in s && i in s[p]
    ensures n in s[p][i].endpoints
  {
    assert NE.Valid(s[p][i], p);
    var nics := s[p][i].endpoints.Keys;
    assert |nics| > 0;
    n :| n in nics;
  }

  /** With valid tables, an entry with the memberships of another has its NIC bindings. */
  lemma BindingsFollowMemberships(s: Tables, s': Tables)
    requires TablesValid(s) && s.Keys == s'.Keys
    requires forall p, i, n, e :: TCount(s, p, i, n, e) == TCount(s', p, i, n, e)
    ensures forall p, i, n :: p in s && i in s[p] && n in s[p][i].endpoints ==> i in s'[p] && n in s'[p][i].endpoints
    ensures forall p, i :: p in s && i in s[p] ==> i in s'[p]
  {
    forall p, i, n | p in s && i in s[p] && n in s[p][i].endpoints ensures i in s'[p] && n in s'[p][i].endpoints {
      var e := SomeMember(s, p, i, n);
      assert TCount(s', p, i, n, e) > 0;
    }
    forall p, i | p in s && i in s[p] ensures i in s'[p] {
      var n := SomeNic(s, p, i);
    }
  }

  /** Valid tables with the same memberships have the same shape: an entry exists
      exactly when it has a member. */
  lemma MembershipsDetermineShape(s: Tables, s': Tables)
    requires TablesValid(s) && TablesValid(s') && s.Keys == s'.Keys
    requires forall p, i, n, e :: TCount(s, p, i, n, e) == TCount(s', p, i, n, e)
    ensures SameShape(s, s')
  {
    BindingsFollowMemberships(s, s');
    BindingsFollowMemberships(s', s);
  }
}
