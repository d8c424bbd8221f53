/** The per-id table of reuse groups by NIC (endpointsByNic): NIC 0 stands for
    endpoints not bound to a device; the seed keys the selection hash of all groups
    registered under the id. */
module NicEndpoints {
  import opened Tcpip
  import opened Addressing
  import MP = MultiPort

  datatype EndpointsByNic = EndpointsByNic(endpoints: map<NICID, MP.MultiPortEndpoint>, seed: uint32)

  /** Every group is non-empty, heap-ordered and carries the protocol pair of the
      registry it belongs to. */
  ghost predicate GroupsValid(e: EndpointsByNic, pid: ProtocolIDs) {
    forall nic :: nic in e.endpoints ==>
      MP.Valid(e.endpoints[nic]) &&
      e.endpoints[nic].netProto == pid.network && e.endpoints[nic].transProto == pid.transport
  }

  /** What the registry keeps: valid groups, and at least one of them. */
  ghost predicate Valid(e: EndpointsByNic, pid: ProtocolIDs) {
    GroupsValid(e, pid) && |e.endpoints| > 0
  }

  /** The guarantee delivery relies on: no group is empty. */
  predicate GroupsNonEmpty(e: EndpointsByNic) {
    forall nic :: nic in e.endpoints ==> |e.endpoints[nic].endpoints| > 0
  }

  lemma ValidGroupsNonEmpty(e: EndpointsByNic, pid: ProtocolIDs)
    requires GroupsValid(e, pid)
    ensures GroupsNonEmpty(e)
  {
  }

  /** An id entry as it is first created: no groups, and the given seed. */
  function Fresh(seed: uint32): (e: EndpointsByNic)
    ensures |e.endpoints| == 0 && e.seed == seed
  {
    EndpointsByNic(map[], seed)
  }

  /** How many times ep is a member of the group bound to nic. */
  function Count(e: EndpointsByNic, nic: NICID, ep: Endpoint): nat {
    if nic in e.endpoints then multiset(e.endpoints[nic].endpoints)[ep] else 0
  }

  /** The group that serves a packet that arrived on nic: the group bound to nic, else
      the group bound to no device, else none. */
  function Resolve(e: EndpointsByNic, nic: NICID): (r: Option<MP.MultiPortEndpoint>)
    ensures r.Some? <==> nic in e.endpoints || 0 in e.endpoints
    ensures r.Some? ==> r.value in e.endpoints.Values
    ensures nic in e.endpoints ==> r == Some(e.endpoints[nic])
    ensures nic !in e.endpoints && 0 in e.endpoints ==> r == Some(e.endpoints[0])
  {
    if nic in e.endpoints then Some(e.endpoints[nic])
    else if 0 in e.endpoints then Some(e.endpoints[0])
    else None
  }

  // ---------------------------------------------------------------------------
  // Delivery

  /** handlePacket: a multicast or broadcast packet goes to every member of the
      resolved group, any other packet to the one member selectEndpoint picks, through
      the protocol's queue when it has one. Returns the deliveries and the number of
      clones made (serials next, next + 1, ...). Nothing is delivered when no group
      serves the NIC. */
  function HandlePacket(e: EndpointsByNic, r: Route, id: TransportEndpointID, pkt: PacketBuffer,
                        queuedProtocols: set<ProtocolIDs>, hash: MP.Hasher, next: nat): (res: (seq<Delivery>, nat))
    requires GroupsNonEmpty(e)
    ensures |res.0| == 0 <==> Resolve(e, r.nic).None?
    ensures res.1 == if |res.0| == 0 then 0 else |res.0| - 1
  {
    match Resolve(e, r.nic)
    case None => ([], 0)
    case Some(m) =>
      if IsMulticastOrBroadcast(id.localAddress) then
        var log := MP.HandleAll(m, queuedProtocols, pkt, next);
        (log, |log| - 1)
      else
        var ep := MP.SelectEndpoint(id, m, e.seed, hash);
        ([Delivery(ep, pkt, MP.Queued(m, queuedProtocols))], 0)
  }

  /** Who handlePacket delivers to: members of the resolved group only, all of them in
      order for a multicast or broadcast packet, else exactly the selected one. */
  lemma HandlePacketDelivers(e: EndpointsByNic, r: Route, id: TransportEndpointID, pkt: PacketBuffer,
                             queuedProtocols: set<ProtocolIDs>, hash: MP.Hasher, next: nat)
    requires GroupsNonEmpty(e) && Resolve(e, r.nic).Some?
    ensures var log := HandlePacket(e, r, id, pkt, queuedProtocols, hash, next).0;
      var m := Resolve(e, r.nic).value;
      (forall k :: 0 <= k < |log| ==> log[k].ep in m.endpoints && log[k].queued == MP.Queued(m, queuedProtocols)) &&
      if IsMulticastOrBroadcast(id.localAddress)
      then |log| == |m.endpoints| && forall k :: 0 <= k < |log| ==> log[k].ep == m.endpoints[k]
      else |log| == 1 && log[0].ep == MP.SelectEndpoint(id, m, e.seed, hash)
  {
    var m := Resolve(e, r.nic).value;
    if IsMulticastOrBroadcast(id.localAddress) {
      MP.HandleAllDelivers(m, queuedProtocols, pkt, next);
    }
  }

  /** The buffers handlePacket hands out: pkt to the last delivery, a clone to every
      other (serials next, next + 1, ...). */
  lemma HandlePacketBuffers(e: EndpointsByNic, r: Route, id: TransportEndpointID, pkt: PacketBuffer,
                            queuedProtocols: set<ProtocolIDs>, hash: MP.Hasher, next: nat)
    requires GroupsNonEmpty(e)
    ensures var log := HandlePacket(e, r, id, pkt, queuedProtocols, hash, next).0;
      (|log| > 0 ==> log[|log| - 1].pkt == pkt) &&
      (forall k :: 0 <= k < |log| - 1 ==> log[k].pkt == Clone(next + k))
  {
    if Resolve(e, r.nic).Some? && IsMulticastOrBroadcast(id.localAddress) {
      MP.HandleAllDelivers(Resolve(e, r.nic).value, queuedProtocols, pkt, next);
    }
  }

  /** No two deliveries of handlePacket share a buffer. */
  lemma HandlePacketOwned(e: EndpointsByNic, r: Route, id: TransportEndpointID, pkt: PacketBuffer,
                          queuedProtocols: set<ProtocolIDs>, hash: MP.Hasher, next: nat)
    requires GroupsNonEmpty(e)
    ensures MP.Owned(HandlePacket(e, r, id, pkt, queuedProtocols, hash, next).0, pkt, next)
  {
    if Resolve(e, r.nic).Some? && IsMulticastOrBroadcast(id.localAddress) {
      MP.HandleAllOwned(Resolve(e, r.nic).value, queuedProtocols, pkt, next);
    }
  }

  /** A multicast or broadcast packet reaches every member of the resolved group. */
  lemma HandlePacketReachesGroup(e: EndpointsByNic, r: Route, id: TransportEndpointID, pkt: PacketBuffer,
                                 queuedProtocols: set<ProtocolIDs>, hash: MP.Hasher, next: nat, ep: Endpoint)
    requires GroupsNonEmpty(e) && IsMulticastOrBroadcast(id.localAddress)
    requires Resolve(e, r.nic).Some? && ep in Resolve(e, r.nic).value.endpoints
    ensures Reached(HandlePacket(e, r, id, pkt, queuedProtocols, hash, next).0, ep)
  {
    var m := Resolve(e, r.nic).value;
    var log := HandlePacket(e, r, id, pkt, queuedProtocols, hash, next).0;
    HandlePacketDelivers(e, r, id, pkt, queuedProtocols, hash, next);
    var k :| 0 <= k < |m.endpoints| && m.endpoints[k] == ep;
    assert log[k].ep == ep;
  }

  /** handlePacket reaches members of the resolved group only. */
  lemma HandlePacketReachesOnlyGroup(e: EndpointsByNic, r: Route, id: TransportEndpointID, pkt: PacketBuffer,
                                     queuedProtocols: set<ProtocolIDs>, hash: MP.Hasher, next: nat, ep: Endpoint)
    requires GroupsNonEmpty(e)
    requires Reached(HandlePacket(e, r, id, pkt, queuedProtocols, hash, next).0, ep)
    ensures Resolve(e, r.nic).Some? && ep in Resolve(e, r.nic).value.endpoints
  {
    var log := HandlePacket(e, r, id, pkt, queuedProtocols, hash, next).0;
    var k :| 0 <= k < |log| && log[k].ep == ep;
    HandlePacketDelivers(e, r, id, pkt, queuedProtocols, hash, next);
  }

  /** handleControlPacket: the control message goes to the one member selectEndpoint
      picks in the resolved group, never through a queue and never to all members. */
  function HandleControlPacket(e: EndpointsByNic, nic: NICID, id: TransportEndpointID, typ: ControlType, extra: uint32,
                               hash: MP.Hasher): (res: seq<ControlDelivery>)
    requires GroupsNonEmpty(e)
    ensures |res| <= 1
    ensures |res| == 1 <==> Resolve(e, nic).Some?
    ensures |res| == 1 ==> res[0].ep in Resolve(e, nic).value.endpoints && res[0].typ == typ && res[0].extra == extra
  {
    match Resolve(e, nic)
    case None => []
    case Some(m) => [ControlDelivery(MP.SelectEndpoint(id, m, e.seed, hash), typ, extra)]
  }

  // ---------------------------------------------------------------------------
  // Registration

  /** registerEndpoint: creates the group for nic on first use (its reuse flag set from
      reusePort) and registers t into it. On failure nothing changes. */
  function Register(e: EndpointsByNic, netProto: NetworkProtocolNumber, transProto: TransportProtocolNumber,
                    t: Endpoint, reusePort: bool, nic: NICID): (r: (EndpointsByNic, Option<Error>))
    ensures r.0.seed == e.seed
    ensures r.1.None? <==>
      nic !in e.endpoints || |e.endpoints[nic].endpoints| == 0 || (e.endpoints[nic].reuse && reusePort)
    ensures r.1.Some? ==> r.1 == Some(ErrPortInUse) && r.0 == e
    ensures r.1.None? ==>
      r.0.endpoints.Keys == e.endpoints.Keys + {nic} &&
      r.0.endpoints[nic].reuse == (if nic in e.endpoints then e.endpoints[nic].reuse else reusePort) &&
      (forall n :: n in e.endpoints && n != nic ==> r.0.endpoints[n] == e.endpoints[n])
    ensures r.1.None? ==> forall n, ep :: Count(r.0, n, ep) == Count(e, n, ep) + (if n == nic && ep == t then 1 else 0)
  {
    var m := if nic in e.endpoints then e.endpoints[nic] else MP.Empty(netProto, transProto, reusePort);
    var (m', err) := MP.Register(m, t, reusePort);
    if err.Some? then (e, err)
    else (e.(endpoints := e.endpoints[nic := m']), None)
  }

  /** Registration keeps every group valid, and a successful one leaves at least one group. */
  lemma RegisterKeepsValid(e: EndpointsByNic, pid: ProtocolIDs, t: Endpoint, reusePort: bool, nic: NICID)
    requires GroupsValid(e, pid)
    ensures var r := Register(e, pid.network, pid.transport, t, reusePort, nic);
      GroupsValid(r.0, pid) && (r.1.None? ==> Valid(r.0, pid))
  {
    var m := if nic in e.endpoints then e.endpoints[nic] else MP.Empty(pid.network, pid.transport, reusePort);
    MP.RegisterKeepsOrder(m, t, reusePort);
  }

  method RegisterEndpoint(e: EndpointsByNic, netProto: NetworkProtocolNumber, transProto: TransportProtocolNumber,
                          t: Endpoint, reusePort: bool, nic: NICID) returns (r: EndpointsByNic, err: Option<Error>)
    ensures (r, err) == Register(e, netProto, transProto, t, reusePort, nic)
  {
    var m: MP.MultiPortEndpoint;
    if nic in e.endpoints {
      m := e.endpoints[nic];
    } else {
      m := MP.Empty(netProto, transProto, reusePort);
    }
    var m';
    m', err := MP.SingleRegisterEndpoint(m, t, reusePort);
    r := if err.Some? then e else e.(endpoints := e.endpoints[nic := m']);
  }

  // ---------------------------------------------------------------------------
  // Unregistration

  /** unregisterEndpoint: removes t from the group bound to nic, deletes the group if it
      became empty, and reports whether the table is now empty (false when no group is
      bound to nic). */
  function Unregister(e: EndpointsByNic, nic: NICID, t: Endpoint): (r: (EndpointsByNic, bool))
    ensures r.0.seed == e.seed
    ensures nic !in e.endpoints ==> r == (e, false)
    ensures r.1 <==> nic in e.endpoints && |r.0.endpoints| == 0
    ensures r.0.endpoints.Keys <= e.endpoints.Keys
    ensures forall n :: n in e.endpoints && n != nic ==> n in r.0.endpoints && r.0.endpoints[n] == e.endpoints[n]
    ensures nic in r.0.endpoints ==> |r.0.endpoints[nic].endpoints| > 0
    ensures forall n, ep :: Count(r.0, n, ep) == if n == nic && ep == t && Count(e, n, ep) > 0 then Count(e, n, ep) - 1 else Count(e, n, ep)
  {
    if nic !in e.endpoints then (e, false)
    else
      var (m', empty) := MP.Unregister(e.endpoints[nic], t);
      var groups := if empty then e.endpoints - {nic} else e.endpoints[nic := m'];
      (e.(endpoints := groups), |groups| == 0)
  }

  /** Unregistration keeps every group valid; the table empties only when the caller is
      told to delete it. */
  lemma UnregisterKeepsValid(e: EndpointsByNic, pid: ProtocolIDs, nic: NICID, t: Endpoint)
    requires Valid(e, pid)
    ensures var r := Unregister(e, nic, t); GroupsValid(r.0, pid) && (r.1 || Valid(r.0, pid))
  {
    if nic in e.endpoints {
      MP.UnregisterKeepsOrder(e.endpoints[nic], t);
    }
  }

  method UnregisterEndpoint(e: EndpointsByNic, nic: NICID, t: Endpoint) returns (r: EndpointsByNic, empty: bool)
    ensures (r, empty) == Unregister(e, nic, t)
  {
    if nic !in e.endpoints {
      return e, false;
    }
    var m', groupEmpty := MP.UnregisterEndpoint(e.endpoints[nic], t);
    if groupEmpty {
      r := e.(endpoints := e.endpoints - {nic});
    } else {
      r := e.(endpoints := e.endpoints[nic := m']);
    }
    empty := |r.endpoints| == 0;
  }
}
