/** The transport demultiplexer (transportDemuxer): one registry per (network,
    transport) protocol pair, fixed when the demultiplexer is made; registration and
    unregistration change the registries in place, delivery and lookup only read them.
    Each method is proved equal to the function of the registries' tables that
    specifies it. */
module Demuxer {
  import opened Tcpip
  import MP = MultiPort
  import NE = NicEndpoints
  import opened Registry
  import Registration
  import D = Delivery

  class TransportDemuxer {
    /** The registry of every protocol pair the stack supports. */
    const protocol: map<ProtocolIDs, TransportEndpoints>
    /** The pairs whose transport protocol queues packets instead of handing them over. */
    const queuedProtocols: set<ProtocolIDs>
    /** The keyed hash selectEndpoint draws from. */
    const hash: MP.Hasher

    /** The endpoint tables of all registries. */
    function Tables(): Tables
      reads protocol.Values
    {
      map p | p in protocol :: protocol[p].endpoints
    }

    /** The raw endpoints of all registries. */
    function Raws(): map<ProtocolIDs, seq<RawEndpoint>>
      reads protocol.Values
    {
      map p | p in protocol :: protocol[p].rawEndpoints
    }

    /** No two pairs share a registry. */
    predicate Separate() {
      forall p, q :: p in protocol && q in protocol && p != q ==> protocol[p] != protocol[q]
    }

    /** Registries of their own, and every table valid. */
    ghost predicate Valid()
      reads protocol.Values
    {
      Separate() && TablesValid(Tables())
    }

    /** A change confined to the registry of pid shows in no other pair's entries. */
    twostate lemma OnlyRegistryChanged(pid: ProtocolIDs)
      requires pid in protocol
      requires forall p :: p in protocol && p != pid ==> unchanged(protocol[p])
      ensures Tables() == old(Tables())[pid := protocol[pid].endpoints]
      ensures Raws() == old(Raws())[pid := protocol[pid].rawEndpoints]
    {
    }

    /** Registries left as they were show the same tables. */
    twostate lemma NothingChanged()
      requires forall p :: p in protocol ==> unchanged(protocol[p])
      ensures Tables() == old(Tables()) && Raws() == old(Raws())
    {
    }

    /** The same, when the change leaves the raw endpoints of pid as they were. */
    twostate lemma OnlyEndpointsChanged(pid: ProtocolIDs)
      requires pid in protocol
      requires forall p :: p in protocol && p != pid ==> unchanged(protocol[p])
      requires protocol[pid].rawEndpoints == old(protocol[pid].rawEndpoints)
      ensures Tables() == old(Tables())[pid := protocol[pid].endpoints]
      ensures Raws() == old(Raws())
    {
      OnlyRegistryChanged(pid);
      assert old(Raws())[pid] == protocol[pid].rawEndpoints;
    }

    /** newTransportDemuxer: an empty registry for every pair of a network protocol and a
        transport protocol of the stack; the pair is queued when its transport protocol
        is (the value transportProtocols gives it). */
    constructor (networkProtocols: set<NetworkProtocolNumber>, transportProtocols: map<TransportProtocolNumber, bool>,
                 hash: MP.Hasher)
      ensures forall p :: p in protocol <==> p.network in networkProtocols && p.transport in transportProtocols
      ensures forall p :: p in queuedProtocols <==> p in protocol && transportProtocols[p.transport]
      ensures forall p :: p in protocol ==> fresh(protocol[p])
      ensures forall p :: p in protocol ==> protocol[p].endpoints == map[] && protocol[p].rawEndpoints == []
      ensures this.hash == hash
      ensures Valid()
    {
      var m: map<ProtocolIDs, TransportEndpoints> := map[];
      var q: set<ProtocolIDs> := {};
      var nets := networkProtocols;
      while nets != {}
        invariant nets <= networkProtocols
        invariant forall p :: p in m <==> p.network in networkProtocols - nets && p.transport in transportProtocols
        invariant forall p :: p in q <==> p in m && transportProtocols[p.transport]
        invariant forall p :: p in m ==> fresh(m[p]) && m[p].endpoints == map[] && m[p].rawEndpoints == []
        invariant forall p, p' :: p in m && p' in m && p != p' ==> m[p] != m[p']
        decreases nets
      {
        var n :| n in nets;
        var trans := transportProtocols.Keys;
        while trans != {}
          invariant trans <= transportProtocols.Keys
          invariant forall p :: p in m <==>
            (p.network in networkProtocols - nets && p.transport in transportProtocols) ||
            (p.network == n && p.transport in transportProtocols.Keys - trans)
          invariant forall p :: p in q <==> p in m && transportProtocols[p.transport]
          invariant forall p :: p in m ==> fresh(m[p]) && m[p].endpoints == map[] && m[p].rawEndpoints == []
          invariant forall p, p' :: p in m && p' in m && p != p' ==> m[p] != m[p']
          decreases trans
        {
          var t :| t in trans;
          var pid := ProtocolIDs(n, t);
          var eps := new TransportEndpoints();
          m := m[pid := eps];
          if transportProtocols[t] {
            q := q + {pid};
          }
          trans := trans - {t};
        }
        nets := nets - {n};
      }
      protocol := m;
      queuedProtocols := q;
      this.hash := hash;
    }

    // -------------------------------------------------------------------------
    // Registration

    /** singleRegisterEndpoint: seed is the random draw an id entry gets if this call
        creates it. */
    method SingleRegisterEndpoint(netProto: NetworkProtocolNumber, transProto: TransportProtocolNumber,
                                  id: TransportEndpointID, ep: Endpoint, reusePort: bool, nic: NICID, seed: uint32)
      returns (err: Option<Error>)
      requires Valid()
      modifies protocol.Values
      ensures Valid()
      ensures (Tables(), err) == Registration.SingleRegister(old(Tables()), netProto, transProto, id, ep, reusePort, nic, seed)
      ensures Raws() == old(Raws())
    {
      ghost var s0 := Tables();
      var reuse := reusePort;
      if id.remotePort != 0 {
        reuse := false;
      }
      var pid := ProtocolIDs(netProto, transProto);
      if pid !in protocol {
        return Some(ErrUnknownProtocol);
      }
      var eps := protocol[pid];
      // A new id entry is stored together with its first group: registering into an
      // entry with no groups cannot fail.
      var e := if id in eps.endpoints then eps.endpoints[id] else NE.Fresh(seed);
      var e';
      e', err := NE.RegisterEndpoint(e, netProto, transProto, ep, reuse, nic);
      NothingChanged();
      Registration.SingleRegisterStep(s0, netProto, transProto, id, ep, reusePort, nic, seed, e', err);
      if err.None? {
        Registration.SingleRegisterKeepsValid(s0, netProto, transProto, id, ep, reusePort, nic, seed);
        StoreEntry(pid, id, e');
      }
    }

    /** Binds id to the entry e in the registry of pid. */
    method StoreEntry(pid: ProtocolIDs, id: TransportEndpointID, e: NE.EndpointsByNic)
      requires pid in protocol && Separate()
      modifies protocol[pid]
      ensures Tables() == old(Tables())[pid := old(Tables())[pid][id := e]]
      ensures Raws() == old(Raws())
    {
      protocol[pid].endpoints := protocol[pid].endpoints[id := e];
      OnlyEndpointsChanged(pid);
    }

    /** registerEndpoint: registers with every network protocol in turn; on the first
        failure unregisters from the protocols already done and returns the error.
        seeds[i] is the random draw of step i. */
    method RegisterEndpoint(netProtos: seq<NetworkProtocolNumber>, transProto: TransportProtocolNumber,
                            id: TransportEndpointID, ep: Endpoint, reusePort: bool, nic: NICID, seeds: seq<uint32>)
      returns (err: Option<Error>)
      requires Valid() && |seeds| == |netProtos|
      modifies protocol.Values
      ensures Valid()
      ensures (Tables(), err) == Registration.Register(old(Tables()), netProtos, transProto, id, ep, reusePort, nic, seeds)
      ensures Raws() == old(Raws())
    {
      var i := 0;
      while i < |netProtos|
        invariant i <= |netProtos|
        invariant Valid() && Raws() == old(Raws())
        invariant Registration.RegisterFrom(Tables(), netProtos, i, transProto, id, ep, reusePort, nic, seeds) ==
          Registration.Register(old(Tables()), netProtos, transProto, id, ep, reusePort, nic, seeds)
      {
        err := SingleRegisterEndpoint(netProtos[i], transProto, id, ep, reusePort, nic, seeds[i]);
        if err.Some? {
          UnregisterEndpoint(netProtos[..i], transProto, id, ep, nic);
          return;
        }
        i := i + 1;
      }
      return None;
    }

    /** unregisterEndpoint: unregisters from the registry of every network protocol
        given, skipping pairs without one. */
    method UnregisterEndpoint(netProtos: seq<NetworkProtocolNumber>, transProto: TransportProtocolNumber,
                              id: TransportEndpointID, ep: Endpoint, nic: NICID)
      requires Valid()
      modifies protocol.Values
      ensures Valid()
      ensures Tables() == Registration.UnregisterAll(old(Tables()), netProtos, transProto, id, ep, nic)
      ensures Raws() == old(Raws())
    {
      for i := 0 to |netProtos|
        invariant Valid() && Raws() == old(Raws())
        invariant Registration.UnregisterAll(Tables(), netProtos[i..], transProto, id, ep, nic) ==
          Registration.UnregisterAll(old(Tables()), netProtos, transProto, id, ep, nic)
      {
        UnregisterWith(netProtos[i], transProto, id, ep, nic);
        assert netProtos[i..][1..] == netProtos[i + 1..];
      }
    }

    /** One step of unregisterEndpoint: the registry of one network protocol, if the
        pair has one. */
    method UnregisterWith(netProto: NetworkProtocolNumber, transProto: TransportProtocolNumber,
                          id: TransportEndpointID, ep: Endpoint, nic: NICID)
      requires Valid()
      modifies protocol.Values
      ensures Valid()
      ensures Tables() == Registration.UnregisterOne(old(Tables()), netProto, transProto, id, ep, nic)
      ensures Raws() == old(Raws())
    {
      var pid := ProtocolIDs(netProto, transProto);
      if pid in protocol {
        UnregisterIdKeepsValid(Tables()[pid], pid, id, ep, nic);
        protocol[pid].UnregisterEndpoint(id, ep, nic);
        OnlyEndpointsChanged(pid);
      }
    }

    /** registerRawEndpoint: appends ep to the raw endpoints of the pair; ErrNotSupported
        when the pair has no registry. */
    method RegisterRawEndpoint(netProto: NetworkProtocolNumber, transProto: TransportProtocolNumber, ep: RawEndpoint)
      returns (err: Option<Error>)
      requires Valid()
      modifies protocol.Values
      ensures Valid() && Tables() == old(Tables())
      ensures var pid := ProtocolIDs(netProto, transProto);
        (err.None? <==> pid in protocol) && (err.Some? ==> err == Some(ErrNotSupported)) &&
        Raws() == if pid in protocol then old(Raws())[pid := old(Raws())[pid] + [ep]] else old(Raws())
    {
      var pid := ProtocolIDs(netProto, transProto);
      if pid !in protocol {
        return Some(ErrNotSupported);
      }
      var eps := protocol[pid];
      eps.rawEndpoints := eps.rawEndpoints + [ep];
      OnlyRegistryChanged(pid);
      return None;
    }

    /** unregisterRawEndpoint: removes the first registration of ep from the pair's raw
        endpoints by moving the last one into its place. The pair must have a registry
        (the source panics otherwise). */
    method UnregisterRawEndpoint(netProto: NetworkProtocolNumber, transProto: TransportProtocolNumber, ep: RawEndpoint)
      requires Valid() && ProtocolIDs(netProto, transProto) in protocol
      modifies protocol.Values
      ensures Valid() && Tables() == old(Tables())
      ensures var pid := ProtocolIDs(netProto, transProto);
        Raws() == old(Raws())[pid := SwapRemove(old(Raws())[pid], ep)]
    {
      var pid := ProtocolIDs(netProto, transProto);
      var eps := protocol[pid];
      var raws := eps.rawEndpoints;
      var i := 0;
      while i < |raws|
        invariant i <= |raws|
        invariant forall k :: 0 <= k < i ==> raws[k] != ep
      {
        if raws[i] == ep {
          var lastIdx := |raws| - 1;
          eps.rawEndpoints := raws[i := raws[lastIdx]][..lastIdx];
          assert FirstIndex(raws, ep) == i;
          OnlyRegistryChanged(pid);
          return;
        }
        i := i + 1;
      }
      assert FirstIndex(raws, ep) == |raws|;
    }

    // -------------------------------------------------------------------------
    // Delivery and lookup

    /** deliverPacket: whether the packet needs no further handling, the deliveries made
        and the statistics bumped. */
    method DeliverPacket(r: Route, transProto: TransportProtocolNumber, pkt: PacketBuffer, id: TransportEndpointID)
      returns (handled: bool, log: seq<Delivery>, stats: Counters)
      requires Valid()
      ensures TablesNonEmptyGroups(Tables()) &&
        (handled, log, stats) == D.Deliver(Tables(), queuedProtocols, hash, r, transProto, pkt, id)
    {
      ValidTablesNonEmptyGroups(Tables());
      var pid := ProtocolIDs(r.netProto, transProto);
      if pid !in protocol {
        return false, [], NoCounters;
      }
      var eps := protocol[pid];
      assert eps.endpoints == Tables()[pid];
      if D.UDPGroupDatagram(transProto, id) {
        var dest := FindAll(eps.endpoints, id);
        if |dest| == 0 {
          return false, [], Counters(1, 0);
        }
        assert forall g :: g in dest ==> g in eps.endpoints.Values;
        log := D.DeliverToEach(dest, r, id, pkt, queuedProtocols, hash);
        return true, log, NoCounters;
      }
      if D.InvalidTCP(r, transProto) {
        return true, [], Counters(0, 1);
      }
      var e := FindEndpoint(eps.endpoints, id);
      if e.None? {
        return false, [], if transProto == UDPProtocolNumber then Counters(1, 0) else NoCounters;
      }
      var res := NE.HandlePacket(e.value, r, id, pkt, queuedProtocols, hash, 0);
      return true, res.0, NoCounters;
    }

    /** deliverRawPacket: hands pkt to every raw endpoint of the pair; reports whether
        there was one. */
    method DeliverRawPacket(r: Route, transProto: TransportProtocolNumber, pkt: PacketBuffer)
      returns (found: bool, log: seq<RawDelivery>)
      ensures var pid := ProtocolIDs(r.netProto, transProto);
        found == (pid in Raws() && |Raws()[pid]| > 0) &&
        log == if pid in Raws() then D.DeliverRaw(Raws()[pid], pkt) else []
    {
      var pid := ProtocolIDs(r.netProto, transProto);
      if pid !in protocol {
        return false, [];
      }
      var raws := protocol[pid].rawEndpoints;
      found := false;
      log := [];
      for k := 0 to |raws|
        invariant found == (k > 0)
        invariant |log| == k && forall j :: 0 <= j < k ==> log[j] == RawDelivery(raws[j], pkt)
      {
        log := log + [RawDelivery(raws[k], pkt)];
        found := true;
      }
      assert log == D.DeliverRaw(raws, pkt);
    }

    /** deliverControlPacket: whether an id entry was found, and the message handed on. */
    method DeliverControlPacket(nic: NICID, netProto: NetworkProtocolNumber, transProto: TransportProtocolNumber,
                                typ: ControlType, extra: uint32, id: TransportEndpointID)
      returns (found: bool, log: seq<ControlDelivery>)
      requires Valid()
      ensures TablesNonEmptyGroups(Tables()) &&
        (found, log) == D.DeliverControl(Tables(), hash, nic, netProto, transProto, typ, extra, id)
    {
      ValidTablesNonEmptyGroups(Tables());
      var pid := ProtocolIDs(netProto, transProto);
      if pid !in protocol {
        return false, [];
      }
      var eps := protocol[pid];
      assert eps.endpoints == Tables()[pid];
      var e := FindEndpoint(eps.endpoints, id);
      if e.None? {
        return false, [];
      }
      return true, NE.HandleControlPacket(e.value, nic, id, typ, extra, hash);
    }

    /** findTransportEndpoint: the endpoint a packet with this id arriving on nic would
        be handed to, if any. */
    method FindTransportEndpoint(netProto: NetworkProtocolNumber, transProto: TransportProtocolNumber,
                                 id: TransportEndpointID, nic: NICID) returns (ep: Option<Endpoint>)
      requires Valid()
      ensures TablesNonEmptyGroups(Tables()) &&
        ep == D.FindTransportEndpoint(Tables(), hash, netProto, transProto, id, nic)
    {
      ValidTablesNonEmptyGroups(Tables());
      var pid := ProtocolIDs(netProto, transProto);
      if pid !in protocol {
        return None;
      }
      var eps := protocol[pid];
      assert eps.endpoints == Tables()[pid];
      var e := FindEndpoint(eps.endpoints, id);
      if e.None? {
        return None;
      }
      var m := NE.Resolve(e.value, nic);
      if m.None? {
        return None;
      }
      return Some(MP.SelectEndpoint(id, m.value, e.value.seed, hash));
    }
  }
}
