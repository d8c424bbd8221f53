/** What the demultiplexer does with an inbound packet or control message, as
    functions of the registries' tables: the decision deliverPacket returns, the
    deliveries it makes and the statistics it bumps; likewise for control messages and
    for the endpoint lookup of findTransportEndpoint. */
module Delivery {
  import opened Tcpip
  import opened Addressing
  import MP = MultiPort
  import NE = NicEndpoints
  import opened Registry

  /** Every delivered buffer is either pkt or a clone made during this delivery. */
  predicate BuffersFrom(log: seq<Delivery>, pkt: PacketBuffer, next: nat, clones: nat) {
    forall k :: 0 <= k < |log| ==> log[k].pkt == pkt || (log[k].pkt.Clone? && next <= log[k].pkt.serial < next + clones)
  }

  /** No two deliveries share a buffer. */
  predicate Distinct(log: seq<Delivery>) {
    forall i, j :: 0 <= i < j < |log| ==> log[i].pkt != log[j].pkt
  }

  /** The fan-out of a UDP multicast or broadcast packet over the matching id entries:
      each entry but the last gets a clone, the last gets pkt; an entry hands its buffer
      to its group the way handlePacket does. Returns the deliveries and the number of
      clones made (serials from next on). */
  function DeliverToAll(groups: seq<NE.EndpointsByNic>, r: Route, id: TransportEndpointID, pkt: PacketBuffer,
                        queuedProtocols: set<ProtocolIDs>, hash: MP.Hasher, next: nat): (res: (seq<Delivery>, nat))
    requires |groups| > 0 && forall g :: g in groups ==> NE.GroupsNonEmpty(g)
    ensures res.1 + 1 >= |groups| && |res.0| <= res.1 + 1
    decreases |groups|
  {
    if |groups| == 1 then
      NE.HandlePacket(groups[0], r, id, pkt, queuedProtocols, hash, next)
    else
      var (l1, n1) := NE.HandlePacket(groups[0], r, id, Clone(next), queuedProtocols, hash, next + 1);
      var (l2, n2) := DeliverToAll(groups[1..], r, id, pkt, queuedProtocols, hash, next + 1 + n1);
      (l1 + l2, 1 + n1 + n2)
  }

  /** The fan-out loop of deliverPacket: a clone of the packet for each entry but the
      last, the packet itself for the last. */
  method DeliverToEach(groups: seq<NE.EndpointsByNic>, r: Route, id: TransportEndpointID, pkt: PacketBuffer,
                       queuedProtocols: set<ProtocolIDs>, hash: MP.Hasher) returns (log: seq<Delivery>)
    requires |groups| > 0 && forall g :: g in groups ==> NE.GroupsNonEmpty(g)
    ensures log == DeliverToAll(groups, r, id, pkt, queuedProtocols, hash, 0).0
  {
    ghost var whole := DeliverToAll(groups, r, id, pkt, queuedProtocols, hash, 0).0;
    assert groups[0..] == groups;
    log := [];
    var serial: nat := 0;
    for k := 0 to |groups| - 1
      invariant log + DeliverToAll(groups[k..], r, id, pkt, queuedProtocols, hash, serial).0 == whole
    {
      DeliverToAllStep(groups, k, r, id, pkt, queuedProtocols, hash, serial);
      var res := NE.HandlePacket(groups[k], r, id, Clone(serial), queuedProtocols, hash, serial + 1);
      ghost var rest := DeliverToAll(groups[k + 1..], r, id, pkt, queuedProtocols, hash, serial + 1 + res.1).0;
      ExtendPrefix(log, res.0, rest, DeliverToAll(groups[k..], r, id, pkt, queuedProtocols, hash, serial).0, whole);
      log := log + res.0;
      serial := serial + 1 + res.1;
    }
    DeliverToAllLast(groups, r, id, pkt, queuedProtocols, hash, serial);
    var res := NE.HandlePacket(groups[|groups| - 1], r, id, pkt, queuedProtocols, hash, serial);
    log := log + res.0;
  }

  /** The loop's bookkeeping: the part done grows by the head of the part to do. */
  lemma ExtendPrefix(done: seq<Delivery>, head: seq<Delivery>, rest: seq<Delivery>, todo: seq<Delivery>, whole: seq<Delivery>)
    requires done + todo == whole && todo == head + rest
    ensures (done + head) + rest == whole
  {
  }

  lemma DeliverToAllStep(groups: seq<NE.EndpointsByNic>, k: nat, r: Route, id: TransportEndpointID, pkt: PacketBuffer,
                         queuedProtocols: set<ProtocolIDs>, hash: MP.Hasher, serial: nat)
    requires k + 1 < |groups| && forall g :: g in groups ==> NE.GroupsNonEmpty(g)
    ensures var h := NE.HandlePacket(groups[k], r, id, Clone(serial), queuedProtocols, hash, serial + 1);
      DeliverToAll(groups[k..], r, id, pkt, queuedProtocols, hash, serial).0 ==
        h.0 + DeliverToAll(groups[k + 1..], r, id, pkt, queuedProtocols, hash, serial + 1 + h.1).0
  {
    assert groups[k..][1..] == groups[k + 1..];
  }

  lemma DeliverToAllLast(groups: seq<NE.EndpointsByNic>, r: Route, id: TransportEndpointID, pkt: PacketBuffer,
                         queuedProtocols: set<ProtocolIDs>, hash: MP.Hasher, serial: nat)
    requires |groups| > 0 && forall g :: g in groups ==> NE.GroupsNonEmpty(g)
    ensures DeliverToAll(groups[|groups| - 1..], r, id, pkt, queuedProtocols, hash, serial).0 ==
      NE.HandlePacket(groups[|groups| - 1], r, id, pkt, queuedProtocols, hash, serial).0
  {
    assert groups[|groups| - 1..] == [groups[|groups| - 1]];
  }

  /** The buffers of one entry's deliveries are pkt and the clones it made. */
  lemma EntryBuffers(g: NE.EndpointsByNic, r: Route, id: TransportEndpointID, pkt: PacketBuffer,
                     queuedProtocols: set<ProtocolIDs>, hash: MP.Hasher, next: nat)
    requires NE.GroupsNonEmpty(g)
    ensures var h := NE.HandlePacket(g, r, id, pkt, queuedProtocols, hash, next);
      BuffersFrom(h.0, pkt, next, h.1)
  {
    NE.HandlePacketBuffers(g, r, id, pkt, queuedProtocols, hash, next);
  }

  /** Every buffer of the fan-out is pkt or one of the clones it made. */
  lemma {:induction false} DeliverToAllBuffers(groups: seq<NE.EndpointsByNic>, r: Route, id: TransportEndpointID,
                                               pkt: PacketBuffer, queuedProtocols: set<ProtocolIDs>, hash: MP.Hasher, next: nat)
    requires |groups| > 0 && forall g :: g in groups ==> NE.GroupsNonEmpty(g)
    ensures var res := DeliverToAll(groups, r, id, pkt, queuedProtocols, hash, next);
      BuffersFrom(res.0, pkt, next, res.1)
    decreases |groups|
  {
    if |groups| == 1 {
      EntryBuffers(groups[0], r, id, pkt, queuedProtocols, hash, next);
    } else {
      var n1 := NE.HandlePacket(groups[0], r, id, Clone(next), queuedProtocols, hash, next + 1).1;
      DeliverToAllBuffers(groups[1..], r, id, pkt, queuedProtocols, hash, next + 1 + n1);
      BuffersStep(groups, r, id, pkt, queuedProtocols, hash, next);
    }
  }

  /** The inductive step of DeliverToAllBuffers. */
  lemma BuffersStep(groups: seq<NE.EndpointsByNic>, r: Route, id: TransportEndpointID,
                    pkt: PacketBuffer, queuedProtocols: set<ProtocolIDs>, hash: MP.Hasher, next: nat)
    requires |groups| > 1 && forall g :: g in groups ==> NE.GroupsNonEmpty(g)
    requires var n1 := NE.HandlePacket(groups[0], r, id, Clone(next), queuedProtocols, hash, next + 1).1;
      var rest := DeliverToAll(groups[1..], r, id, pkt, queuedProtocols, hash, next + 1 + n1);
      BuffersFrom(rest.0, pkt, next + 1 + n1, rest.1)
    ensures var res := DeliverToAll(groups, r, id, pkt, queuedProtocols, hash, next);
      BuffersFrom(res.0, pkt, next, res.1)
  {
    assert forall g :: g in groups[1..] ==> NE.GroupsNonEmpty(g);
    EntryThenEntriesBuffers(groups[0], groups[1..], r, id, pkt, queuedProtocols, hash, next);
    DeliverToAllUnfold(groups, r, id, pkt, queuedProtocols, hash, next);
  }

  /** BuffersConcat for one entry followed by the entries after it. */
  lemma EntryThenEntriesBuffers(first: NE.EndpointsByNic, rest: seq<NE.EndpointsByNic>, r: Route, id: TransportEndpointID,
                                pkt: PacketBuffer, queuedProtocols: set<ProtocolIDs>, hash: MP.Hasher, next: nat)
    requires NE.GroupsNonEmpty(first) && |rest| > 0 && forall g :: g in rest ==> NE.GroupsNonEmpty(g)
    requires var n1 := NE.HandlePacket(first, r, id, Clone(next), queuedProtocols, hash, next + 1).1;
      var h2 := DeliverToAll(rest, r, id, pkt, queuedProtocols, hash, next + 1 + n1);
      BuffersFrom(h2.0, pkt, next + 1 + n1, h2.1)
    ensures var h1 := NE.HandlePacket(first, r, id, Clone(next), queuedProtocols, hash, next + 1);
      var h2 := DeliverToAll(rest, r, id, pkt, queuedProtocols, hash, next + 1 + h1.1);
      BuffersFrom(h1.0 + h2.0, pkt, next, 1 + h1.1 + h2.1)
  {
    var h1 := NE.HandlePacket(first, r, id, Clone(next), queuedProtocols, hash, next + 1);
    var h2 := DeliverToAll(rest, r, id, pkt, queuedProtocols, hash, next + 1 + h1.1);
    EntryBuffers(first, r, id, Clone(next), queuedProtocols, hash, next + 1);
    BuffersConcat(h1.0, h2.0, pkt, next, h1.1, h2.1);
  }

  lemma BuffersConcat(l1: seq<Delivery>, l2: seq<Delivery>, pkt: PacketBuffer, next: nat, n1: nat, n2: nat)
    requires BuffersFrom(l1, Clone(next), next + 1, n1) && BuffersFrom(l2, pkt, next + 1 + n1, n2)
    ensures BuffersFrom(l1 + l2, pkt, next, 1 + n1 + n2)
  {
    var l := l1 + l2;
    forall k | 0 <= k < |l| ensures l[k].pkt == pkt || (l[k].pkt.Clone? && next <= l[k].pkt.serial < next + 1 + n1 + n2) {
      if k < |l1| {
        assert l[k] == l1[k];
      } else {
        assert l[k] == l2[k - |l1|];
      }
    }
  }

  /** Each delivery of the fan-out carries its own buffer. */
  lemma {:induction false} DeliverToAllDistinct(groups: seq<NE.EndpointsByNic>, r: Route, id: TransportEndpointID,
                                                pkt: PacketBuffer, queuedProtocols: set<ProtocolIDs>, hash: MP.Hasher, next: nat)
    requires |groups| > 0 && forall g :: g in groups ==> NE.GroupsNonEmpty(g)
    requires pkt.Original? || pkt.serial < next
    ensures Distinct(DeliverToAll(groups, r, id, pkt, queuedProtocols, hash, next).0)
    decreases |groups|
  {
    if |groups| == 1 {
      NE.HandlePacketOwned(groups[0], r, id, pkt, queuedProtocols, hash, next);
    } else {
      var n1 := NE.HandlePacket(groups[0], r, id, Clone(next), queuedProtocols, hash, next + 1).1;
      DeliverToAllDistinct(groups[1..], r, id, pkt, queuedProtocols, hash, next + 1 + n1);
      DistinctStep(groups, r, id, pkt, queuedProtocols, hash, next);
    }
  }

  /** The inductive step of DeliverToAllDistinct: the first entry's deliveries and the
      rest's, each without a shared buffer, share none with each other either. */
  lemma DistinctStep(groups: seq<NE.EndpointsByNic>, r: Route, id: TransportEndpointID,
                     pkt: PacketBuffer, queuedProtocols: set<ProtocolIDs>, hash: MP.Hasher, next: nat)
    requires |groups| > 1 && forall g :: g in groups ==> NE.GroupsNonEmpty(g)
    requires pkt.Original? || pkt.serial < next
    requires var n1 := NE.HandlePacket(groups[0], r, id, Clone(next), queuedProtocols, hash, next + 1).1;
      Distinct(DeliverToAll(groups[1..], r, id, pkt, queuedProtocols, hash, next + 1 + n1).0)
    ensures Distinct(DeliverToAll(groups, r, id, pkt, queuedProtocols, hash, next).0)
  {
    assert forall g :: g in groups[1..] ==> NE.GroupsNonEmpty(g);
    var n1 := NE.HandlePacket(groups[0], r, id, Clone(next), queuedProtocols, hash, next + 1).1;
    EntryThenEntries(groups[0], groups[1..], r, id, pkt, queuedProtocols, hash, next);
    DeliverToAllUnfold(groups, r, id, pkt, queuedProtocols, hash, next);
  }

  /** EntryThenRest for the deliveries of the entries after the first. */
  lemma EntryThenEntries(first: NE.EndpointsByNic, rest: seq<NE.EndpointsByNic>, r: Route, id: TransportEndpointID,
                         pkt: PacketBuffer, queuedProtocols: set<ProtocolIDs>, hash: MP.Hasher, next: nat)
    requires NE.GroupsNonEmpty(first) && |rest| > 0 && forall g :: g in rest ==> NE.GroupsNonEmpty(g)
    requires pkt.Original? || pkt.serial < next
    requires var n1 := NE.HandlePacket(first, r, id, Clone(next), queuedProtocols, hash, next + 1).1;
      Distinct(DeliverToAll(rest, r, id, pkt, queuedProtocols, hash, next + 1 + n1).0)
    ensures var h1 := NE.HandlePacket(first, r, id, Clone(next), queuedProtocols, hash, next + 1);
      Distinct(h1.0 + DeliverToAll(rest, r, id, pkt, queuedProtocols, hash, next + 1 + h1.1).0)
  {
    var h1 := NE.HandlePacket(first, r, id, Clone(next), queuedProtocols, hash, next + 1);
    var h2 := DeliverToAll(rest, r, id, pkt, queuedProtocols, hash, next + 1 + h1.1);
    DeliverToAllBuffers(rest, r, id, pkt, queuedProtocols, hash, next + 1 + h1.1);
    EntryThenRest(first, h2.0, h2.1, r, id, pkt, queuedProtocols, hash, next);
  }

  lemma DeliverToAllUnfold(groups: seq<NE.EndpointsByNic>, r: Route, id: TransportEndpointID, pkt: PacketBuffer,
                           queuedProtocols: set<ProtocolIDs>, hash: MP.Hasher, next: nat)
    requires |groups| > 1 && forall g :: g in groups ==> NE.GroupsNonEmpty(g)
    ensures var h1 := NE.HandlePacket(groups[0], r, id, Clone(next), queuedProtocols, hash, next + 1);
      var h2 := DeliverToAll(groups[1..], r, id, pkt, queuedProtocols, hash, next + 1 + h1.1);
      DeliverToAll(groups, r, id, pkt, queuedProtocols, hash, next) == (h1.0 + h2.0, 1 + h1.1 + h2.1)
  {
  }

  /** An entry's deliveries followed by those of the entries after it share no buffer. */
  lemma EntryThenRest(first: NE.EndpointsByNic, l2: seq<Delivery>, n2: nat, r: Route, id: TransportEndpointID,
                      pkt: PacketBuffer, queuedProtocols: set<ProtocolIDs>, hash: MP.Hasher, next: nat)
    requires NE.GroupsNonEmpty(first)
    requires pkt.Original? || pkt.serial < next
    requires var h1 := NE.HandlePacket(first, r, id, Clone(next), queuedProtocols, hash, next + 1);
      Distinct(l2) && BuffersFrom(l2, pkt, next + 1 + h1.1, n2)
    ensures Distinct(NE.HandlePacket(first, r, id, Clone(next), queuedProtocols, hash, next + 1).0 + l2)
  {
    var h1 := NE.HandlePacket(first, r, id, Clone(next), queuedProtocols, hash, next + 1);
    NE.HandlePacketOwned(first, r, id, Clone(next), queuedProtocols, hash, next + 1);
    EntryBuffers(first, r, id, Clone(next), queuedProtocols, hash, next + 1);
    DisjointBuffers(h1.0, l2, pkt, next, h1.1, n2);
    DistinctConcat(h1.0, l2);
  }

  /** The clones one entry gets and the buffers of the entries after it never meet. */
  lemma DisjointBuffers(l1: seq<Delivery>, l2: seq<Delivery>, pkt: PacketBuffer, next: nat, n1: nat, n2: nat)
    requires BuffersFrom(l1, Clone(next), next + 1, n1) && BuffersFrom(l2, pkt, next + 1 + n1, n2)
    requires pkt.Original? || pkt.serial < next
    ensures forall i, j :: 0 <= i < |l1| && 0 <= j < |l2| ==> l1[i].pkt != l2[j].pkt
  {
  }

  lemma DistinctConcat(l1: seq<Delivery>, l2: seq<Delivery>)
    requires Distinct(l1) && Distinct(l2)
    requires forall i, j :: 0 <= i < |l1| && 0 <= j < |l2| ==> l1[i].pkt != l2[j].pkt
    ensures Distinct(l1 + l2)
  {
    var l := l1 + l2;
    forall i, j | 0 <= i < j < |l| ensures l[i].pkt != l[j].pkt {
      if j < |l1| {
        assert l[i] == l1[i] && l[j] == l1[j];
      } else if i < |l1| {
        assert l[i] == l1[i] && l[j] == l2[j - |l1|];
      } else {
        assert l[i] == l2[i - |l1|] && l[j] == l2[j - |l1|];
      }
    }
  }

  /** A multicast or broadcast fan-out reaches every member of every matching entry's
      group on the packet's NIC. */
  lemma {:induction false} DeliverToAllReachesEveryMember(groups: seq<NE.EndpointsByNic>, r: Route, id: TransportEndpointID,
                                                          pkt: PacketBuffer, queuedProtocols: set<ProtocolIDs>, hash: MP.Hasher,
                                                          next: nat, g: NE.EndpointsByNic, ep: Endpoint)
    requires |groups| > 0 && forall g :: g in groups ==> NE.GroupsNonEmpty(g)
    requires IsMulticastOrBroadcast(id.localAddress)
    requires g in groups && NE.Resolve(g, r.nic).Some? && ep in NE.Resolve(g, r.nic).value.endpoints
    ensures Reached(DeliverToAll(groups, r, id, pkt, queuedProtocols, hash, next).0, ep)
    decreases |groups|
  {
    var b := if |groups| == 1 then pkt else Clone(next);
    var n := if |groups| == 1 then next else next + 1;
    var h1 := NE.HandlePacket(groups[0], r, id, b, queuedProtocols, hash, n);
    if |groups| == 1 {
      NE.HandlePacketReachesGroup(groups[0], r, id, b, queuedProtocols, hash, n, ep);
    } else {
      var l2 := DeliverToAll(groups[1..], r, id, pkt, queuedProtocols, hash, next + 1 + h1.1).0;
      if g == groups[0] {
        NE.HandlePacketReachesGroup(groups[0], r, id, b, queuedProtocols, hash, n, ep);
      } else {
        assert g in groups[1..];
        DeliverToAllReachesEveryMember(groups[1..], r, id, pkt, queuedProtocols, hash, next + 1 + h1.1, g, ep);
      }
      ReachedConcat(h1.0, l2, ep);
    }
  }

  /** The fan-out hands out every buffer it owns exactly when every matching entry has a
      group for the packet's NIC; otherwise the clones of the entries without one are
      wasted. */
  lemma {:induction false} DeliverToAllClones(groups: seq<NE.EndpointsByNic>, r: Route, id: TransportEndpointID,
                                              pkt: PacketBuffer, queuedProtocols: set<ProtocolIDs>, hash: MP.Hasher, next: nat)
    requires |groups| > 0 && forall g :: g in groups ==> NE.GroupsNonEmpty(g)
    ensures var res := DeliverToAll(groups, r, id, pkt, queuedProtocols, hash, next);
      |res.0| == res.1 + 1 <==> forall g :: g in groups ==> NE.Resolve(g, r.nic).Some?
    decreases |groups|
  {
    if |groups| > 1 {
      var h1 := NE.HandlePacket(groups[0], r, id, Clone(next), queuedProtocols, hash, next + 1);
      DeliverToAllClones(groups[1..], r, id, pkt, queuedProtocols, hash, next + 1 + h1.1);
      assert groups == [groups[0]] + groups[1..];
    } else {
      assert groups == [groups[0]];
    }
  }

  /** ep is a member of the group some entry of groups binds to the packet's NIC (or,
      failing that, to no device). */
  predicate MemberOnNic(groups: seq<NE.EndpointsByNic>, nic: NICID, ep: Endpoint) {
    exists g :: g in groups && NE.Resolve(g, nic).Some? && ep in NE.Resolve(g, nic).value.endpoints
  }

  /** The fan-out reaches nobody outside the matching entries' groups on the packet's NIC. */
  lemma {:induction false} DeliverToAllReachesOnlyMembers(groups: seq<NE.EndpointsByNic>, r: Route, id: TransportEndpointID,
                                                          pkt: PacketBuffer, queuedProtocols: set<ProtocolIDs>, hash: MP.Hasher,
                                                          next: nat, ep: Endpoint)
    requires |groups| > 0 && forall g :: g in groups ==> NE.GroupsNonEmpty(g)
    requires Reached(DeliverToAll(groups, r, id, pkt, queuedProtocols, hash, next).0, ep)
    ensures MemberOnNic(groups, r.nic, ep)
    decreases |groups|
  {
    var b := if |groups| == 1 then pkt else Clone(next);
    var n := if |groups| == 1 then next else next + 1;
    var h1 := NE.HandlePacket(groups[0], r, id, b, queuedProtocols, hash, n);
    if |groups| == 1 {
      NE.HandlePacketReachesOnlyGroup(groups[0], r, id, b, queuedProtocols, hash, n, ep);
      assert groups[0] in groups;
    } else {
      var l2 := DeliverToAll(groups[1..], r, id, pkt, queuedProtocols, hash, next + 1 + h1.1).0;
      ReachedConcat(h1.0, l2, ep);
      if Reached(h1.0, ep) {
        NE.HandlePacketReachesOnlyGroup(groups[0], r, id, b, queuedProtocols, hash, n, ep);
        assert groups[0] in groups;
      } else {
        DeliverToAllReachesOnlyMembers(groups[1..], r, id, pkt, queuedProtocols, hash, next + 1 + h1.1, ep);
        var g :| g in groups[1..] && NE.Resolve(g, r.nic).Some? && ep in NE.Resolve(g, r.nic).value.endpoints;
        assert g in groups;
      }
    }
  }

  /** The recipients of the fan-out: exactly the members of the groups the entries bind
      to the packet's NIC (or, failing that, to no device). */
  lemma DeliverToAllRecipients(groups: seq<NE.EndpointsByNic>, r: Route, id: TransportEndpointID,
                               pkt: PacketBuffer, queuedProtocols: set<ProtocolIDs>, hash: MP.Hasher, next: nat, ep: Endpoint)
    requires |groups| > 0 && forall g :: g in groups ==> NE.GroupsNonEmpty(g)
    requires IsMulticastOrBroadcast(id.localAddress)
    ensures Reached(DeliverToAll(groups, r, id, pkt, queuedProtocols, hash, next).0, ep) <==> MemberOnNic(groups, r.nic, ep)
  {
    if Reached(DeliverToAll(groups, r, id, pkt, queuedProtocols, hash, next).0, ep) {
      DeliverToAllReachesOnlyMembers(groups, r, id, pkt, queuedProtocols, hash, next, ep);
    }
    if MemberOnNic(groups, r.nic, ep) {
      var g :| g in groups && NE.Resolve(g, r.nic).Some? && ep in NE.Resolve(g, r.nic).value.endpoints;
      DeliverToAllReachesEveryMember(groups, r, id, pkt, queuedProtocols, hash, next, g, ep);
    }
  }

  /** A TCP segment whose route has a non-unicast address is dropped. */
  predicate InvalidTCP(r: Route, transProto: TransportProtocolNumber) {
    transProto == TCPProtocolNumber && (!IsUnicast(r.localAddress) || !IsUnicast(r.remoteAddress))
  }

  /** A UDP datagram to a multicast or broadcast address goes to every match. */
  predicate UDPGroupDatagram(transProto: TransportProtocolNumber, id: TransportEndpointID) {
    transProto == UDPProtocolNumber && IsMulticastOrBroadcast(id.localAddress)
  }

  /** deliverPacket: whether the packet needs no further handling, the deliveries
      made, and the statistics bumped. */
  function Deliver(s: Tables, queuedProtocols: set<ProtocolIDs>, hash: MP.Hasher, r: Route,
                   transProto: TransportProtocolNumber, pkt: PacketBuffer, id: TransportEndpointID): (res: (bool, seq<Delivery>, Counters))
    requires TablesNonEmptyGroups(s)
    ensures var pid := ProtocolIDs(r.netProto, transProto);
      pid !in s ==> res == (false, [], NoCounters)
    ensures var pid := ProtocolIDs(r.netProto, transProto);
      pid in s && UDPGroupDatagram(transProto, id) ==>
        res.0 == (|FindAll(s[pid], id)| > 0) && res.2 == (if res.0 then NoCounters else Counters(1, 0)) &&
        forall ep :: Reached(res.1, ep) <==> MemberOnNic(FindAll(s[pid], id), r.nic, ep)
    ensures var pid := ProtocolIDs(r.netProto, transProto);
      pid in s && InvalidTCP(r, transProto) ==> res == (true, [], Counters(0, 1))
    ensures var pid := ProtocolIDs(r.netProto, transProto);
      pid in s && !UDPGroupDatagram(transProto, id) && !InvalidTCP(r, transProto) ==>
        res.0 == FindEndpoint(s[pid], id).Some? &&
        res.2 == (if !res.0 && transProto == UDPProtocolNumber then Counters(1, 0) else NoCounters)
    ensures !res.0 ==> res.1 == []
  {
    var pid := ProtocolIDs(r.netProto, transProto);
    if pid !in s then (false, [], NoCounters)
    else if UDPGroupDatagram(transProto, id) then
      var dest := FindAll(s[pid], id);
      if |dest| == 0 then (false, [], Counters(1, 0))
      else
        assert forall g :: g in dest ==> g in s[pid].Values;
        var (log, clones) := DeliverToAll(dest, r, id, pkt, queuedProtocols, hash, 0);
        assert forall ep :: Reached(log, ep) <==> MemberOnNic(dest, r.nic, ep) by {
          forall ep ensures Reached(log, ep) <==> MemberOnNic(dest, r.nic, ep) {
            DeliverToAllRecipients(dest, r, id, pkt, queuedProtocols, hash, 0, ep);
          }
        }
        (true, log, NoCounters)
    else if InvalidTCP(r, transProto) then (true, [], Counters(0, 1))
    else
      match FindEndpoint(s[pid], id)
      case None => (false, [], if transProto == UDPProtocolNumber then Counters(1, 0) else NoCounters)
      case Some(e) => (true, NE.HandlePacket(e, r, id, pkt, queuedProtocols, hash, 0).0, NoCounters)
  }

  /** Every endpoint that deliverPacket hands the packet to gets a buffer of its own,
      and the caller's buffer goes to at most one of them. */
  lemma DeliverGivesEachItsOwnBuffer(s: Tables, queuedProtocols: set<ProtocolIDs>, hash: MP.Hasher, r: Route,
                                     transProto: TransportProtocolNumber, id: TransportEndpointID)
    requires TablesNonEmptyGroups(s)
    ensures Distinct(Deliver(s, queuedProtocols, hash, r, transProto, Original, id).1)
  {
    var pid := ProtocolIDs(r.netProto, transProto);
    if pid in s && UDPGroupDatagram(transProto, id) {
      var dest := FindAll(s[pid], id);
      if |dest| > 0 {
        assert forall g :: g in dest ==> g in s[pid].Values;
        DeliverToAllDistinct(dest, r, id, Original, queuedProtocols, hash, 0);
      }
    }
  }

  /** deliverControlPacket: whether an id entry was found, and the message handed on. */
  function DeliverControl(s: Tables, hash: MP.Hasher, nic: NICID, netProto: NetworkProtocolNumber,
                          transProto: TransportProtocolNumber, typ: ControlType, extra: uint32,
                          id: TransportEndpointID): (res: (bool, seq<ControlDelivery>))
    requires TablesNonEmptyGroups(s)
    ensures var pid := ProtocolIDs(netProto, transProto);
      res.0 <==> pid in s && FindEndpoint(s[pid], id).Some?
    ensures |res.1| <= 1 && (|res.1| == 1 ==> res.0)
  {
    var pid := ProtocolIDs(netProto, transProto);
    if pid !in s then (false, [])
    else match FindEndpoint(s[pid], id)
      case None => (false, [])
      case Some(e) => (true, NE.HandleControlPacket(e, nic, id, typ, extra, hash))
  }

  /** findTransportEndpoint: the endpoint a packet with this id arriving on nic would
      be handed to. */
  function FindTransportEndpoint(s: Tables, hash: MP.Hasher, netProto: NetworkProtocolNumber,
                                 transProto: TransportProtocolNumber, id: TransportEndpointID, nic: NICID): (r: Option<Endpoint>)
    requires TablesNonEmptyGroups(s)
    ensures var pid := ProtocolIDs(netProto, transProto);
      r.Some? <==> pid in s && FindEndpoint(s[pid], id).Some? && NE.Resolve(FindEndpoint(s[pid], id).value, nic).Some?
    ensures r.Some? ==> var pid := ProtocolIDs(netProto, transProto);
      r.value in NE.Resolve(FindEndpoint(s[pid], id).value, nic).value.endpoints
  {
    var pid := ProtocolIDs(netProto, transProto);
    if pid !in s then None
    else match FindEndpoint(s[pid], id)
      case None => None
      case Some(e) =>
        match NE.Resolve(e, nic)
        case None => None
        case Some(m) => Some(MP.SelectEndpoint(id, m, e.seed, hash))
  }

  /** A unicast packet is handed, unaltered, to exactly the endpoint findTransportEndpoint
      names for it, and to no other. */
  lemma UnicastDeliveryAgreesWithLookup(s: Tables, queuedProtocols: set<ProtocolIDs>, hash: MP.Hasher, r: Route,
                                        transProto: TransportProtocolNumber, pkt: PacketBuffer, id: TransportEndpointID)
    requires TablesNonEmptyGroups(s)
    requires !IsMulticastOrBroadcast(id.localAddress) && !InvalidTCP(r, transProto)
    ensures var log := Deliver(s, queuedProtocols, hash, r, transProto, pkt, id).1;
      var target := FindTransportEndpoint(s, hash, r.netProto, transProto, id, r.nic);
      |log| <= 1 && (|log| == 1 <==> target.Some?) && (|log| == 1 ==> log[0].ep == target.value && log[0].pkt == pkt)
  {
  }

  /** A control message goes to the same endpoint as a unicast packet with the same id
      arriving on the same NIC. */
  lemma ControlDeliveryAgreesWithLookup(s: Tables, hash: MP.Hasher, nic: NICID, netProto: NetworkProtocolNumber,
                                        transProto: TransportProtocolNumber, typ: ControlType, extra: uint32,
                                        id: TransportEndpointID)
    requires TablesNonEmptyGroups(s)
    ensures var log := DeliverControl(s, hash, nic, netProto, transProto, typ, extra, id).1;
      var target := FindTransportEndpoint(s, hash, netProto, transProto, id, nic);
      (|log| == 1 <==> target.Some?) && (|log| == 1 ==> log[0].ep == target.value)
  {
  }

  /** deliverRawPacket: every raw endpoint of the pair gets the same buffer. */
  function DeliverRaw(raws: seq<RawEndpoint>, pkt: PacketBuffer): (log: seq<RawDelivery>)
    ensures |log| == |raws|
    ensures forall k :: 0 <= k < |log| ==> log[k] == RawDelivery(raws[k], pkt)
  {
    if raws == [] then [] else [RawDelivery(raws[0], pkt)] + DeliverRaw(raws[1..], pkt)
  }
}
