# Transport demultiplexer of the gVisor network stack, in Dafny

This project models the transport demultiplexer of gVisor's user-space TCP/IP stack
(`pkg/tcpip/stack/transport_demuxer.go`). The demultiplexer decides which transport
endpoint receives an inbound packet. It keeps one registry per (network protocol,
transport protocol) pair. Each registry maps an endpoint id (local port, local
address, remote port, remote address) to a table of reuse groups keyed by NIC. Each
reuse group is a min-heap of endpoints ordered by UniqueID. A registry also keeps a
list of raw endpoints.

The model follows the source's structure:

- `Tcpip`, `Header`, `Addressing` (tcpip.dfy) hold the basic types, the protocol
  numbers and the address classification (`isMulticastOrBroadcast`, `isUnicast`).
  Multicast ranges follow section 4 of RFC 1112 and section 2.7 of RFC 4291.
- `EndpointHeap` (endpoint_heap.dfy) covers `transportEndpointHeap` together with the
  `heap.Push` and `heap.Remove` algorithms of Go's `container/heap`. These are methods
  whose loops swap slice elements. Each is proved equal to a recursive function, and
  the heap order and the multiset of members are proved preserved.
- `MultiPort` (multi_port.dfy) covers `multiPortEndpoint`: registration with the reuse
  rule, removal, `reciprocalScale`, `selectEndpoint` and `handlePacketAll`.
- `NicEndpoints` (nic_endpoints.dfy) covers `endpointsByNic`: NIC resolution with the
  fallback to NIC 0, `handlePacket`, `handleControlPacket`, and registration and
  unregistration per NIC.
- `Registry` (registry.dfy) covers `transportEndpoints`: a class whose
  `unregisterEndpoint` updates its map in place, the raw-endpoint removal, and the
  four-tier id lookup (`iterEndpointsLocked`, `findAllEndpointsLocked`,
  `findEndpointLocked`).
- `Registration` (registration.dfy) holds the demultiplexer's registration and
  unregistration as functions of all registries' tables. This includes the
  remote-port rule and the rollback of a multi-protocol registration that fails
  part-way.
- `Delivery` (delivery.dfy) holds `deliverPacket`, `deliverRawPacket`,
  `deliverControlPacket` and `findTransportEndpoint` as functions of the tables.
  Deliveries are recorded as a log of (endpoint, buffer, queued) entries, and counter
  increments are returned.
- `Demuxer` (demuxer.dfy) is the class `TransportDemuxer`. Its constructor is
  `newTransportDemuxer`. Each method changes the registries in place, or reads them,
  and is proved equal to the function of `Registration` or `Delivery` that specifies
  it. Registration methods also keep every table valid.

Packet buffers are tokens: `Original` is the buffer the caller handed over, and
`Clone(n)` is the n-th clone made during one delivery. This makes the
buffer-ownership rule provable: the last receiver gets the original and every other
receiver gets a clone of its own.

Three behaviours of the code that the model states as they are:

- A UDP multicast or broadcast datagram reaches every member of every matching group.
  Lines 425-429 pass it to `handlePacket` of every matching id entry. For such an id,
  lines 99-105 hand it to `handlePacketAll`, which delivers to all members of the group
  resolved for the NIC, not to one selected member.
- `deliverPacket` returns true as soon as some id entry matches (lines 419-429), even
  when no entry has a group for the packet's NIC or for NIC 0. In that case nothing is
  delivered and no counter is touched, yet lines 425-427 still make a clone for every
  entry but the last.
- The hash seed is drawn once per id entry, when the entry is created (lines
  381-386). It is shared by all of the entry's NIC groups, so a flow keeps its member
  while other ids, NICs or registries are registered or unregistered.

## Model

| member | source | states |
|---|---|---|
| Addressing.IsMulticastOrBroadcast | pkg/tcpip/stack/transport_demuxer.go:633-635 | True only of 4- and 16-byte addresses. An IPv4 address qualifies if and only if it is 255.255.255.255 or its first byte is in 224-239. An IPv6 address qualifies if and only if its first byte is 0xff. |
| Addressing.IsUnicast | pkg/tcpip/stack/transport_demuxer.go:637-639 | Never true of a multicast or broadcast address. An address of any other length than 4 or 16 bytes, the empty wildcard included, is unicast. An IPv4 address is unicast if and only if it is neither 0.0.0.0, nor 255.255.255.255, nor has a first byte in 224-239. An IPv6 address is unicast if and only if it is not :: and its first byte is not 0xff. |
| EndpointHeap.Less | pkg/tcpip/stack/transport_demuxer.go:234-236 | One member precedes another when its UniqueID is strictly smaller. |
| EndpointHeap.Swap | pkg/tcpip/stack/transport_demuxer.go:238-240 | Exactly positions i and j are exchanged; every other position keeps its element. |
| EndpointHeap.Up | pkg/tcpip/stack/transport_demuxer.go:348 | container/heap's up keeps the length and never touches the elements after position j; its effect on the order is UpRestoresOrder. |
| EndpointHeap.HeapPush | pkg/tcpip/stack/transport_demuxer.go:348 | heap.Push gives a slice one longer whose multiset of members is the old one plus x. |
| EndpointHeap.Push | pkg/tcpip/stack/transport_demuxer.go:348 | The append-then-sift-up loop computes HeapPush. |
| EndpointHeap.SiftUp | pkg/tcpip/stack/transport_demuxer.go:348 | The loop of container/heap's up computes Up. |
| EndpointHeap.UpRestoresOrder | pkg/tcpip/stack/transport_demuxer.go:348 | When the order is broken only between h[j] and its parent, up restores the UniqueID heap order. |
| EndpointHeap.PushKeepsOrder | pkg/tcpip/stack/transport_demuxer.go:348 | heap.Push on a heap-ordered slice leaves it heap-ordered. |
| EndpointHeap.Down | pkg/tcpip/stack/transport_demuxer.go:360 | container/heap's down keeps the length, stops at a position between i and n, never touches the elements from n on, and leaves the slice unchanged when it reports no move. |
| EndpointHeap.Sifted | pkg/tcpip/stack/transport_demuxer.go:360 | The swap-and-sift stage of heap.Remove keeps the length and moves h[i] to the last position, where Pop takes it from. |
| EndpointHeap.HeapRemove | pkg/tcpip/stack/transport_demuxer.go:360 | heap.Remove(h, i) gives a slice one shorter whose multiset of members is the old one minus exactly one copy of h[i]. |
| EndpointHeap.Remove | pkg/tcpip/stack/transport_demuxer.go:360 | The swap, down, conditional up and Pop loop computes HeapRemove. |
| EndpointHeap.SiftDown | pkg/tcpip/stack/transport_demuxer.go:360 | The loop of container/heap's down computes Down, and reports whether the element moved. |
| EndpointHeap.DownRestoresOrder | pkg/tcpip/stack/transport_demuxer.go:360 | When the order is broken only between h[i] and its children, down restores the heap order of the prefix. |
| EndpointHeap.RemoveKeepsOrder | pkg/tcpip/stack/transport_demuxer.go:360 | heap.Remove at any index of a heap-ordered slice leaves it heap-ordered. |
| MultiPort.Register | pkg/tcpip/stack/transport_demuxer.go:337-351 | Registration succeeds if and only if the group is empty, or it was made for reuse and the caller asks for reuse. On failure the result is ErrPortInUse and the group is unchanged. On success exactly t is added. |
| MultiPort.SingleRegisterEndpoint | pkg/tcpip/stack/transport_demuxer.go:337-351 | The method computes Register. |
| MultiPort.RegisterKeepsOrder | pkg/tcpip/stack/transport_demuxer.go:337-351 | Registration keeps the members in heap order, and a successful one leaves the group non-empty and valid. |
| MultiPort.Unregister | pkg/tcpip/stack/transport_demuxer.go:354-365 | Exactly one copy of t is removed, nothing changes when t is not a member, and the flag is true if and only if the group is now empty. |
| MultiPort.UnregisterEndpoint | pkg/tcpip/stack/transport_demuxer.go:354-365 | The search-and-remove loop computes Unregister. |
| MultiPort.UnregisterKeepsOrder | pkg/tcpip/stack/transport_demuxer.go:354-365 | Unregistration keeps the members in heap order. |
| MultiPort.ReciprocalScale | pkg/tcpip/stack/transport_demuxer.go:286-288 | The result is below n (0 when n is 0) and is the floor of val*n/2^32. |
| MultiPort.ReciprocalScaleCovers | pkg/tcpip/stack/transport_demuxer.go:286-288 | Every index below n is the image of some hash value, so no member is unreachable. |
| MultiPort.PortBytes | pkg/tcpip/stack/transport_demuxer.go:298-303 | A port is written as two bytes, low byte first, that encode its value. |
| MultiPort.HashInput | pkg/tcpip/stack/transport_demuxer.go:298-308 | The hashed bytes are the local port (low byte first), the remote port (low byte first), the local address and then the remote address. |
| MultiPort.HashInputDeterminesId | pkg/tcpip/stack/transport_demuxer.go:298-308 | Among ids of one address family, equal hash inputs mean equal four-tuples. |
| MultiPort.SelectIndex | pkg/tcpip/stack/transport_demuxer.go:294-311 | The chosen index is a valid index; it is 0 for one member, and otherwise reciprocalScale of the seeded hash of the four-tuple. |
| MultiPort.SelectEndpoint | pkg/tcpip/stack/transport_demuxer.go:293-313 | The chosen endpoint is a member of the group, and it is the only member when there is one. |
| MultiPort.HandleAll | pkg/tcpip/stack/transport_demuxer.go:315-333 | handlePacketAll makes exactly one delivery per member; whom and with which buffer is HandleAllDelivers. |
| MultiPort.HandleAllDelivers | pkg/tcpip/stack/transport_demuxer.go:315-333 | Every member, in array order, gets one delivery, through the queue exactly when the group's protocol pair is queued. The last member gets the caller's buffer, the others fresh clones. |
| MultiPort.HandleAllOwned | pkg/tcpip/stack/transport_demuxer.go:315-333 | No two members receive the same buffer. |
| MultiPort.HandlePacketAll | pkg/tcpip/stack/transport_demuxer.go:315-333 | The delivery loop computes HandleAll. |
| NicEndpoints.Fresh | pkg/tcpip/stack/transport_demuxer.go:383-386 | A new id entry has no NIC groups and carries the drawn seed. |
| NicEndpoints.Resolve | pkg/tcpip/stack/transport_demuxer.go:91-97 | A group is found if and only if one is bound to the NIC or to NIC 0. The NIC's own group wins; NIC 0's group is used only when the NIC has none. |
| NicEndpoints.HandlePacket | pkg/tcpip/stack/transport_demuxer.go:88-116 | Nothing is delivered if and only if no group serves the NIC; the number of clones is one less than the number of deliveries. |
| NicEndpoints.HandlePacketDelivers | pkg/tcpip/stack/transport_demuxer.go:88-116 | Only members of the resolved group are reached: all of them in order for a multicast or broadcast id, otherwise exactly the member selectEndpoint picks. Deliveries go through the queue exactly when the pair is queued. |
| NicEndpoints.HandlePacketBuffers | pkg/tcpip/stack/transport_demuxer.go:88-116 | The last delivery carries the caller's buffer, every other one a clone with a consecutive serial. |
| NicEndpoints.HandlePacketOwned | pkg/tcpip/stack/transport_demuxer.go:88-116 | No two deliveries share a buffer. |
| NicEndpoints.HandlePacketReachesGroup | pkg/tcpip/stack/transport_demuxer.go:99-105 | A multicast or broadcast packet reaches every member of the resolved group. |
| NicEndpoints.HandlePacketReachesOnlyGroup | pkg/tcpip/stack/transport_demuxer.go:88-116 | Whoever handlePacket reaches is a member of the group resolved for the packet's NIC. |
| NicEndpoints.HandleControlPacket | pkg/tcpip/stack/transport_demuxer.go:119-136 | At most one message is handed on, exactly when a group serves the NIC, to a member of that group, with the given type and extra value. |
| NicEndpoints.Register | pkg/tcpip/stack/transport_demuxer.go:140-156 | Success if and only if no non-empty group is bound to the NIC, or it was made for reuse and the caller asks for reuse. On failure the entry is unchanged. On success the NIC is bound, a new group takes the caller's reuse flag, other NICs' groups are unchanged, exactly one membership is added, and the seed is kept. |
| NicEndpoints.RegisterKeepsValid | pkg/tcpip/stack/transport_demuxer.go:140-156 | Registration keeps every group non-empty, heap-ordered and of the registry's protocol pair. |
| NicEndpoints.RegisterEndpoint | pkg/tcpip/stack/transport_demuxer.go:140-156 | The method computes Register. |
| NicEndpoints.Unregister | pkg/tcpip/stack/transport_demuxer.go:159-170 | With no group on the NIC, nothing changes and the result is false. Otherwise exactly one membership of t is removed there, an emptied group is deleted, other NICs are unchanged, and the flag is true if and only if no group is left. |
| NicEndpoints.UnregisterKeepsValid | pkg/tcpip/stack/transport_demuxer.go:159-170 | Unregistration keeps every group valid, and the entry is non-empty unless the caller is told to delete it. |
| NicEndpoints.UnregisterEndpoint | pkg/tcpip/stack/transport_demuxer.go:159-170 | The method computes Unregister. |
| Registry.TransportEndpoints.constructor | pkg/tcpip/stack/transport_demuxer.go:200-202 | A new registry has no id entries and no raw endpoints. |
| Registry.TransportEndpoints.UnregisterEndpoint | pkg/tcpip/stack/transport_demuxer.go:46-57 | The map field becomes UnregisterId of its old value; the raw endpoints are unchanged. |
| Registry.UnregisterId | pkg/tcpip/stack/transport_demuxer.go:46-57 | An unknown id leaves the table unchanged. Otherwise exactly one membership of ep on the NIC is removed, other ids are unchanged, seeds are kept, and an id entry disappears only when its last group does. |
| Registry.UnregisterIdKeepsValid | pkg/tcpip/stack/transport_demuxer.go:46-57 | Unregistration keeps every id entry non-empty and every group valid. |
| Registry.RegisterId | pkg/tcpip/stack/transport_demuxer.go:381-390 | Success if and only if the id, or the NIC under it, is unbound, or the group admits reuse and the caller asks for it. On failure the table is unchanged and the result is ErrPortInUse. On success the id is present, a new entry takes the drawn seed, other ids are unchanged, and exactly one membership is added. |
| Registry.RegisterIdKeepsValid | pkg/tcpip/stack/transport_demuxer.go:381-390 | Registration keeps every id entry non-empty and every group valid. |
| Registry.SwapRemove | pkg/tcpip/stack/transport_demuxer.go:621-629 | An unregistered raw endpoint leaves the list unchanged. Otherwise the list is one shorter and exactly one copy of the endpoint is removed. |
| Registry.RawRegistrationUndone | pkg/tcpip/stack/transport_demuxer.go:599-631 | Registering a raw endpoint that was not registered and then unregistering it restores the list, order included. |
| Registry.TierKeys | pkg/tcpip/stack/transport_demuxer.go:507-542 | Four ids are probed, the first being the packet's own id. Each probe serves the id, and the k-th probe is at most k away from it by Rank (wildcard remote part 2, wildcard local address 1). Every id that serves the packet's id is probed, at the position of its own rank. |
| Registry.TierKeysAreServingIds | pkg/tcpip/stack/transport_demuxer.go:507-542 | A registered id is probed if and only if its ports agree with the packet's and each of its addresses is the packet's or the wildcard, the remote address being a wildcard only together with the remote port. |
| Registry.Hits | pkg/tcpip/stack/transport_demuxer.go:507-551 | The collected entries are exactly the entries of the probed ids present in the table, never more than the probes, and none if and only if no probe is present. |
| Registry.HitsConcat | pkg/tcpip/stack/transport_demuxer.go:507-551 | Collecting along two key lists in turn gives the first list's entries followed by the second's: the order of the probes is kept, and every present probe contributes its entry, once per occurrence. |
| Registry.FindAll | pkg/tcpip/stack/transport_demuxer.go:544-551 | At most four entries are collected, and none if and only if no registered id serves the packet's id. |
| Registry.FindAllInTierOrder | pkg/tcpip/stack/transport_demuxer.go:502-551 | The entries come in descending order of match quality: the exact id's entry, then the one without the local address, then the one without the remote part, then the one with only the local port, each present tier contributing exactly one entry. |
| Registry.FindAllRepeatsSharedTier | pkg/tcpip/stack/transport_demuxer.go:507-521 | When the packet's local address is the wildcard, the first two tiers are the same id, and a registered entry under it is collected twice, first and second. |
| Registry.FindAllIsServingEntries | pkg/tcpip/stack/transport_demuxer.go:544-551 | An id entry is collected if and only if some id it is registered under serves the packet's id. |
| Registry.FindEndpoint | pkg/tcpip/stack/transport_demuxer.go:586-593 | A found entry belongs to the table, and nothing is found if and only if no registered id serves the packet's id. |
| Registry.FindEndpointIsMostSpecific | pkg/tcpip/stack/transport_demuxer.go:507-542 | An entry is found if and only if some registered id serves the packet's id. The entry found is registered under a serving id of least rank: no serving id is more specific. |
| Registry.FindEndpointIsFirstHit | pkg/tcpip/stack/transport_demuxer.go:586-593 | Nothing is found if and only if findAllEndpointsLocked collects nothing; otherwise the entry found is the first it collects. |
| Registry.ExactIdTakesPrecedence | pkg/tcpip/stack/transport_demuxer.go:508-513 | An entry registered under the packet's own id wins over every wildcard entry. |
| Registration.SingleRegister | pkg/tcpip/stack/transport_demuxer.go:367-391 | ErrUnknownProtocol if and only if the pair has no registry; any other error is ErrPortInUse. Any error leaves all tables unchanged. Other registries are never touched. Success adds exactly one membership, in the named registry, id and NIC. |
| Registration.RemotePortPinsEndpoint | pkg/tcpip/stack/transport_demuxer.go:368-371 | With a remote port, a second registration on an occupied id and NIC fails with ErrPortInUse whatever reuse the caller asks for. |
| Registration.SingleRegisterAdmission | pkg/tcpip/stack/transport_demuxer.go:367-391 | On a known pair, registration succeeds if and only if the id or the NIC is unbound, or the group admits reuse, the caller asks for it and the id has no remote port. |
| Registration.SingleRegisterSeed | pkg/tcpip/stack/transport_demuxer.go:381-388 | After success the id entry exists; an existing entry keeps its seed, a new one gets the draw. |
| Registration.SingleRegisterKeepsValid | pkg/tcpip/stack/transport_demuxer.go:367-391 | Registration keeps every table valid. |
| Registration.UnregisterOne | pkg/tcpip/stack/transport_demuxer.go:397-399 | The named registry, when the pair has one, becomes UnregisterId of itself; every other registry is unchanged. Exactly one membership of ep is removed from the named registry, id and NIC, if there is one; no other count changes. |
| Registration.FlowAffinityAcrossRegistration | pkg/tcpip/stack/transport_demuxer.go:367-391 | A registration under another pair, id or NIC leaves a group's members and its entry's seed as they were, so every flow keeps selecting the same member of that group. |
| Registration.FlowAffinityAcrossUnregistration | pkg/tcpip/stack/transport_demuxer.go:395-401 | An unregistration from another pair, id or NIC leaves a group, its entry and the entry's seed in place, so every flow keeps selecting the same member of that group. |
| Registration.UnregisterAll | pkg/tcpip/stack/transport_demuxer.go:395-401 | The set of registries is kept, and a registry whose pair is not listed is untouched. |
| Registration.UnregisterAllCount | pkg/tcpip/stack/transport_demuxer.go:395-401 | Unregistering along a protocol list removes one membership per listing of each registry, as long as there is one left. |
| Registration.UnregisterAllKeepsValid | pkg/tcpip/stack/transport_demuxer.go:395-401 | Unregistration keeps every table valid. |
| Registration.RegisterFrom | pkg/tcpip/stack/transport_demuxer.go:215-224 | The set of registries is kept, and the only errors are ErrUnknownProtocol and ErrPortInUse, the ones singleRegisterEndpoint gives. |
| Registration.Register | pkg/tcpip/stack/transport_demuxer.go:215-224 | The set of registries is kept, and the only errors are ErrUnknownProtocol and ErrPortInUse; what happens to memberships is RegisterIsAllOrNothing. |
| Registration.RegisterFromKeepsValid | pkg/tcpip/stack/transport_demuxer.go:215-224 | Multi-protocol registration, rollback included, keeps every table valid. |
| Registration.RegisterIsAllOrNothing | pkg/tcpip/stack/transport_demuxer.go:215-224 | On success the endpoint has gained one membership per listed protocol. On failure every membership in every registry is as before, and so are the registries' id entries and NIC bindings. |
| Delivery.DeliverToEach | pkg/tcpip/stack/transport_demuxer.go:425-429 | The fan-out loop computes DeliverToAll: a clone for each matched entry but the last, the caller's buffer for the last. |
| Delivery.DeliverToAllBuffers | pkg/tcpip/stack/transport_demuxer.go:425-429 | Every buffer of the fan-out is the caller's or one of the clones made during it. |
| Delivery.DeliverToAllDistinct | pkg/tcpip/stack/transport_demuxer.go:425-429 | No two deliveries of the fan-out share a buffer. |
| Delivery.DeliverToAll | pkg/tcpip/stack/transport_demuxer.go:425-429 | At least one clone is made per matching entry but the last, and deliveries never outnumber the clones plus the caller's buffer. |
| Delivery.DeliverToAllClones | pkg/tcpip/stack/transport_demuxer.go:425-429 | Every buffer the fan-out owns is handed out if and only if every matching entry has a group for the packet's NIC or for NIC 0; otherwise clones are made that nobody receives. |
| Delivery.DeliverToAllReachesEveryMember | pkg/tcpip/stack/transport_demuxer.go:414-430 | Every member of every matched entry's group on the packet's NIC is reached. |
| Delivery.DeliverToAllReachesOnlyMembers | pkg/tcpip/stack/transport_demuxer.go:414-430 | Whoever the fan-out reaches is a member of some matched entry's group on the packet's NIC. |
| Delivery.DeliverToAllRecipients | pkg/tcpip/stack/transport_demuxer.go:414-430 | For a multicast or broadcast id, the fan-out reaches an endpoint if and only if it is a member of the group some matched entry binds to the packet's NIC, or to NIC 0 when there is none. |
| Delivery.Deliver | pkg/tcpip/stack/transport_demuxer.go:406-452 | An unknown pair gives false with no effect. A UDP group datagram is handled if and only if an entry matches, and otherwise counts an unknown port; it reaches an endpoint if and only if that endpoint is a member of the group some matching id entry binds to the packet's NIC, or to NIC 0 when there is none. A TCP segment with a non-unicast route address is handled, undelivered, and counts an invalid segment. Any other packet is handled if and only if an entry is found, and an unhandled UDP one counts an unknown port. An unhandled packet reaches nobody. |
| Delivery.DeliverGivesEachItsOwnBuffer | pkg/tcpip/stack/transport_demuxer.go:406-452 | Every endpoint deliverPacket hands the packet to gets a buffer no other delivery holds. |
| Delivery.UnicastDeliveryAgreesWithLookup | pkg/tcpip/stack/transport_demuxer.go:441-451 | A packet to a unicast address reaches at most one endpoint, the one findTransportEndpoint names, with the caller's buffer. |
| Delivery.DeliverControl | pkg/tcpip/stack/transport_demuxer.go:480-500 | The result is true if and only if the pair is known and an entry serves the id; at most one message is handed on, and only when the result is true. |
| Delivery.ControlDeliveryAgreesWithLookup | pkg/tcpip/stack/transport_demuxer.go:480-500 | A control message goes to exactly the endpoint findTransportEndpoint names for the id and NIC. |
| Delivery.FindTransportEndpoint | pkg/tcpip/stack/transport_demuxer.go:554-582 | An endpoint is returned if and only if the pair is known, an entry serves the id and a group serves the NIC; it is a member of that group. |
| Delivery.DeliverRaw | pkg/tcpip/stack/transport_demuxer.go:467-472 | Every raw endpoint, in order, gets one delivery of the caller's buffer. |
| Demuxer.TransportDemuxer.constructor | pkg/tcpip/stack/transport_demuxer.go:190-211 | There is a fresh, empty registry for exactly each pair of a supported network and transport protocol, no two pairs share one, and a pair is queued if and only if its transport protocol is. |
| Demuxer.TransportDemuxer.SingleRegisterEndpoint | pkg/tcpip/stack/transport_demuxer.go:367-391 | The tables change as SingleRegister says, raw endpoints are untouched, and every table stays valid. |
| Demuxer.TransportDemuxer.RegisterEndpoint | pkg/tcpip/stack/transport_demuxer.go:215-224 | The tables change as Register (with its rollback) says, raw endpoints are untouched, and every table stays valid. |
| Demuxer.TransportDemuxer.UnregisterEndpoint | pkg/tcpip/stack/transport_demuxer.go:395-401 | The tables change as UnregisterAll says, raw endpoints are untouched, and every table stays valid. |
| Demuxer.TransportDemuxer.RegisterRawEndpoint | pkg/tcpip/stack/transport_demuxer.go:599-610 | ErrNotSupported if and only if the pair has no registry. Otherwise the endpoint is appended to that pair's raw list alone, and the tables are unchanged. |
| Demuxer.TransportDemuxer.UnregisterRawEndpoint | pkg/tcpip/stack/transport_demuxer.go:614-631 | The pair's raw list becomes SwapRemove of itself, and nothing else changes. |
| Demuxer.TransportDemuxer.DeliverPacket | pkg/tcpip/stack/transport_demuxer.go:406-452 | The result, deliveries and counter increments are those of Deliver on the current tables. |
| Demuxer.TransportDemuxer.DeliverRawPacket | pkg/tcpip/stack/transport_demuxer.go:456-476 | The result is true if and only if the pair has a raw endpoint, and every raw endpoint of the pair gets the buffer. |
| Demuxer.TransportDemuxer.DeliverControlPacket | pkg/tcpip/stack/transport_demuxer.go:480-500 | The result and the message handed on are those of DeliverControl on the current tables. |
| Demuxer.TransportDemuxer.FindTransportEndpoint | pkg/tcpip/stack/transport_demuxer.go:554-582 | The endpoint is the one FindTransportEndpoint gives on the current tables. |

## Left out

- Locking (`sync.RWMutex` on registries, id entries and groups) and concurrency: every operation is modelled as one atomic step.
- The Jenkins one-at-a-time hash (`pkg/tcpip/hash/jenkins`) is not part of this model. The demultiplexer takes it as a parameter: a function of the seed and the bytes written to it. The model fixes only which bytes are written, and in which order.
- `rand.Uint32` is a parameter: every registration receives the seed a new id entry would get, and `registerEndpoint` receives one per network protocol.
- Go's `container/heap` is outside the modelled code. `heap.Push` and `heap.Remove` follow its published algorithm (up, down, and Pop of the last element). `Len` and `Pop` are folded into those two.
- Endpoints are identities with a UniqueID. Their `HandlePacket`, `HandleControlPacket` and the protocols' `QueuePacket` are recorded as deliveries in a returned log rather than called. `PacketBuffer.Clone` is a fresh token. Route statistics are returned as counter increments.
- The queued-protocol table is a set of protocol pairs. The type assertion on the transport protocol becomes a flag per transport protocol given to the constructor.
- The NIC of a route (`r.ref.nic.ID()`) and the `*NIC` of control delivery are plain NIC ids.
- The `transportEndpoints()` collectors (lines 59-67, 76-84, 275-280) and the save/restore annotations are not modelled: they serve checkpointing, not demultiplexing.
- `endpointsByNic` and `multiPortEndpoint` are values held in their parent's map, and their Go methods return the new value. Each object has exactly one owner, so aliasing between them is not modelled. The `demux` field of a group (its link back to the demultiplexer) is replaced by the group's protocol pair and the demultiplexer's queued set.
- Demuxer.TransportDemuxer.SingleRegisterEndpoint: a new id entry is stored together with its first group. The source stores the empty entry first (line 387), but its registration cannot fail, so the final state is the same.
- Demuxer.TransportDemuxer.UnregisterRawEndpoint: the source panics for an unknown protocol pair. The model requires the pair to be known.
- Registration.RegisterIsAllOrNothing: a failed registration restores every membership count, id entry and NIC binding. It does not state that a group's members come back in the same array order; `heap.Remove` may leave a different, still heap-ordered, arrangement.
- MultiPort.SelectIndex: for groups of 2^32 or more members, the source's `uint32(len(...))` wraps around. The model computes that wrap-around, but the contract only states that the index is within range.
- The packet buffer passed with a control message (lines 135 and 497) is not modelled: a control delivery records the endpoint, the control type and the extra value only.
- Delivery.DeliverRaw: every raw endpoint receives the caller's buffer itself. The comment at lines 468-469 speaks of a copy each, but the code passes `pkt` unchanged, and the model follows the code.
