/** Basic types of the network stack that the transport demultiplexer works with:
    fixed-width integers, addresses, endpoint identities, protocol numbers, errors,
    and the tokens used to record what the demultiplexer hands to endpoints. */
module Tcpip {

  newtype uint8 = x: int | 0 <= x < 0x100
  newtype uint16 = x: int | 0 <= x < 0x1_0000
  newtype uint32 = x: int | 0 <= x < 0x1_0000_0000
  newtype uint64 = x: int | 0 <= x < 0x1_0000_0000_0000_0000
  newtype int32 = x: int | -0x8000_0000 <= x < 0x8000_0000

  /** An address is a byte string; the empty string is the wildcard address. */
  type Address = seq<uint8>

  /** A network interface identifier; 0 stands for "any interface". */
  type NICID = int32

  type NetworkProtocolNumber = uint32
  type TransportProtocolNumber = uint32

  const TCPProtocolNumber: TransportProtocolNumber := 6
  const UDPProtocolNumber: TransportProtocolNumber := 17

  /** The four-tuple an endpoint is registered under and a packet is looked up by. */
  datatype TransportEndpointID = TransportEndpointID(
    localPort: uint16,
    localAddress: Address,
    remotePort: uint16,
    remoteAddress: Address)

  /** A (network, transport) protocol pair; selects one registry of the demultiplexer. */
  datatype ProtocolIDs = ProtocolIDs(network: NetworkProtocolNumber, transport: TransportProtocolNumber)

  datatype Error = ErrUnknownProtocol | ErrPortInUse | ErrNotSupported

  datatype Option<T> = None | Some(value: T)

  /** A transport endpoint, seen from the demultiplexer: an identity (the handle) and
      the UniqueID by which reuse groups order their members. */
  datatype Endpoint = Endpoint(handle: nat, uniqueID: uint64)

  /** A raw endpoint, seen from the demultiplexer: only its identity. */
  datatype RawEndpoint = RawEndpoint(handle: nat)

  /** A packet buffer token: the buffer the caller handed over, or the buffer made by
      the n-th call of Clone during one delivery. */
  datatype PacketBuffer = Original | Clone(serial: nat)

  /** The parts of a route the demultiplexer reads: its network protocol, the NIC the
      packet arrived on, and the route's two addresses. */
  datatype Route = Route(netProto: NetworkProtocolNumber, nic: NICID, localAddress: Address, remoteAddress: Address)

  type ControlType = int

  /** One call of HandlePacket (queued == false) or of the protocol's QueuePacket
      (queued == true) for endpoint ep with buffer pkt. */
  datatype Delivery = Delivery(ep: Endpoint, pkt: PacketBuffer, queued: bool)

  /** Some delivery of the log goes to ep. */
  predicate Reached(log: seq<Delivery>, ep: Endpoint) {
    exists k :: 0 <= k < |log| && log[k].ep == ep
  }

  /** A concatenation of logs reaches exactly who one of its parts reaches. */
  lemma ReachedConcat(l1: seq<Delivery>, l2: seq<Delivery>, ep: Endpoint)
    ensures Reached(l1 + l2, ep) <==> Reached(l1, ep) || Reached(l2, ep)
  {
    if Reached(l1 + l2, ep) {
      var k :| 0 <= k < |l1 + l2| && (l1 + l2)[k].ep == ep;
      if k < |l1| {
        assert l1[k] == (l1 + l2)[k];
      } else {
        assert l2[k - |l1|] == (l1 + l2)[k];
      }
    }
    if Reached(l1, ep) {
      var k :| 0 <= k < |l1| && l1[k].ep == ep;
      assert (l1 + l2)[k] == l1[k];
    } else if Reached(l2, ep) {
      var k :| 0 <= k < |l2| && l2[k].ep == ep;
      assert (l1 + l2)[|l1| + k] == l2[k];
    }
  }

  /** One call of HandleControlPacket. */
  datatype ControlDelivery = ControlDelivery(ep: Endpoint, typ: ControlType, extra: uint32)

  /** One call of a raw endpoint's HandlePacket. */
  datatype RawDelivery = RawDelivery(ep: RawEndpoint, pkt: PacketBuffer)

  /** Increments of the two statistics counters the demultiplexer touches. */
  datatype Counters = Counters(udpUnknownPortErrors: nat, tcpInvalidSegmentsReceived: nat)

  const NoCounters := Counters(0, 0)

  /** The position of the first element equal to x, or |s| when there is none: the
      element a `for i, e := range s { if e == x { ...; break } }` scan stops at. */
  function FirstIndex<T(==)>(s: seq<T>, x: T): (i: nat)
    ensures i <= |s|
    ensures i < |s| ==> s[i] == x
    ensures forall k :: 0 <= k < i ==> s[k] != x
  {
    if |s| == 0 then 0
    else if s[0] == x then 0
    else 1 + FirstIndex(s[1..], x)
  }
}

/** The address classification the demultiplexer relies on. The multicast ranges are
    224.0.0.0/4 (section 4 of RFC 1112) and ff00::/8 (section 2.7 of RFC 4291). */
module Header {
  import opened Tcpip

  const IPv4AddressSize := 4
  const IPv6AddressSize := 16

  const IPv4Broadcast: Address := [0xff, 0xff, 0xff, 0xff]
  const IPv4Any: Address := [0, 0, 0, 0]
  const IPv6Any: Address := [0, 0, 0, 0, 0, 0, 0, 0, 0, 0, 0, 0, 0, 0, 0, 0]

  /** The four high-order bits of the first byte are 1110. */
  predicate IsV4MulticastAddress(addr: Address) {
    |addr| == IPv4AddressSize && addr[0] as int / 16 == 0xe
  }

  predicate IsV6MulticastAddress(addr: Address) {
    |addr| == IPv6AddressSize && addr[0] == 0xff
  }
}

/** isMulticastOrBroadcast and isUnicast of the demultiplexer. */
module Addressing {
  import opened Tcpip
  import opened Header

  /** isMulticastOrBroadcast: by address family, the IPv4 limited broadcast address or
      an address in 224.0.0.0/4 for IPv4, an address in ff00::/8 for IPv6, and never an
      address of any other length. */
  function IsMulticastOrBroadcast(addr: Address): (b: bool)
    ensures b ==> |addr| == IPv4AddressSize || |addr| == IPv6AddressSize
    ensures |addr| == IPv4AddressSize ==> (b <==> addr == IPv4Broadcast || 224 <= addr[0] < 240)
    ensures |addr| == IPv6AddressSize ==> (b <==> addr[0] == 0xff)
  {
    addr == IPv4Broadcast || IsV4MulticastAddress(addr) || IsV6MulticastAddress(addr)
  }

  /** isUnicast: by address family, an IPv4 address other than 0.0.0.0, the limited
      broadcast address and 224.0.0.0/4; an IPv6 address other than :: and ff00::/8; and
      any address of another length, the empty wildcard included. */
  function IsUnicast(addr: Address): (b: bool)
    ensures b ==> !IsMulticastOrBroadcast(addr)
    ensures |addr| != IPv4AddressSize && |addr| != IPv6AddressSize ==> b
    ensures |addr| == IPv4AddressSize ==>
      (b <==> addr != IPv4Any && addr != IPv4Broadcast && !(224 <= addr[0] < 240))
    ensures |addr| == IPv6AddressSize ==> (b <==> addr != IPv6Any && addr[0] != 0xff)
  {
    addr != IPv4Any && addr != IPv6Any && !IsMulticastOrBroadcast(addr)
  }
}
