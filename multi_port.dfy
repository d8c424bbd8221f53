/** The reuse group (multiPortEndpoint): the endpoints bound to one id on one NIC,
    kept in the array order of a min-heap by UniqueID, together with the selection
    of one member by a hash of the packet's four-tuple. */
module MultiPort {
  import opened Tcpip
  import opened EndpointHeap

  const Two32 := 0x1_0000_0000

  /** The group's network and transport protocol (the key of the queued-protocol
      lookup), its heap-ordered members, and whether more than one member is allowed. */
  datatype MultiPortEndpoint = MultiPortEndpoint(
    netProto: NetworkProtocolNumber,
    transProto: TransportProtocolNumber,
    endpoints: seq<Endpoint>,
    reuse: bool)

  /** What the demultiplexer guarantees of every group it keeps: at least one member,
      and the members in heap order. */
  ghost predicate Valid(m: MultiPortEndpoint) {
    |m.endpoints| > 0 && HeapOrdered(m.endpoints, |m.endpoints|)
  }

  /** The group a registration creates when none is bound to the NIC yet. */
  function Empty(netProto: NetworkProtocolNumber, transProto: TransportProtocolNumber, reuse: bool): (m: MultiPortEndpoint)
    ensures |m.endpoints| == 0 && m.reuse == reuse
    ensures m.netProto == netProto && m.transProto == transProto
  {
    MultiPortEndpoint(netProto, transProto, [], reuse)
  }

  // ---------------------------------------------------------------------------
  // Registration

  /** singleRegisterEndpoint: a non-empty group admits t only if it was created for
      reuse and the caller asks for reuse; otherwise the port is in use. */
  function Register(m: MultiPortEndpoint, t: Endpoint, reusePort: bool): (r: (MultiPortEndpoint, Option<Error>))
    ensures r.1.None? <==> |m.endpoints| == 0 || (m.reuse && reusePort)
    ensures r.1.Some? ==> r.1 == Some(ErrPortInUse) && r.0 == m
    ensures r.1.None? ==> multiset(r.0.endpoints) == multiset(m.endpoints) + multiset{t}
    ensures r.0.reuse == m.reuse && r.0.netProto == m.netProto && r.0.transProto == m.transProto
  {
    if |m.endpoints| != 0 && (!m.reuse || !reusePort) then
      (m, Some(ErrPortInUse))
    else
      (m.(endpoints := HeapPush(m.endpoints, t)), None)
  }

  method SingleRegisterEndpoint(m: MultiPortEndpoint, t: Endpoint, reusePort: bool)
    returns (r: MultiPortEndpoint, err: Option<Error>)
    ensures (r, err) == Register(m, t, reusePort)
  {
    if |m.endpoints| != 0 {
      if !m.reuse || !reusePort {
        return m, Some(ErrPortInUse);
      }
    }
    var h := Push(m.endpoints, t);
    r, err := m.(endpoints := h), None;
  }

  /** A successful registration keeps the members in heap order, and leaves the group valid. */
  lemma RegisterKeepsOrder(m: MultiPortEndpoint, t: Endpoint, reusePort: bool)
    requires HeapOrdered(m.endpoints, |m.endpoints|)
    ensures var r := Register(m, t, reusePort);
      HeapOrdered(r.0.endpoints, |r.0.endpoints|) && (r.1.None? ==> Valid(r.0))
  {
    if Register(m, t, reusePort).1.None? {
      PushKeepsOrder(m.endpoints, t);
    }
  }

  // ---------------------------------------------------------------------------
  // Unregistration

  /** unregisterEndpoint: removes the first member equal to t (nothing when t is not a
      member) and reports whether the group became empty. */
  function Unregister(m: MultiPortEndpoint, t: Endpoint): (r: (MultiPortEndpoint, bool))
    ensures multiset(r.0.endpoints) == multiset(m.endpoints) - multiset{t}
    ensures t !in m.endpoints ==> r.0 == m
    ensures r.1 <==> |r.0.endpoints| == 0
    ensures r.0.reuse == m.reuse && r.0.netProto == m.netProto && r.0.transProto == m.transProto
  {
    var i := FirstIndex(m.endpoints, t);
    var m' := if i < |m.endpoints| then m.(endpoints := HeapRemove(m.endpoints, i)) else m;
    assert t !in m.endpoints ==> multiset(m.endpoints)[t] == 0;
    (m', |m'.endpoints| == 0)
  }

  method UnregisterEndpoint(m: MultiPortEndpoint, t: Endpoint) returns (r: MultiPortEndpoint, empty: bool)
    ensures (r, empty) == Unregister(m, t)
  {
    r := m;
    var i := 0;
    while i < |m.endpoints|
      invariant i <= |m.endpoints|
      invariant forall k :: 0 <= k < i ==> m.endpoints[k] != t
      invariant r == m
    {
      if m.endpoints[i] == t {
        assert FirstIndex(m.endpoints, t) == i;
        var h := Remove(m.endpoints, i);
        r := m.(endpoints := h);
        break;
      }
      i := i + 1;
    }
    empty := |r.endpoints| == 0;
  }

  /** Unregistration keeps the members in heap order. */
  lemma UnregisterKeepsOrder(m: MultiPortEndpoint, t: Endpoint)
    requires HeapOrdered(m.endpoints, |m.endpoints|)
    ensures var r := Unregister(m, t); HeapOrdered(r.0.endpoints, |r.0.endpoints|)
  {
    var i := FirstIndex(m.endpoints, t);
    if i < |m.endpoints| {
      RemoveKeepsOrder(m.endpoints, i);
    }
  }

  // ---------------------------------------------------------------------------
  // Selection

  lemma ScaleBound(v: int, n: int)
    requires 0 <= v < Two32 && 0 <= n < Two32
    ensures 0 <= (v * n) / Two32 <= n
    ensures n > 0 ==> (v * n) / Two32 < n
  {
    var p := v * n;
    var q := p / Two32;
    MulMonotone(v, Two32 - 1, n);
    assert q * Two32 <= p by {
      assert p == q * Two32 + p % Two32;
    }
    if q > n {
      MulMonotone(n + 1, q, Two32);
      assert false;
    }
    if n > 0 && q == n {
      assert false;
    }
  }

  /** reciprocalScale: the high 32 bits of the 64-bit product val * n, an index below n. */
  function ReciprocalScale(val: uint32, n: uint32): (r: uint32)
    ensures n > 0 ==> r < n
    ensures n == 0 ==> r == 0
    ensures r as int * Two32 <= val as int * n as int < (r as int + 1) * Two32
  {
    ScaleBound(val as int, n as int);
    ((val as int * n as int) / Two32) as uint32
  }

  lemma MulMonotone(a: int, b: int, c: int)
    requires 0 <= a <= b && 0 <= c
    ensures a * c <= b * c
  {
    assert b * c - a * c == (b - a) * c;
  }

  lemma MulCancel(a: int, b: int, c: int)
    requires 0 <= a && 0 <= b && 0 < c && a * c < b * c
    ensures a < b
  {
    if a >= b {
      MulMonotone(b, a, c);
    }
  }

  lemma FloorOf(x: int, q: int)
    requires 0 <= q && q * Two32 <= x < (q + 1) * Two32
    ensures x / Two32 == q
  {
  }

  /** Every index below n is chosen by some hash value, so no member is out of reach. */
  lemma ReciprocalScaleCovers(k: uint32, n: uint32)
    requires k < n
    ensures exists val: uint32 {:trigger ReciprocalScale(val, n)} :: ReciprocalScale(val, n) == k
  {
    var K, N := k as int, n as int;
    var x := K * Two32 + N - 1;
    var v := x / N;
    assert x == v * N + x % N && 0 <= x % N < N;
    assert K * Two32 <= v * N < (K + 1) * Two32;
    MulMonotone(K + 1, N, Two32);
    MulCancel(v, Two32, N);
    var val := v as uint32;
    FloorOf(val as int * N, K);
    assert ReciprocalScale(val, n) == k;
  }

  /** A 16-bit port as it is written into the hash input: low byte first. */
  function PortBytes(p: uint16): (b: seq<uint8>)
    ensures |b| == 2 && b[0] as int + 256 * b[1] as int == p as int
  {
    [(p as int % 256) as uint8, (p as int / 256) as uint8]
  }

  /** The bytes the selection hash is computed over, in the order they are written:
      local port, remote port, local address, remote address. */
  function HashInput(id: TransportEndpointID): (s: seq<uint8>)
    ensures |s| == 4 + |id.localAddress| + |id.remoteAddress|
    ensures s[..2] == PortBytes(id.localPort) && s[2..4] == PortBytes(id.remotePort)
    ensures s[4..4 + |id.localAddress|] == id.localAddress && s[4 + |id.localAddress|..] == id.remoteAddress
  {
    PortBytes(id.localPort) + PortBytes(id.remotePort) + id.localAddress + id.remoteAddress
  }

  /** The hash input determines the four-tuple among ids whose local addresses have
      one length (the same address family). */
  lemma HashInputDeterminesId(a: TransportEndpointID, b: TransportEndpointID)
    requires |a.localAddress| == |b.localAddress|
    requires HashInput(a) == HashInput(b)
    ensures a == b
  {
    var s := HashInput(a);
    var pa, pb := PortBytes(a.localPort), PortBytes(b.localPort);
    var qa, qb := PortBytes(a.remotePort), PortBytes(b.remotePort);
    assert s[0] == pa[0] == pb[0] && s[1] == pa[1] == pb[1];
    assert s[2] == qa[0] == qb[0] && s[3] == qa[1] == qb[1];
  }

  /** The keyed hash over a seed and a byte string (Jenkins one-at-a-time). */
  type Hasher = (uint32, seq<uint8>) -> uint32

  /** The index selectEndpoint reads: 0 for a single member, else the hash scaled to
      the member count taken as a 32-bit value. */
  function SelectIndex(id: TransportEndpointID, count: nat, seed: uint32, hash: Hasher): (i: nat)
    requires count > 0
    ensures i < count
    ensures count == 1 ==> i == 0
    ensures count > 1 && count < Two32 ==> i == ReciprocalScale(hash(seed, HashInput(id)), count as uint32) as nat
  {
    if count == 1 then 0
    else ReciprocalScale(hash(seed, HashInput(id)), (count % Two32) as uint32) as nat
  }

  /** selectEndpoint: one member of the group, chosen by the flow's four-tuple. */
  function SelectEndpoint(id: TransportEndpointID, m: MultiPortEndpoint, seed: uint32, hash: Hasher): (e: Endpoint)
    requires |m.endpoints| > 0
    ensures e in m.endpoints
    ensures |m.endpoints| == 1 ==> e == m.endpoints[0]
  {
    m.endpoints[SelectIndex(id, |m.endpoints|, seed, hash)]
  }

  // ---------------------------------------------------------------------------
  // Delivery to every member

  /** Whether the group's deliveries go through its transport protocol's queue. */
  predicate Queued(m: MultiPortEndpoint, queuedProtocols: set<ProtocolIDs>) {
    ProtocolIDs(m.netProto, m.transProto) in queuedProtocols
  }

  /** handlePacketAll: one delivery per member of the group. */
  function HandleAll(m: MultiPortEndpoint, queuedProtocols: set<ProtocolIDs>, pkt: PacketBuffer, next: nat): (log: seq<Delivery>)
    requires |m.endpoints| > 0
    ensures |log| == |m.endpoints|
  {
    var n := |m.endpoints|;
    var q := Queued(m, queuedProtocols);
    seq(n, k requires 0 <= k < n => Delivery(m.endpoints[k], if k < n - 1 then Clone(next + k) else pkt, q))
  }

  /** handlePacketAll delivers to every member, in array order, through the queue
      exactly when the group's protocol has one; the last member gets pkt itself, every
      other member a clone of its own (serials next, next + 1, ...). */
  lemma HandleAllDelivers(m: MultiPortEndpoint, queuedProtocols: set<ProtocolIDs>, pkt: PacketBuffer, next: nat)
    requires |m.endpoints| > 0
    ensures var log := HandleAll(m, queuedProtocols, pkt, next);
      (forall k :: 0 <= k < |log| ==> log[k].ep == m.endpoints[k] && log[k].queued == Queued(m, queuedProtocols)) &&
      log[|log| - 1].pkt == pkt &&
      (forall k :: 0 <= k < |log| - 1 ==> log[k].pkt == Clone(next + k))
  {
  }

  /** No two members of the group share a buffer. */
  lemma HandleAllOwned(m: MultiPortEndpoint, queuedProtocols: set<ProtocolIDs>, pkt: PacketBuffer, next: nat)
    requires |m.endpoints| > 0
    ensures Owned(HandleAll(m, queuedProtocols, pkt, next), pkt, next)
  {
    HandleAllDelivers(m, queuedProtocols, pkt, next);
  }

  /** Every delivery carries a buffer of its own, provided the incoming buffer is not
      one of the clones made from serial next on. */
  predicate Owned(log: seq<Delivery>, pkt: PacketBuffer, next: nat) {
    (pkt.Original? || pkt.serial < next) ==>
      forall i, j :: 0 <= i < j < |log| ==> log[i].pkt != log[j].pkt
  }

  method HandlePacketAll(m: MultiPortEndpoint, queuedProtocols: set<ProtocolIDs>, pkt: PacketBuffer, next: nat)
    returns (log: seq<Delivery>)
    requires |m.endpoints| > 0
    ensures log == HandleAll(m, queuedProtocols, pkt, next)
  {
    var mustQueue := ProtocolIDs(m.netProto, m.transProto) in queuedProtocols;
    var n := |m.endpoints|;
    ghost var want := HandleAll(m, queuedProtocols, pkt, next);
    log := [];
    var serial := next;
    for k := 0 to n - 1
      invariant serial == next + k
      invariant log == want[..k]
    {
      log := log + [Delivery(m.endpoints[k], Clone(serial), mustQueue)];
      serial := serial + 1;
    }
    log := log + [Delivery(m.endpoints[n - 1], pkt, mustQueue)];
  }
}
