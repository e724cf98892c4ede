/** The forwarding engine of the XDP program: clean traffic is wrapped in an IPIP header
    towards its backend (RFC 2003), and IPIP answers are unwrapped for the client. */
module Routing {
  import opened A2sCache
  import opened Bits
  import opened Checksum
  import opened Packet
  import opened Wrappers

  const INNER: nat := ETH_LEN + IP_LEN

  datatype BackendKey = BackendKey(vip: Bytes4, vport: Bytes2, protocol: u8)

  /** `kind` 1 is WireGuard, anything else IPIP; port 0 keeps the client's port. */
  datatype BackendInfo = BackendInfo(ip: Bytes4, port: Bytes2, kind: u8)

  type BackendMap = map<BackendKey, BackendInfo>

  const NO_PORT: Bytes2 := [0, 0]

  // ------------------------------------------------------------------ encapsulation

  /** Where what follows the IP header of a frame starts: the transport header, or the
      packet inside an IPIP frame. */
  function L4(f: Frame): nat
    requires |f| >= INNER
  {
    ETH_LEN + 4 * Ihl(f, ETH_LEN)
  }

  function Protocol(f: Frame): u8
    requires |f| >= INNER
  {
    f[ETH_LEN + 9]
  }

  /** The destination port, zero for protocols without ports, None when the transport
      header is cut off. */
  function DestPort(f: Frame): Option<Bytes2>
    requires |f| >= INNER
  {
    if Protocol(f) == PROTO_TCP then
      if L4(f) + TCP_LEN > |f| then None else Some(Field2(f, L4(f) + 2))
    else if Protocol(f) == PROTO_UDP then
      if L4(f) + UDP_LEN > |f| then None else Some(Field2(f, L4(f) + 2))
    else Some(NO_PORT)
  }

  /** The backend of (vip, port, protocol), or else the one of the whole VIP. */
  function Route(backends: BackendMap, vip: Bytes4, port: Bytes2, protocol: u8): Option<BackendInfo> {
    var key, fallback := BackendKey(vip, port, protocol), BackendKey(vip, NO_PORT, 0);
    if key in backends then Some(backends[key])
    else if fallback in backends then Some(backends[fallback])
    else None
  }

  /** Offset of the checksum field in the transport header. */
  function CheckOffset(protocol: u8): nat { if protocol == PROTO_TCP then 16 else 6 }

  /** The checksum of a TCP or UDP packet for the new port. */
  function NewCheck(f: Frame, port: Bytes2): u16
    requires |f| >= INNER && DestPort(f).Some? && (Protocol(f) == PROTO_TCP || Protocol(f) == PROTO_UDP)
  {
    var from, c := Raw(Field2(f, L4(f) + 2)), Raw(Field2(f, L4(f) + CheckOffset(Protocol(f))));
    if Protocol(f) == PROTO_TCP then TcpRewrite(from, Raw(port), c) else UdpRewrite(from, Raw(port), c)
  }

  /** The inner packet with its destination port replaced and its checksum updated. */
  function WithPort(f: Frame, port: Bytes2): (r: Frame)
    requires |f| >= INNER && DestPort(f).Some?
    ensures |r| == |f|
  {
    if port == NO_PORT || (Protocol(f) != PROTO_TCP && Protocol(f) != PROTO_UDP) then f
    else
      Splice(Splice(f, L4(f) + CheckOffset(Protocol(f)), RawBytes(NewCheck(f, port))), L4(f) + 2, port)
  }

  /** bpf_htons(bpf_ntohs(inner->tot_len) + sizeof(struct iphdr)) */
  function OuterLength(f: Frame): u16
    requires |f| >= INNER
  {
    (Net(Field2(f, ETH_LEN + 2)) + IP_LEN) % U16
  }

  function HeaderBytes(length: Bytes2, source: Bytes4, destination: Bytes4): (h: seq<u8>)
    ensures |h| == IP_LEN
  {
    [0x45, 0] + length + [0, 0, 0, 0, 64, PROTO_IPIP, 0, 0] + source + destination
  }

  /** The outer header before its checksum is filled in. */
  function OuterFields(f: Frame, backend: Bytes4): (h: seq<u8>)
    requires |f| >= INNER
    ensures |h| == IP_LEN
  {
    HeaderBytes(NetBytes(OuterLength(f)), Field4(f, ETH_LEN + 16), backend)
  }

  function Wrapped(f: Frame, backend: Bytes4): (r: Frame)
    requires |f| >= INNER
    ensures |r| == |f| + IP_LEN
  {
    WithHeaderChecksum(f[..ETH_LEN] + OuterFields(f, backend) + f[ETH_LEN..], ETH_LEN)
  }

  /** A verdict that leaves the packet alone, never XDP_TX, or a backend to send it to. */
  datatype Decision = Stop(action: Action) | Forward(backend: BackendInfo)

  /** Everything encapsulate_ipip looks at before it touches the packet. */
  function Decide(f: Frame, backends: BackendMap): Decision
    requires |f| >= INNER
  {
    if Ihl(f, ETH_LEN) < 5 then Stop(XdpDrop)
    else match DestPort(f)
      case None => Stop(XdpPass)
      case Some(port) =>
        if Net(port) == 22 || Net(port) == 9090 then Stop(XdpPass)
        else match Route(backends, Field4(f, ETH_LEN + 16), port, Protocol(f))
          case None => Stop(XdpPass)
          case Some(backend) => if backend.kind == 1 then Stop(XdpPass) else Forward(backend)
  }

  /** What encapsulate_ipip does to a frame with `headroom` bytes in front of it. */
  function Encapsulated(f: Frame, backends: BackendMap, headroom: nat): Outcome
    requires |f| >= INNER
  {
    match Decide(f, backends)
    case Stop(action) => Outcome(action, f)
    case Forward(backend) =>
      if headroom < IP_LEN then Outcome(XdpDrop, WithPort(f, backend.port))
      else Outcome(XdpTx, Wrapped(WithPort(f, backend.port), backend.ip))
  }

  method StoreCheckAndPort(b: XdpBuff, off: nat, c: u16, port: Bytes2)
    requires b.Valid() && off + TCP_LEN <= b.Length()
    modifies b.mem
    ensures b.Bytes() == Splice(Splice(old(b.Bytes()), off + 16, RawBytes(c)), off + 2, port)
  {
    ghost var f := b.Bytes();
    b.StoreBytes(off + 16, RawBytes(c));
    assert b.Bytes() == Splice(f, off + 16, RawBytes(c));
    b.StoreBytes(off + 2, port);
  }

  /** The port rewrite in place, on the transport header at `off`. */
  method RewriteTcp(b: XdpBuff, off: nat, port: Bytes2)
    requires b.Valid() && off + TCP_LEN <= b.Length()
    modifies b.mem
    ensures var f := old(b.Bytes());
            var c := TcpRewrite(Raw(Field2(f, off + 2)), Raw(port), Raw(Field2(f, off + 16)));
            b.Bytes() == Splice(Splice(f, off + 16, RawBytes(c)), off + 2, port)
  {
    ghost var f := b.Bytes();
    var oldPort, check := b.Load2(off + 2), b.Load2(off + 16);
    assert oldPort == Field2(f, off + 2) && check == Field2(f, off + 16);
    StoreCheckAndPort(b, off, TcpRewrite(Raw(oldPort), Raw(port), Raw(check)), port);
  }

  method RewriteUdp(b: XdpBuff, off: nat, port: Bytes2)
    requires b.Valid() && off + UDP_LEN <= b.Length()
    modifies b.mem
    ensures var f := old(b.Bytes());
            var c := UdpRewrite(Raw(Field2(f, off + 2)), Raw(port), Raw(Field2(f, off + 6)));
            b.Bytes() == Splice(Splice(f, off + 6, RawBytes(c)), off + 2, port)
  {
    ghost var f := b.Bytes();
    var oldPort, check := b.Load2(off + 2), b.Load2(off + 6);
    ghost var c := UdpRewrite(Raw(oldPort), Raw(port), Raw(check));
    assert c == UdpRewrite(Raw(Field2(f, off + 2)), Raw(port), Raw(Field2(f, off + 6)));
    UpdateUdpCheck(b, off + 6, Raw(oldPort), Raw(port), check);
    b.StoreBytes(off + 2, port);
    assert b.Bytes() == Splice(Splice(f, off + 6, RawBytes(c)), off + 2, port);
  }

  /** The checksum field alone: 0 stays 0, and an update that comes out 0 is stored as
      all ones. */
  method UpdateUdpCheck(b: XdpBuff, off: nat, from: u16, to: u16, check: Bytes2)
    requires b.Valid() && off + 2 <= b.Length() && check == Field2(b.Bytes(), off)
    modifies b.mem
    ensures b.Bytes() == Splice(old(b.Bytes()), off, RawBytes(UdpRewrite(from, to, Raw(check))))
  {
    if Raw(check) != 0 {
      var updated := CsumDiff4(from, to, Raw(check));
      ghost var f := b.Bytes();
      b.StoreBytes(off, RawBytes(updated));
      if updated == 0 {
        b.StoreBytes(off, RawBytes(ONES));
        SpliceOver(f, off, RawBytes(updated), RawBytes(ONES));
      }
    } else {
      StoredBack(b.Bytes(), off);
    }
  }

  /** Storing what was loaded changes nothing. */
  lemma StoredBack(f: Frame, off: nat)
    requires off + 2 <= |f|
    ensures Splice(f, off, RawBytes(Raw(Field2(f, off)))) == f
  {
    assert RawBytes(Raw(Field2(f, off))) == Field2(f, off);
  }

  lemma TcpPort(f: Frame, port: Bytes2)
    requires |f| >= INNER && DestPort(f).Some? && Protocol(f) == PROTO_TCP && port != NO_PORT
    ensures var c := TcpRewrite(Raw(Field2(f, L4(f) + 2)), Raw(port), Raw(Field2(f, L4(f) + 16)));
            WithPort(f, port) == Splice(Splice(f, L4(f) + 16, RawBytes(c)), L4(f) + 2, port)
  {
  }

  lemma UdpPort(f: Frame, port: Bytes2)
    requires |f| >= INNER && DestPort(f).Some? && Protocol(f) == PROTO_UDP && port != NO_PORT
    ensures var c := UdpRewrite(Raw(Field2(f, L4(f) + 2)), Raw(port), Raw(Field2(f, L4(f) + 6)));
            WithPort(f, port) == Splice(Splice(f, L4(f) + 6, RawBytes(c)), L4(f) + 2, port)
  {
  }

  method RewriteTcpPort(b: XdpBuff, off: nat, port: Bytes2)
    requires b.Valid() && b.Length() >= INNER && DestPort(b.Bytes()).Some? && port != NO_PORT
    requires Protocol(b.Bytes()) == PROTO_TCP && off == L4(b.Bytes())
    modifies b.mem
    ensures b.Bytes() == WithPort(old(b.Bytes()), port)
  {
    RewriteTcp(b, off, port);
    TcpPort(old(b.Bytes()), port);
  }

  method RewriteUdpPort(b: XdpBuff, off: nat, port: Bytes2)
    requires b.Valid() && b.Length() >= INNER && DestPort(b.Bytes()).Some? && port != NO_PORT
    requires Protocol(b.Bytes()) == PROTO_UDP && off == L4(b.Bytes())
    modifies b.mem
    ensures b.Bytes() == WithPort(old(b.Bytes()), port)
  {
    RewriteUdp(b, off, port);
    UdpPort(old(b.Bytes()), port);
  }

  method RewritePort(b: XdpBuff, port: Bytes2)
    requires b.Valid() && b.Length() >= INNER && DestPort(b.Bytes()).Some?
    modifies b.mem
    ensures b.Bytes() == WithPort(old(b.Bytes()), port)
  {
    var protocol := b.Load(ETH_LEN + 9);
    var off := ETH_LEN + 4 * (b.Load(ETH_LEN) % 16);
    if port != NO_PORT {
      if protocol == PROTO_TCP {
        RewriteTcpPort(b, off, port);
      } else if protocol == PROTO_UDP {
        RewriteUdpPort(b, off, port);
      }
    }
  }

  method Classify(b: XdpBuff, backends: BackendMap) returns (d: Decision)
    requires b.Valid() && b.Length() >= INNER
    ensures d == Decide(b.Bytes(), backends)
  {
    if b.Load(ETH_LEN) % 16 < 5 {
      return Stop(XdpDrop);
    }
    var vip := b.Load4(ETH_LEN + 16);
    var port: Bytes2 := NO_PORT;
    var protocol := b.Load(ETH_LEN + 9);
    var off := ETH_LEN + 4 * (b.Load(ETH_LEN) % 16);
    if protocol == PROTO_TCP {
      if off + TCP_LEN > b.Length() {
        return Stop(XdpPass);
      }
      port := b.Load2(off + 2);
    } else if protocol == PROTO_UDP {
      if off + UDP_LEN > b.Length() {
        return Stop(XdpPass);
      }
      port := b.Load2(off + 2);
    }
    if Net(port) == 22 || Net(port) == 9090 {
      return Stop(XdpPass);
    }
    var route := Route(backends, vip, port, protocol);
    if route.None? {
      return Stop(XdpPass);
    }
    if route.value.kind == 1 {
      return Stop(XdpPass);
    }
    return Forward(route.value);
  }

  /** encapsulate_ipip. The tests of `data_end` the source repeats after each change are
      the preconditions of RewritePort and PushHeader; none of them can fail. */
  method EncapsulateIpip(b: XdpBuff, backends: BackendMap, stats: map<u32, u64>)
    returns (action: Action, stats': map<u32, u64>)
    requires b.Valid() && b.Length() >= INNER
    modifies b`data, b.mem
    ensures b.Valid()
    ensures Outcome(action, b.Bytes()) == Encapsulated(old(b.Bytes()), backends, old(b.data))
    ensures stats' == if action == XdpTx && 0 in stats then stats[0 := (stats[0] + 1) % U64] else stats
  {
    stats' := stats;
    var decision := Classify(b, backends);
    if decision.Stop? {
      return decision.action, stats';
    }
    var backend := decision.backend;
    var failed := SendOn(b, backend);
    if failed {
      return XdpDrop, stats';
    }
    if 0 in stats' {
      stats' := stats'[0 := (stats'[0] + 1) % U64];
    }
    return XdpTx, stats';
  }

  method SendOn(b: XdpBuff, backend: BackendInfo) returns (failed: bool)
    requires b.Valid() && b.Length() >= INNER && DestPort(b.Bytes()).Some?
    modifies b`data, b.mem
    ensures b.Valid()
    ensures failed <==> old(b.data) < IP_LEN
    ensures var g := WithPort(old(b.Bytes()), backend.port);
            b.Bytes() == if failed then g else Wrapped(g, backend.ip)
  {
    RewritePort(b, backend.port);
    failed := Wrap(b, backend.ip);
  }

  /** Steps 1 to 3: room in front of the packet, and the new headers in it. */
  method Wrap(b: XdpBuff, backend: Bytes4) returns (failed: bool)
    requires b.Valid() && b.Length() >= INNER
    modifies b`data, b.mem
    ensures b.Valid()
    ensures failed <==> old(b.data) < IP_LEN
    ensures b.Bytes() == if failed then old(b.Bytes()) else Wrapped(old(b.Bytes()), backend)
  {
    failed := b.AdjustHead(0 - (IP_LEN as int));
    if !failed {
      PushHeader(b, backend);
    }
  }

  /** Steps 2 and 3: the old Ethernet header is copied to the new front, and the outer
      IP header is then written over the place it came from. */
  method PushHeader(b: XdpBuff, backend: Bytes4)
    requires b.Valid() && b.Length() >= INNER + IP_LEN
    modifies b.mem
    ensures b.Bytes() == Wrapped(old(b.Bytes())[IP_LEN..], backend)
  {
    WriteHeaders(b, backend);
    b.UpdateIphChecksum(ETH_LEN);
  }

  method WriteHeaders(b: XdpBuff, backend: Bytes4)
    requires b.Valid() && b.Length() >= INNER + IP_LEN
    modifies b.mem
    ensures var f := old(b.Bytes())[IP_LEN..];
            b.Bytes() == f[..ETH_LEN] + OuterFields(f, backend) + f[ETH_LEN..]
  {
    ghost var g := b.Bytes();
    var eth := b.LoadRange(IP_LEN, ETH_LEN);
    b.StoreBytes(0, eth);
    var length := b.Load2(INNER + 2);
    var source := b.Load4(INNER + 16);
    CopiedFields(g, eth);
    StoreHeader(b, eth, NetBytes((Net(length) + IP_LEN) % U16), source, backend);
    HeadersTogether(g[IP_LEN..], length, source, backend);
  }

  lemma HeadersTogether(f: Frame, length: Bytes2, source: Bytes4, backend: Bytes4)
    requires |f| >= INNER && length == Field2(f, ETH_LEN + 2) && source == Field4(f, ETH_LEN + 16)
    ensures HeaderBytes(NetBytes((Net(length) + IP_LEN) % U16), source, backend) == OuterFields(f, backend)
  {
  }

  /** The stores that make the outer header, in the source's order. */
  method StoreHeader(b: XdpBuff, ghost eth: seq<u8>, length: Bytes2, source: Bytes4, backend: Bytes4)
    requires b.Valid() && b.Length() >= INNER && eth == b.Bytes()[..ETH_LEN]
    modifies b.mem
    ensures b.Bytes() == eth + HeaderBytes(length, source, backend) + old(b.Bytes())[INNER..]
  {
    ghost var g := b.Bytes();
    b.StoreBytes(ETH_LEN, [0x45, 0]);
    b.StoreBytes(ETH_LEN + 2, length);
    b.StoreBytes(ETH_LEN + 4, [0, 0, 0, 0]);
    b.StoreBytes(ETH_LEN + 8, [64, PROTO_IPIP]);
    b.StoreBytes(ETH_LEN + 12, source);
    b.StoreBytes(ETH_LEN + 16, backend);
    b.StoreBytes(ETH_LEN + 10, [0, 0]);
    HeaderStores(g, length, source, backend);
  }

  /** What is read after the Ethernet header has been copied down is still the inner
      packet's: the copy ends before it. */
  lemma CopiedFields(g: Frame, eth: seq<u8>)
    requires |g| >= INNER + IP_LEN && eth == g[IP_LEN..IP_LEN + ETH_LEN]
    ensures var (f, f') := (g[IP_LEN..], Splice(g, 0, eth));
            && eth == f[..ETH_LEN]
            && Field2(f', INNER + 2) == Field2(f, ETH_LEN + 2)
            && Field4(f', INNER + 16) == Field4(f, ETH_LEN + 16)
            && f'[INNER..] == f[ETH_LEN..]
            && f'[..ETH_LEN] == eth
  {
    var f, f' := g[IP_LEN..], Splice(g, 0, eth);
    SpliceAt(g, 0, eth);
    assert eth == f[..ETH_LEN];
    assert f'[INNER + 2..INNER + 4] == g[INNER + 2..INNER + 4] == f[ETH_LEN + 2..ETH_LEN + 4];
    assert f'[INNER + 16..INNER + 20] == g[INNER + 16..INNER + 20] == f[ETH_LEN + 16..ETH_LEN + 20];
    assert f'[INNER..] == g[INNER..] == f[ETH_LEN..];
  }

  /** The stores of StoreHeader, put together. */
  lemma HeaderStores(g: Frame, length: Bytes2, source: Bytes4, backend: Bytes4)
    requires |g| >= INNER
    ensures var f1 := Splice(g, ETH_LEN, [0x45, 0]);
            var f2 := Splice(Splice(f1, ETH_LEN + 2, length), ETH_LEN + 4, [0, 0, 0, 0]);
            var f3 := Splice(Splice(f2, ETH_LEN + 8, [64, PROTO_IPIP]), ETH_LEN + 12, source);
            Splice(Splice(f3, ETH_LEN + 16, backend), ETH_LEN + 10, [0, 0]) ==
            Splice(g, ETH_LEN, HeaderBytes(length, source, backend))
  {
    var h2: seq<u8> := [0x45, 0] + length;
    var h3 := h2 + [0, 0, 0, 0];
    var h4 := h3 + [64, PROTO_IPIP];
    SpliceJoin(g, ETH_LEN, [0x45, 0], length);
    SpliceJoin(g, ETH_LEN, h2, [0, 0, 0, 0]);
    SpliceJoin(g, ETH_LEN, h3, [64, PROTO_IPIP]);
    HeaderTail(Splice(g, ETH_LEN, h4), source, backend);
    SpliceJoin(g, ETH_LEN, h4, [0, 0] + (source + backend));
    assert h4 + ([0, 0] + (source + backend)) == HeaderBytes(length, source, backend);
  }

  lemma HeaderTail(f: Frame, source: Bytes4, backend: Bytes4)
    requires |f| >= INNER
    ensures Splice(Splice(Splice(f, ETH_LEN + 12, source), ETH_LEN + 16, backend), ETH_LEN + 10, [0, 0]) ==
            Splice(f, ETH_LEN + 10, [0, 0] + (source + backend))
  {
    SpliceJoin(f, ETH_LEN + 12, source, backend);
    SpliceJoin(f, ETH_LEN + 10, [0, 0], source + backend);
  }

  // ------------------------------------------------------------------ decapsulation

  predicate HasPrefix(f: Frame, off: nat) {
    off + 5 <= |f| && f[off..off + 4] == [0xFF, 0xFF, 0xFF, 0xFF]
  }

  /** Where the payload of the UDP packet at `inner` starts. */
  function PayloadAt(f: Frame, inner: nat): nat
    requires inner < |f|
  {
    inner + 4 * Ihl(f, inner) + UDP_LEN
  }

  /** Whether the packet inside an IPIP frame is an A2S answer for the AF_XDP cache. */
  predicate IsA2sAnswer(f: Frame, inner: nat)
    requires inner + IP_LEN <= |f|
  {
    f[inner + 9] == PROTO_UDP && HasPrefix(f, PayloadAt(f, inner)) && f[PayloadAt(f, inner) + 4] == 0x49
  }

  /** Whether it is a complete A2S challenge. */
  predicate IsChallenge(f: Frame, inner: nat)
    requires inner + IP_LEN <= |f|
  {
    && f[inner + 9] == PROTO_UDP && HasPrefix(f, PayloadAt(f, inner)) && f[PayloadAt(f, inner) + 4] == 0x41
    && PayloadAt(f, inner) + 9 <= |f|
  }

  /** The server that sent the UDP packet at `inner`. */
  function Sender(f: Frame, inner: nat): Server
    requires inner + IP_LEN <= |f| && PayloadAt(f, inner) <= |f|
  {
    Server(Field4(f, inner + 12), Field2(f, PayloadAt(f, inner) - UDP_LEN))
  }

  /** The cache after a challenge: a server that is cached keeps the four bytes. */
  function Learned(f: Frame, inner: nat, cache: Cache): Cache
    requires inner + IP_LEN <= |f|
  {
    if IsChallenge(f, inner) && Sender(f, inner) in cache then Challenged(f, inner, cache) else cache
  }

  function Challenged(f: Frame, inner: nat, cache: Cache): Cache
    requires inner + IP_LEN <= |f| && PayloadAt(f, inner) + 9 <= |f| && Sender(f, inner) in cache
  {
    var e: Cached := cache[Sender(f, inner)];
    cache[Sender(f, inner) := e.(challenge := Field4(f, PayloadAt(f, inner) + 5), challengeSet := true)]
  }

  /** The tests decapsulate_ipip makes before it strips the outer header. */
  predicate Strippable(f: Frame)
    requires |f| >= INNER
  {
    var inner := L4(f);
    && Ihl(f, ETH_LEN) >= 5
    && inner + IP_LEN <= |f|
    && Ihl(f, inner) >= 5
    && (f[inner + 9] == PROTO_UDP ==> inner + 4 * Ihl(f, inner) + UDP_LEN <= |f|)
  }

  /** The outer header gone, and the Ethernet header back with its addresses exchanged. */
  function Stripped(f: Frame): Frame
    requires |f| >= INNER && Strippable(f)
  {
    SwapMac(f[..ETH_LEN] + f[L4(f)..])
  }

  function Verdict(answer: bool, socket: bool): Action {
    if answer then (if socket then XdpRedirect else XdpPass) else XdpTx
  }

  /** What decapsulate_ipip does; `socket` says whether an AF_XDP socket serves the queue. */
  function Decapsulated(f: Frame, socket: bool): Outcome
    requires |f| >= INNER
  {
    if !Strippable(f) then Outcome(XdpDrop, f)
    else Outcome(Verdict(IsA2sAnswer(f, L4(f)), socket), Stripped(f))
  }

  function AfterDecapsulation(f: Frame, cache: Cache): Cache
    requires |f| >= INNER
  {
    if Strippable(f) then Learned(f, L4(f), cache) else cache
  }

  method CheckInner(b: XdpBuff, inner: nat, cache: Cache) returns (ok: bool, redirect: bool, cache': Cache)
    requires b.Valid() && b.Length() >= INNER && inner == L4(b.Bytes()) >= INNER
    ensures ok == Strippable(b.Bytes())
    ensures ok ==> redirect == IsA2sAnswer(b.Bytes(), L4(b.Bytes()))
    ensures cache' == AfterDecapsulation(b.Bytes(), cache)
  {
    if inner > b.Length() || inner + IP_LEN > b.Length() {
      return false, false, cache;
    }
    var ihl := b.Load(inner) % 16;
    if ihl < 5 {
      return false, false, cache;
    }
    redirect, cache' := false, cache;
    if b.Load(inner + 9) == PROTO_UDP {
      if inner + 4 * ihl + UDP_LEN > b.Length() {
        return false, false, cache;
      }
      redirect, cache' := InspectPayload(b, inner, cache);
    }
    ok := true;
  }

  /** The tests on the UDP payload, and the store of a challenge. */
  method InspectPayload(b: XdpBuff, inner: nat, cache: Cache) returns (redirect: bool, cache': Cache)
    requires b.Valid() && inner + IP_LEN <= b.Length() && PayloadAt(b.Bytes(), inner) <= b.Length()
    requires b.Bytes()[inner + 9] == PROTO_UDP
    ensures redirect == IsA2sAnswer(b.Bytes(), inner)
    ensures cache' == Learned(b.Bytes(), inner, cache)
  {
    redirect, cache' := false, cache;
    var payload := inner + 4 * (b.Load(inner) % 16) + UDP_LEN;
    if payload + 5 <= b.Length() {
      var prefix := b.Load4(payload);
      if prefix == [0xFF, 0xFF, 0xFF, 0xFF] {
        var code := b.Load(payload + 4);
        if code == 0x49 {
          redirect := true;
        } else if code == 0x41 {
          cache' := StoreChallenge(b, inner, payload, cache);
        }
      }
    }
  }

  method StoreChallenge(b: XdpBuff, inner: nat, payload: nat, cache: Cache) returns (cache': Cache)
    requires b.Valid() && inner + IP_LEN <= b.Length() && payload == PayloadAt(b.Bytes(), inner) < b.Length()
    ensures cache' == if Sender(b.Bytes(), inner) in cache && payload + 9 <= b.Length()
                      then Challenged(b.Bytes(), inner, cache) else cache
  {
    var ip := b.Load4(inner + 12);
    var port := b.Load2(payload - UDP_LEN);
    cache' := cache;
    if Server(ip, port) in cache && payload + 9 <= b.Length() {
      var e: Cached := cache[Server(ip, port)];
      var challenge := b.Load4(payload + 5);
      cache' := cache[Server(ip, port) := e.(challenge := challenge, challengeSet := true)];
    }
  }

  /** Save the Ethernet header, strip the outer header, restore the saved one swapped. */
  method StripOuter(b: XdpBuff, outerLen: nat) returns (failed: bool)
    requires b.Valid() && b.Length() >= INNER && Strippable(b.Bytes()) && ETH_LEN + outerLen == L4(b.Bytes())
    modifies b`data, b.mem
    ensures b.Valid() && !failed
    ensures b.Bytes() == Stripped(old(b.Bytes()))
  {
    ghost var f := b.Bytes();
    var eth := b.LoadRange(0, ETH_LEN);
    failed := b.AdjustHead(outerLen);
    if failed {
      return;
    }
    b.StoreBytes(0, eth);
    b.SwapMacInPlace();
    HeaderRestored(f, outerLen);
  }

  lemma HeaderRestored(f: Frame, outerLen: nat)
    requires |f| >= INNER && Strippable(f) && ETH_LEN + outerLen == L4(f)
    ensures SwapMac(Splice(f[outerLen..], 0, f[0..0 + ETH_LEN])) == Stripped(f)
  {
    assert Splice(f[outerLen..], 0, f[0..0 + ETH_LEN]) == f[..ETH_LEN] + f[ETH_LEN + outerLen..];
  }

  /** The first half of decapsulate_ipip: nothing in the frame has changed yet. */
  method CheckHeaders(b: XdpBuff, cache: Cache)
    returns (ok: bool, outerLen: nat, redirect: bool, cache': Cache)
    requires b.Valid() && b.Length() >= INNER
    ensures ok == Strippable(b.Bytes()) && ETH_LEN + outerLen == L4(b.Bytes())
    ensures ok ==> redirect == IsA2sAnswer(b.Bytes(), L4(b.Bytes()))
    ensures cache' == AfterDecapsulation(b.Bytes(), cache)
  {
    var ihl := b.Load(ETH_LEN) % 16;
    outerLen := 4 * ihl;
    if ihl < 5 {
      return false, outerLen, false, cache;
    }
    ok, redirect, cache' := CheckInner(b, ETH_LEN + outerLen, cache);
  }

  /** decapsulate_ipip */
  method DecapsulateIpip(b: XdpBuff, cache: Cache, socket: bool) returns (action: Action, cache': Cache)
    requires b.Valid() && b.Length() >= INNER
    modifies b`data, b.mem
    ensures b.Valid()
    ensures Outcome(action, b.Bytes()) == Decapsulated(old(b.Bytes()), socket)
    ensures cache' == AfterDecapsulation(old(b.Bytes()), cache)
  {
    var ok, outerLen, redirect, learned := CheckHeaders(b, cache);
    if !ok {
      return XdpDrop, learned;
    }
    var failed := StripOuter(b, outerLen);
    if failed {
      return XdpDrop, learned;
    }
    if redirect {
      return if socket then XdpRedirect else XdpPass, learned;
    }
    return XdpTx, learned;
  }

  // ------------------------------------------------------------------ main theorems

  predicate InField(i: int, off: int) { off <= i < off + 2 }

  /** g is f with `port` at p, and perhaps another word at q. */
  ghost predicate OnlyPortAndCheck(f: Frame, g: Frame, p: nat, q: nat, port: Bytes2)
    requires |g| == |f| && p + 2 <= |f|
  {
    && Field2(g, p) == port
    && forall i :: 0 <= i < |f| && !InField(i, p) && !InField(i, q) ==> g[i] == f[i]
  }

  /** What the rewrite may touch: the port and the checksum of a TCP or UDP header. */
  lemma RewriteIsLocal(f: Frame, port: Bytes2)
    requires |f| >= INNER && DestPort(f).Some? && Ihl(f, ETH_LEN) >= 5
    ensures var (g, p, l4) := (WithPort(f, port), Protocol(f), L4(f));
            if port == NO_PORT || (p != PROTO_TCP && p != PROTO_UDP) then g == f
            else OnlyPortAndCheck(f, g, l4 + 2, l4 + CheckOffset(p), port)
  {
    if port != NO_PORT && Protocol(f) == PROTO_TCP {
      TcpIsLocal(f, port);
    } else if port != NO_PORT && Protocol(f) == PROTO_UDP {
      UdpIsLocal(f, port);
    }
  }

  lemma TcpIsLocal(f: Frame, port: Bytes2)
    requires |f| >= INNER && DestPort(f).Some? && Protocol(f) == PROTO_TCP && port != NO_PORT
    ensures OnlyPortAndCheck(f, WithPort(f, port), L4(f) + 2, L4(f) + 16, port)
  {
    TcpPort(f, port);
    var c := TcpRewrite(Raw(Field2(f, L4(f) + 2)), Raw(port), Raw(Field2(f, L4(f) + 16)));
    TwoStores(f, WithPort(f, port), L4(f) + 16, RawBytes(c), L4(f) + 2, port);
  }

  lemma UdpIsLocal(f: Frame, port: Bytes2)
    requires |f| >= INNER && DestPort(f).Some? && Protocol(f) == PROTO_UDP && port != NO_PORT
    ensures OnlyPortAndCheck(f, WithPort(f, port), L4(f) + 2, L4(f) + 6, port)
  {
    UdpPort(f, port);
    var c := UdpRewrite(Raw(Field2(f, L4(f) + 2)), Raw(port), Raw(Field2(f, L4(f) + 6)));
    TwoStores(f, WithPort(f, port), L4(f) + 6, RawBytes(c), L4(f) + 2, port);
  }

  lemma TwoStores(f: Frame, g: Frame, q: nat, a: Bytes2, p: nat, b: Bytes2)
    requires q + 2 <= |f| && p + 2 <= |f| && g == Splice(Splice(f, q, a), p, b)
    ensures OnlyPortAndCheck(f, g, p, q, b)
  {
    SpliceAt(f, q, a);
    SpliceAt(Splice(f, q, a), p, b);
  }

  /** A frame that is forwarded keeps everything decapsulation looks at. */
  lemma ForwardedShape(f: Frame, backends: BackendMap, headroom: nat)
    requires |f| >= INNER && Encapsulated(f, backends, headroom).action == XdpTx
    ensures Decide(f, backends).Forward? && headroom >= IP_LEN && Ihl(f, ETH_LEN) >= 5
    ensures var g := WithPort(f, Decide(f, backends).backend.port);
            && g[..INNER] == f[..INNER]
            && Encapsulated(f, backends, headroom).frame == Wrapped(g, Decide(f, backends).backend.ip)
  {
    RewriteIsLocal(f, Decide(f, backends).backend.port);
  }

  /** The fields of a wrapped frame. */
  lemma WrappedFields(g: Frame, backend: Bytes4)
    requires |g| >= INNER
    ensures var e := Wrapped(g, backend);
            && e[..ETH_LEN] == g[..ETH_LEN] && e[INNER..] == g[ETH_LEN..]
            && e[ETH_LEN] == 0x45 && Protocol(e) == PROTO_IPIP
            && e[15] == 0 && e[18] == 0 && e[19] == 0 && e[20] == 0 && e[21] == 0 && e[22] == 64
            && Field2(e, ETH_LEN + 2) == NetBytes(OuterLength(g))
            && Net(Field2(e, ETH_LEN + 2)) == OuterLength(g)
            && Field4(e, ETH_LEN + 12) == Field4(g, ETH_LEN + 16) && Field4(e, ETH_LEN + 16) == backend
  {
    var e, length := Wrapped(g, backend), NetBytes(OuterLength(g));
    WrappedBytes(g, backend);
    HeaderAt(length, Field4(g, ETH_LEN + 16), backend);
    SameField(e, ETH_LEN + 12, Field4(g, ETH_LEN + 16));
    SameField(e, ETH_LEN + 16, backend);
    assert Field2(e, ETH_LEN + 2) == [e[16], e[17]] == length;
    NetRoundTrip(OuterLength(g));
  }

  lemma NetRoundTrip(w: u16)
    ensures Net(NetBytes(w)) == w
  {
  }

  /** Byte by byte; the checksum field is 24 and 25. */
  lemma WrappedBytes(g: Frame, backend: Bytes4)
    requires |g| >= INNER
    ensures var e, hb := Wrapped(g, backend), OuterFields(g, backend);
            && (forall i :: ETH_LEN <= i < INNER && i != 24 && i != 25 ==> e[i] == hb[i - ETH_LEN])
            && e[..ETH_LEN] == g[..ETH_LEN] && e[INNER..] == g[ETH_LEN..]
  {
    var hb := OuterFields(g, backend);
    var h := g[..ETH_LEN] + hb + g[ETH_LEN..];
    HeaderSumFits(h, ETH_LEN);
    SpliceAt(h, 24, RawBytes(SingleFold(Sum(HeaderWords(h, ETH_LEN)))));
    var e := Wrapped(g, backend);
    forall i | ETH_LEN <= i < INNER && i != 24 && i != 25 ensures e[i] == hb[i - ETH_LEN] {
      assert e[i] == h[i];
    }
    assert e[..24][..ETH_LEN] == h[..24][..ETH_LEN];
    assert e[26..][8..] == h[26..][8..];
  }

  lemma HeaderAt(length: Bytes2, source: Bytes4, destination: Bytes4)
    ensures var h := HeaderBytes(length, source, destination);
            && h[0] == 0x45 && h[1] == 0 && h[2] == length[0] && h[3] == length[1]
            && h[4] == 0 && h[5] == 0 && h[6] == 0 && h[7] == 0 && h[8] == 64 && h[9] == PROTO_IPIP
            && h[12] == source[0] && h[13] == source[1] && h[14] == source[2] && h[15] == source[3]
            && h[16] == destination[0] && h[17] == destination[1] && h[18] == destination[2] && h[19] == destination[3]
  {
  }

  /** A field is known by its four bytes. */
  lemma SameField(f: Frame, off: nat, b: Bytes4)
    requires off + 4 <= |f|
    requires f[off] == b[0] && f[off + 1] == b[1] && f[off + 2] == b[2] && f[off + 3] == b[3]
    ensures Field4(f, off) == b
  {
  }

  /** Round trip: whatever is forwarded comes out of decapsulation again. The receiver
      does not drop it, and gets the original frame with the MACs exchanged and the
      configured port. */
  lemma RoundTrip(f: Frame, backends: BackendMap, headroom: nat, socket: bool)
    requires |f| >= INNER && Encapsulated(f, backends, headroom).action == XdpTx
    ensures Decide(f, backends).Forward?
    ensures var e := Encapsulated(f, backends, headroom).frame;
            var back := Decapsulated(e, socket);
            && |e| == |f| + IP_LEN && Protocol(e) == PROTO_IPIP
            && back.action != XdpDrop
            && back.frame == SwapMac(WithPort(f, Decide(f, backends).backend.port))
  {
    ForwardedShape(f, backends, headroom);
    var g := WithPort(f, Decide(f, backends).backend.port);
    WrappedFields(g, Decide(f, backends).backend.ip);
    UnwrapsAgain(f, g, Encapsulated(f, backends, headroom).frame, socket);
  }

  lemma UnwrapsAgain(f: Frame, g: Frame, e: Frame, socket: bool)
    requires |f| >= INNER && Ihl(f, ETH_LEN) >= 5 && DestPort(f).Some?
    requires |g| == |f| && g[..INNER] == f[..INNER]
    requires |e| == |g| + IP_LEN && e[..ETH_LEN] == g[..ETH_LEN] && e[INNER..] == g[ETH_LEN..] && e[ETH_LEN] == 0x45
    ensures Decapsulated(e, socket).action != XdpDrop && Decapsulated(e, socket).frame == SwapMac(g)
  {
    assert e[INNER] == f[ETH_LEN] by {
      assert e[INNER..][0] == g[ETH_LEN..][0];
      assert g[..INNER][ETH_LEN] == f[..INNER][ETH_LEN];
    }
    assert e[INNER + 9] == f[ETH_LEN + 9] by {
      assert e[INNER..][9] == g[ETH_LEN..][9];
      assert g[..INNER][ETH_LEN + 9] == f[..INNER][ETH_LEN + 9];
    }
    assert Strippable(e);
    assert e[..ETH_LEN] + e[INNER..] == g;
  }

  lemma ForwardedFields(f: Frame, backends: BackendMap, headroom: nat)
    requires |f| >= INNER && Encapsulated(f, backends, headroom).action == XdpTx
    ensures var d := Decide(f, backends);
            && d.Forward?
            && var g := WithPort(f, d.backend.port);
            && Encapsulated(f, backends, headroom).frame == Wrapped(g, d.backend.ip)
            && Field2(g, ETH_LEN + 2) == Field2(f, ETH_LEN + 2) && Field4(g, ETH_LEN + 16) == Field4(f, ETH_LEN + 16)
  {
    ForwardedShape(f, backends, headroom);
    var g := WithPort(f, Decide(f, backends).backend.port);
    assert g[..INNER][ETH_LEN + 2..ETH_LEN + 4] == f[..INNER][ETH_LEN + 2..ETH_LEN + 4];
    assert g[..INNER][ETH_LEN + 16..ETH_LEN + 20] == f[..INNER][ETH_LEN + 16..ETH_LEN + 20];
  }

  /** The outer length field is the length of the packet behind the Ethernet header
      exactly when the packet came with its true length in the inner field, and that is
      at most 65515. */
  lemma OuterLengthAgrees(f: Frame, backends: BackendMap, headroom: nat)
    requires |f| >= INNER && Encapsulated(f, backends, headroom).action == XdpTx
    ensures var (e, length) := (Encapsulated(f, backends, headroom).frame, Net(Field2(f, ETH_LEN + 2)));
            Net(Field2(e, ETH_LEN + 2)) == |e| - ETH_LEN <==> length == |f| - ETH_LEN && length <= 65515
  {
    ForwardedFields(f, backends, headroom);
    var d := Decide(f, backends).backend;
    OuterLengthOf(WithPort(f, d.port), d.ip);
    LengthsAgree(Net(Field2(f, ETH_LEN + 2)), |f| - ETH_LEN);
  }

  lemma OuterLengthOf(g: Frame, backend: Bytes4)
    requires |g| >= INNER
    ensures var e := Wrapped(g, backend);
            |e| == |g| + IP_LEN && Net(Field2(e, ETH_LEN + 2)) == (Net(Field2(g, ETH_LEN + 2)) + IP_LEN) % U16
  {
    WrappedFields(g, backend);
  }

  lemma LengthsAgree(length: u16, n: nat)
    ensures (length + IP_LEN) % U16 == n + IP_LEN <==> length == n && length <= 65515
  {
    if length > 65515 {
      ModUnique(length + IP_LEN, U16, 1, length + IP_LEN - U16);
    } else {
      ModUnique(length + IP_LEN, U16, 0, length + IP_LEN);
    }
  }

  /** The ten words of an outer header without its checksum, added up. */
  function OuterSum(length: u16, vip: Bytes4, backend: Bytes4): nat {
    0x45 + Swap16((length + IP_LEN) % U16) + 0x440 +
    Raw(vip[..2]) + Raw(vip[2..]) + Raw(backend[..2]) + Raw(backend[2..])
  }

  lemma OuterWords(g: Frame, backend: Bytes4)
    requires |g| >= INNER
    ensures var h := g[..ETH_LEN] + OuterFields(g, backend) + g[ETH_LEN..];
            Sum(HeaderWords(h, ETH_LEN)) == OuterSum(Net(Field2(g, ETH_LEN + 2)), Field4(g, ETH_LEN + 16), backend)
  {
    var hb := OuterFields(g, backend);
    Unchecked(g[..ETH_LEN], hb, g[ETH_LEN..]);
    HeaderBytesSum(NetBytes(OuterLength(g)), Field4(g, ETH_LEN + 16), backend);
    NetBytesWord(OuterLength(g));
  }

  /** A header whose checksum field is 0 is its own header words. */
  lemma Unchecked(eth: Frame, hb: Frame, rest: Frame)
    requires |eth| == ETH_LEN && |hb| == IP_LEN && hb[10] == hb[11] == 0
    ensures HeaderWords(eth + hb + rest, ETH_LEN) == WordsLE(hb)
  {
    assert (eth + hb + rest)[ETH_LEN..ETH_LEN + IP_LEN][10 := 0][11 := 0] == hb;
  }

  lemma NetBytesWord(w: u16)
    ensures Word(NetBytes(w)[0], NetBytes(w)[1]) == Swap16(w)
  {
  }

  lemma HeaderBytesSum(length: Bytes2, source: Bytes4, destination: Bytes4)
    ensures Sum(WordsLE(HeaderBytes(length, source, destination))) ==
            0x45 + Word(length[0], length[1]) + 0x440 +
            Raw(source[..2]) + Raw(source[2..]) + Raw(destination[..2]) + Raw(destination[2..])
  {
    TenWords(HeaderBytes(length, source, destination));
  }

  /** The outer header of a forwarded packet verifies exactly when inner length, VIP and
      backend address add up right. */
  lemma OuterHeaderVerifiesIff(f: Frame, backends: BackendMap, headroom: nat)
    requires |f| >= INNER && Encapsulated(f, backends, headroom).action == XdpTx
    ensures Decide(f, backends).Forward?
    ensures var (e, vip) := (Encapsulated(f, backends, headroom).frame, Field4(f, ETH_LEN + 16));
            Verifies(WordsLE(e[ETH_LEN..INNER])) <==>
            FoldsOnce(OuterSum(Net(Field2(f, ETH_LEN + 2)), vip, Decide(f, backends).backend.ip))
  {
    ForwardedFields(f, backends, headroom);
    var d := Decide(f, backends).backend;
    var g := WithPort(f, d.port);
    HeaderVerifiesIff(g[..ETH_LEN] + OuterFields(g, d.ip) + g[ETH_LEN..], ETH_LEN);
    OuterWords(g, d.ip);
  }

  /** A TCP SYN of 40 bytes to VIP 203.0.113.10, and a backend at 198.255.120.180. */
  function Syn(): (f: Frame)
    ensures |f| == 54
  {
    [2, 0, 0, 0, 0, 1, 2, 0, 0, 0, 0, 2, 8, 0] +
    [0x45, 0, 0, 40, 0, 0, 0x40, 0, 64, PROTO_TCP, 0, 0, 198, 51, 100, 7, 203, 0, 113, 10] +
    [0xC3, 0x50, 0, 80, 0, 0, 0, 1, 0, 0, 0, 0, 0x50, 2, 0xFF, 0xFF, 0, 0, 0, 0]
  }

  function OneBackend(): BackendMap {
    map[BackendKey([203, 0, 113, 10], NO_PORT, 0) := BackendInfo([198, 255, 120, 180], NO_PORT, 0)]
  }

  /** Packets on the wrong side of the condition exist: this one is sent on with an outer
      header that does not verify. */
  lemma SingleFoldCanFail()
    ensures Encapsulated(Syn(), OneBackend(), IP_LEN).action == XdpTx
    ensures !Verifies(WordsLE(Encapsulated(Syn(), OneBackend(), IP_LEN).frame[ETH_LEN..INNER]))
  {
    SynIsForwarded();
    OuterHeaderVerifiesIff(Syn(), OneBackend(), IP_LEN);
    CarriesTwice();
  }

  lemma CarriesTwice()
    ensures !FoldsOnce(OuterSum(40, [203, 0, 113, 10], [198, 255, 120, 180]))
  {
    assert Swap16(60) == 0x3C00;
    assert OuterSum(40, [203, 0, 113, 10], [198, 255, 120, 180]) == 0x1FFFF;
  }

  lemma SynFields()
    ensures var f := Syn();
            && f[ETH_LEN] == 0x45 && f[ETH_LEN + 9] == PROTO_TCP && f[36] == 0 && f[37] == 80
            && Field2(f, ETH_LEN + 2) == [0, 40] && Field4(f, ETH_LEN + 16) == [203, 0, 113, 10]
  {
  }

  lemma SynIsForwarded()
    ensures Decide(Syn(), OneBackend()) == Forward(BackendInfo([198, 255, 120, 180], NO_PORT, 0))
    ensures Net(Field2(Syn(), ETH_LEN + 2)) == 40 && Field4(Syn(), ETH_LEN + 16) == [203, 0, 113, 10]
  {
    SynFields();
    ToPort80(Syn());
    assert BackendKey([203, 0, 113, 10], [0, 80], PROTO_TCP) !in OneBackend();
  }

  lemma ToPort80(f: Frame)
    requires |f| == 54 && f[ETH_LEN] == 0x45 && f[ETH_LEN + 9] == PROTO_TCP && f[36] == 0 && f[37] == 80
    ensures Ihl(f, ETH_LEN) == 5 && DestPort(f) == Some([0, 80])
  {
    assert L4(f) == 34 && L4(f) + TCP_LEN <= |f|;
    assert f[36..38] == [f[36], f[37]];
    assert DestPort(f) == Some(Field2(f, 36));
  }

  /** The transport checksum survives the port rewrite: with `head` the words of the
      pseudo-header, whose protocol word is not 0, and the segment reaching to `end`, it
      verifies afterwards exactly when it did before. A UDP datagram sent without a
      checksum stays without one. */
  lemma RewriteKeepsTransportChecksum(f: Frame, port: Bytes2, head: Words, end: nat)
    requires |f| >= INNER && DestPort(f).Some? && Ihl(f, ETH_LEN) >= 5
    requires Protocol(f) == PROTO_TCP || Protocol(f) == PROTO_UDP
    requires L4(f) + (if Protocol(f) == PROTO_TCP then TCP_LEN else UDP_LEN) <= end <= |f|
    requires |head| == 6 && head[4] != 0
    ensures var g := WithPort(f, port);
            var check := L4(f) + CheckOffset(Protocol(f));
            if Protocol(f) == PROTO_UDP && Field2(f, check) == [0, 0] then Field2(g, check) == [0, 0]
            else
              && (Protocol(f) == PROTO_UDP ==> Field2(g, check) != [0, 0])
              && (Verifies(head + WordsLE(g[L4(f)..end])) <==> Verifies(head + WordsLE(f[L4(f)..end])))
  {
    if port != NO_PORT {
      if Protocol(f) == PROTO_TCP {
        TcpChecksumKept(f, port, head, end);
      } else {
        UdpChecksumKept(f, port, head, end);
      }
    }
  }

  lemma TcpChecksumKept(f: Frame, port: Bytes2, head: Words, end: nat)
    requires |f| >= INNER && Protocol(f) == PROTO_TCP && L4(f) + TCP_LEN <= end <= |f|
    requires |head| == 6 && head[4] != 0 && port != NO_PORT
    ensures Verifies(head + WordsLE(WithPort(f, port)[L4(f)..end])) <==> Verifies(head + WordsLE(f[L4(f)..end]))
  {
    var off := L4(f);
    var from, to, before := Raw(Field2(f, off + 2)), Raw(port), Raw(Field2(f, off + 16));
    var c := TcpRewrite(from, to, before);
    RewrittenSegment(f, off, end, 8, head, c, port);
    TcpKept(head + WordsLE(f[off..end]), from, to, before);
  }

  lemma TcpKept(ws: Words, from: u16, to: u16, c: u16)
    requires |ws| > 14 && ws[4] != 0 && ws[7] == from && ws[14] == c
    ensures Verifies(ws[7 := to][14 := TcpRewrite(from, to, c)]) <==> Verifies(ws)
  {
    TcpRewriteKeepsValidity(ws, 14, 7, to, 4);
  }

  /** A UDP datagram from `off` to `end` in f, rewritten in g: no checksum stays no checksum,
      a checksum stays one, and verifies if and only if it did. */
  ghost predicate UdpSound(f: Frame, g: Frame, off: nat, end: nat, head: Words)
    requires off + UDP_LEN <= end <= |f| == |g|
  {
    && (Field2(g, off + 6) == [0, 0] <==> Field2(f, off + 6) == [0, 0])
    && (Field2(f, off + 6) != [0, 0] ==>
          (Verifies(head + WordsLE(g[off..end])) <==> Verifies(head + WordsLE(f[off..end]))))
  }

  lemma UdpChecksumKept(f: Frame, port: Bytes2, head: Words, end: nat)
    requires |f| >= INNER && Protocol(f) == PROTO_UDP && L4(f) + UDP_LEN <= end <= |f|
    requires |head| == 6 && port != NO_PORT
    ensures UdpSound(f, WithPort(f, port), L4(f), end, head)
  {
    var c := UdpNewCheck(f, port, head, end);
    UdpStored(f, WithPort(f, port), L4(f), end, head, c, port);
  }

  /** The checksum the rewrite stores, by what it is good for. */
  lemma UdpNewCheck(f: Frame, port: Bytes2, head: Words, end: nat) returns (c: u16)
    requires |f| >= INNER && Protocol(f) == PROTO_UDP && L4(f) + UDP_LEN <= end <= |f|
    requires |head| == 6 && port != NO_PORT
    ensures WithPort(f, port) == Splice(Splice(f, L4(f) + 6, RawBytes(c)), L4(f) + 2, port)
    ensures c == 0 <==> Raw(Field2(f, L4(f) + 6)) == 0
    ensures var ws := head + WordsLE(f[L4(f)..end]);
            && |ws| > 9
            && (Raw(Field2(f, L4(f) + 6)) != 0 ==> (Verifies(ws[7 := Raw(port)][9 := c]) <==> Verifies(ws)))
  {
    var off := L4(f);
    var from, before := Raw(Field2(f, off + 2)), Raw(Field2(f, off + 6));
    c := UdpRewrite(from, Raw(port), before);
    SegmentWords(f, off, end, 3, head, c, Raw(port));
    UdpKept(head + WordsLE(f[off..end]), from, Raw(port), before);
  }

  lemma UdpStored(f: Frame, g: Frame, off: nat, end: nat, head: Words, c: u16, port: Bytes2)
    requires off + UDP_LEN <= end <= |f| && |head| == 6
    requires g == Splice(Splice(f, off + 6, RawBytes(c)), off + 2, port)
    requires c == 0 <==> Raw(Field2(f, off + 6)) == 0
    requires var ws := head + WordsLE(f[off..end]);
             && |ws| > 9
             && (Raw(Field2(f, off + 6)) != 0 ==> (Verifies(ws[7 := Raw(port)][9 := c]) <==> Verifies(ws)))
    ensures UdpSound(f, g, off, end, head)
  {
    RewrittenSegment(f, off, end, 3, head, c, port);
    var ws := head + WordsLE(f[off..end]);
    SoundByWords(f, g, off, end, head, ws, ws[7 := Raw(port)][9 := c]);
  }

  lemma SoundByWords(f: Frame, g: Frame, off: nat, end: nat, head: Words, ws: Words, us: Words)
    requires off + UDP_LEN <= end <= |f| == |g|
    requires ws == head + WordsLE(f[off..end]) && us == head + WordsLE(g[off..end])
    requires Raw(Field2(g, off + 6)) == 0 <==> Raw(Field2(f, off + 6)) == 0
    requires Raw(Field2(f, off + 6)) != 0 ==> (Verifies(us) <==> Verifies(ws))
    ensures UdpSound(f, g, off, end, head)
  {
    ZeroField(f, off + 6);
    ZeroField(g, off + 6);
  }

  lemma UdpKept(ws: Words, from: u16, to: u16, c: u16)
    requires |ws| > 9 && ws[7] == from && ws[9] == c
    ensures var r := UdpRewrite(from, to, c);
            && (r == 0 <==> c == 0)
            && (c != 0 ==> (Verifies(ws[7 := to][9 := r]) <==> Verifies(ws)))
  {
    UdpRewriteKeepsValidity(ws, 9, 7, to);
  }

  /** A rewritten segment behind its six-word pseudo-header is the old one with the port
      and the checksum word stored. */
  lemma RewrittenSegment(f: Frame, off: nat, end: nat, k: nat, head: Words, c: u16, port: Bytes2)
    requires 1 < k && off + 2 * k + 2 <= end <= |f| && |head| == 6
    ensures var g := Splice(Splice(f, off + 2 * k, RawBytes(c)), off + 2, port);
            var ws := head + WordsLE(f[off..end]);
            && 6 + k < |ws| && ws[4] == head[4]
            && ws[7] == Raw(Field2(f, off + 2)) && ws[6 + k] == Raw(Field2(f, off + 2 * k))
            && head + WordsLE(g[off..end]) == ws[7 := Raw(port)][6 + k := c]
            && Raw(Field2(g, off + 2 * k)) == c
  {
    SegmentStores(f, off, end, k, c, port);
    SegmentWords(f, off, end, k, head, c, Raw(port));
  }

  lemma SegmentWords(f: Frame, off: nat, end: nat, k: nat, head: Words, c: u16, to: u16)
    requires 1 < k && off + 2 * k + 2 <= end <= |f| && |head| == 6
    ensures var ws := head + WordsLE(f[off..end]);
            && 6 + k < |ws| && k < |WordsLE(f[off..end])|
            && ws[4] == head[4] && ws[7] == Raw(Field2(f, off + 2)) && ws[6 + k] == Raw(Field2(f, off + 2 * k))
            && head + WordsLE(f[off..end])[k := c][1 := to] == ws[7 := to][6 + k := c]
  {
    var seg: Frame := f[off..end];
    WordAt(seg, 1);
    WordAt(seg, k);
  }

  lemma ZeroField(f: Frame, off: nat)
    requires off + 2 <= |f|
    ensures Raw(Field2(f, off)) == 0 <==> Field2(f, off) == [0, 0]
  {
  }

  /** A two-byte store, seen in a slice. */
  lemma StoreInSlice(f: Frame, off: nat, end: nat, p: nat, b: Bytes2)
    requires off <= p && p + 2 <= end <= |f|
    ensures Splice(f, p, b)[off..end] == f[off..end][p - off := b[0]][p - off + 1 := b[1]]
    ensures Field2(Splice(f, p, b), p) == b
  {
    SpliceAt(f, p, b);
    var r := Splice(f, p, b);
    assert r[p] == r[p..p + 2][0] == b[0] && r[p + 1] == r[p..p + 2][1] == b[1];
  }

  /** The two stores of the rewrite, seen as word stores in the segment. */
  lemma SegmentStores(f: Frame, off: nat, end: nat, k: nat, c: u16, port: Bytes2)
    requires 1 < k && off + 2 * k + 2 <= end <= |f|
    ensures var g := Splice(Splice(f, off + 2 * k, RawBytes(c)), off + 2, port);
            && Raw(Field2(g, off + 2 * k)) == c
            && k < |WordsLE(f[off..end])|
            && WordsLE(g[off..end]) == WordsLE(f[off..end])[k := c][1 := Raw(port)]
  {
    var (seg: Frame, w) := (f[off..end], Raw(port));
    var g1: Frame := Splice(f, off + 2 * k, RawBytes(c));
    StoreInSlice(f, off, end, off + 2 * k, RawBytes(c));
    WordStore(seg, k, c);
    StoreInSlice(g1, off, end, off + 2, port);
    assert port[0] == w % 256 && port[1] == w / 256;
    WordStore(g1[off..end], 1, w);
    OtherField(g1, off + 2, port, off + 2 * k);
  }

  lemma OtherField(f: Frame, p: nat, b: Bytes2, q: nat)
    requires p + 2 <= q && q + 2 <= |f|
    ensures Field2(Splice(f, p, b), q) == Field2(f, q)
  {
    SpliceAt(f, p, b);
  }
}
