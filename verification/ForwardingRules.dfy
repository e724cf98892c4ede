/** What encapsulation and decapsulation do to a packet, in the bytes of the packet itself:
    every verdict with its exact condition, the backend a packet goes to, and what a backend's
    answer changes in the cache. */
module ForwardingRules {
  import opened A2sCache
  import opened Bits
  import opened Packet
  import opened Routing
  import opened Wrappers

  // ------------------------------------------------------------------ encapsulation

  /** The destination port as it lies in a TCP or UDP packet, and zero in others. */
  function PortField(f: Frame): Bytes2
    requires |f| >= 34
  {
    var at := 14 + 4 * (f[14] % 16);
    if (f[23] == 6 || f[23] == 17) && at + 8 <= |f| then f[at + 2..at + 4] else [0, 0]
  }

  /** (vip, port, protocol), and the entry for all of a VIP. */
  function ExactKey(f: Frame): BackendKey
    requires |f| >= 34
  {
    BackendKey(f[30..34], PortField(f), f[23])
  }

  function VipKey(f: Frame): BackendKey
    requires |f| >= 34
  {
    BackendKey(f[30..34], [0, 0], 0)
  }

  /** What stays with the host: a packet whose transport header is cut off, one to port 22 or
      9090, one for which neither (vip, port, protocol) nor (vip, 0, 0) has an entry, and one
      whose entry is for WireGuard. */
  predicate ForHost(f: Frame, backends: BackendMap)
    requires |f| >= 34
  {
    var (at, number) := (14 + 4 * (f[14] % 16), 256 * PortField(f)[0] as int + PortField(f)[1]);
    || (f[23] == 6 && at + 20 > |f|) || (f[23] == 17 && at + 8 > |f|)
    || number == 22 || number == 9090
    || if ExactKey(f) in backends then backends[ExactKey(f)].kind == 1
       else VipKey(f) !in backends || backends[VipKey(f)].kind == 1
  }

  /** The verdicts. */
  lemma EncapsulationVerdicts(f: Frame, backends: BackendMap, headroom: nat)
    requires |f| >= 34
    ensures var (ihl, out) := (f[14] % 16, Encapsulated(f, backends, headroom));
            && (out.action == XdpPass <==> ihl >= 5 && ForHost(f, backends))
            && (out.action == XdpDrop <==> ihl < 5 || (!ForHost(f, backends) && headroom < 20))
            && (out.action == XdpTx <==> ihl >= 5 && !ForHost(f, backends) && headroom >= 20)
            && (out.action == XdpPass || ihl < 5 ==> out.frame == f)
  {
    DecidedByBytes(f, backends);
  }

  lemma DecidedByBytes(f: Frame, backends: BackendMap)
    requires |f| >= INNER
    ensures f[14] % 16 < 5 ==> Decide(f, backends) == Stop(XdpDrop)
    ensures f[14] % 16 >= 5 && ForHost(f, backends) ==> Decide(f, backends) == Stop(XdpPass)
    ensures f[14] % 16 >= 5 && !ForHost(f, backends) ==> Decide(f, backends).Forward?
  {
    if f[14] % 16 >= 5 && DestPort(f).Some? { PortIsField(f); }
  }

  lemma PortIsField(f: Frame)
    requires |f| >= INNER && DestPort(f).Some?
    ensures DestPort(f) == Some(PortField(f))
    ensures Net(PortField(f)) == 256 * PortField(f)[0] as int + PortField(f)[1]
  {
  }

  /** The outer destination is `ip`, and a TCP or UDP packet goes to `port`, unless that is 0. */
  predicate SentTo(e: Frame, f: Frame, ip: Bytes4, port: Bytes2)
    requires |e| == |f| + 20 && |f| >= 34
  {
    var at := 14 + 4 * (f[14] % 16);
    && e[30..34] == ip
    && (f[23] == 6 || f[23] == 17 ==>
          at + 8 <= |f| && e[at + 22..at + 24] == if port == [0, 0] then f[at + 2..at + 4] else port)
  }

  /** Where a transmitted packet goes: to the backend of its own (vip, port, protocol) if that
      has an entry, whatever else the map holds, and to that of (vip, 0, 0) if not. */
  lemma BackendIsTheEntry(f: Frame, backends: BackendMap, headroom: nat)
    requires |f| >= 34 && Encapsulated(f, backends, headroom).action == XdpTx
    ensures ExactKey(f) in backends || VipKey(f) in backends
    ensures var e := Encapsulated(f, backends, headroom).frame;
            && |e| == |f| + 20
            && (ExactKey(f) in backends ==> SentTo(e, f, backends[ExactKey(f)].ip, backends[ExactKey(f)].port))
            && (ExactKey(f) !in backends ==> SentTo(e, f, backends[VipKey(f)].ip, backends[VipKey(f)].port))
  {
    var d := ForwardedTo(f, backends, headroom);
    EntryChosen(f, backends, d);
    PortBehind(f, d.ip, d.port);
  }

  lemma EntryChosen(f: Frame, backends: BackendMap, d: BackendInfo)
    requires |f| >= INNER && Decide(f, backends) == Forward(d)
    ensures (ExactKey(f) in backends && d == backends[ExactKey(f)]) ||
            (ExactKey(f) !in backends && VipKey(f) in backends && d == backends[VipKey(f)])
  {
  }

  lemma PortBehind(f: Frame, ip: Bytes4, port: Bytes2)
    requires |f| >= INNER && DestPort(f).Some? && Ihl(f, ETH_LEN) >= 5
    ensures SentTo(Wrapped(WithPort(f, port), ip), f, ip, port)
  {
    var g, at := WithPort(f, port), L4(f);
    WrappedFields(g, ip);
    RewriteIsLocal(f, port);
    if Protocol(f) == 6 || Protocol(f) == 17 {
      SliceBehind(Wrapped(g, ip), g, at + 2);
    }
  }

  lemma SliceBehind(e: Frame, g: Frame, at: nat)
    requires |e| == |g| + 20 && |g| >= INNER && e[INNER..] == g[ETH_LEN..] && 14 <= at && at + 2 <= |g|
    ensures e[at + 20..at + 22] == g[at..at + 2]
  {
    Behind(e, g, INNER, ETH_LEN);
  }

  lemma ForwardedTo(f: Frame, backends: BackendMap, headroom: nat) returns (d: BackendInfo)
    requires |f| >= INNER && Encapsulated(f, backends, headroom).action == XdpTx
    ensures Decide(f, backends) == Forward(d) && DestPort(f).Some? && Ihl(f, ETH_LEN) >= 5
    ensures Encapsulated(f, backends, headroom).frame == Wrapped(WithPort(f, d.port), d.ip)
  {
    d := Decide(f, backends).backend;
  }

  /** Frames that agree from i and j on agree byte for byte there. */
  lemma Behind(e: Frame, g: Frame, i: nat, j: nat)
    requires i <= |e| && j <= |g| && e[i..] == g[j..]
    ensures |e| - i == |g| - j && forall k :: i <= k < |e| ==> e[k] == g[k - i + j]
  {
    forall k | i <= k < |e| ensures e[k] == g[k - i + j] {
      assert e[i..][k - i] == g[j..][k - i];
    }
  }

  /** Behind the outer header the packet as it was, but for the words at p and q. */
  ghost predicate SameBut(e: Frame, f: Frame, p: nat, q: nat)
    requires |e| == |f| + 20
  {
    forall i :: 14 <= i < |f| && i != p && i != p + 1 && i != q && i != q + 1 ==> e[i + 20] == f[i]
  }

  /** The Ethernet header, an IPIP header of 20 bytes from the VIP with TTL 64, and the packet
      with the words of its port and its transport checksum left open. */
  ghost predicate Tunnelled(e: Frame, f: Frame)
    requires |e| == |f| + 20 && |f| >= 34
  {
    var (at, length) := (14 + 4 * (f[14] % 16), (256 * f[16] as int + f[17] + 20) % 65536);
    && e[..14] == f[..14]
    && e[14..16] == [0x45, 0] && e[16..18] == [length / 256, length % 256]
    && e[18..24] == [0, 0, 0, 0, 64, 4] && e[26..30] == f[30..34]
    && e[34..54] == f[14..34]
    && (f[23] != 6 && f[23] != 17 ==> e[34..] == f[14..])
    && (f[23] == 6 ==> SameBut(e, f, at + 2, at + 16))
    && (f[23] == 17 ==> SameBut(e, f, at + 2, at + 6))
  }

  /** The transmitted packet, byte for byte but for the checksums, the port and the backend's
      address. */
  lemma EncapsulatedBytes(f: Frame, backends: BackendMap, headroom: nat)
    requires |f| >= 34 && Encapsulated(f, backends, headroom).action == XdpTx
    ensures var e := Encapsulated(f, backends, headroom).frame;
            |e| == |f| + 20 && Tunnelled(e, f)
  {
    var d := ForwardedTo(f, backends, headroom);
    ForwardedShape(f, backends, headroom);
    RewriteIsLocal(f, d.port);
    TunnelledBy(f, WithPort(f, d.port), d.ip, d.port);
  }

  lemma TunnelledBy(f: Frame, g: Frame, ip: Bytes4, port: Bytes2)
    requires |g| == |f| >= INNER && g[..INNER] == f[..INNER]
    requires port == NO_PORT || (Protocol(f) != 6 && Protocol(f) != 17) ==> g == f
    requires port != NO_PORT && (Protocol(f) == 6 || Protocol(f) == 17) ==>
               L4(f) + 4 <= |f| && OnlyPortAndCheck(f, g, L4(f) + 2, L4(f) + CheckOffset(Protocol(f)), port)
    ensures Tunnelled(Wrapped(g, ip), f)
  {
    OuterHeader(f, g, ip);
    InnerPacket(Wrapped(g, ip), g, f, L4(f), port);
  }

  lemma OuterHeader(f: Frame, g: Frame, backend: Bytes4)
    requires |f| == |g| >= INNER && g[..INNER] == f[..INNER]
    ensures var (e, length) := (Wrapped(g, backend), (256 * f[16] as int + f[17] + 20) % 65536);
            && e[..14] == f[..14] && e[34..54] == f[14..34] && e[34..] == g[14..]
            && e[14..16] == [0x45, 0] && e[16..18] == [length / 256, length % 256]
            && e[18..24] == [0, 0, 0, 0, 64, 4] && e[26..30] == f[30..34]
  {
    var e := Wrapped(g, backend);
    WrappedFields(g, backend);
    assert e[14..16] == [0x45, 0] && e[18..24] == [0, 0, 0, 0, 64, 4];
    SamePart(f, g, 0, 14);
    SamePart(f, g, 14, 34);
    SamePart(f, g, 16, 18);
    SamePart(f, g, 30, 34);
    assert e[34..54] == e[34..][..20] == g[14..][..20] == g[14..34];
  }

  lemma SamePart(f: Frame, g: Frame, i: nat, j: nat)
    requires i <= j <= INNER && |f| == |g| >= INNER && g[..INNER] == f[..INNER]
    ensures g[i..j] == f[i..j]
  {
    assert g[i..j] == g[..INNER][i..j] && f[i..j] == f[..INNER][i..j];
  }

  lemma InnerPacket(e: Frame, g: Frame, f: Frame, at: nat, port: Bytes2)
    requires |e| == |f| + 20 && |g| == |f| >= INNER && e[34..] == g[14..] && at == L4(f)
    requires port == NO_PORT || (Protocol(f) != 6 && Protocol(f) != 17) ==> g == f
    requires port != NO_PORT && (Protocol(f) == 6 || Protocol(f) == 17) ==>
               at + 4 <= |f| && OnlyPortAndCheck(f, g, at + 2, at + CheckOffset(Protocol(f)), port)
    ensures Protocol(f) != 6 && Protocol(f) != 17 ==> e[34..] == f[14..]
    ensures Protocol(f) == 6 ==> SameBut(e, f, at + 2, at + 16)
    ensures Protocol(f) == 17 ==> SameBut(e, f, at + 2, at + 6)
  {
    Behind(e, g, 34, 14);
  }

  // ------------------------------------------------------------------ decapsulation

  /** Both IP headers, and the UDP header if there is one, lie in the frame. */
  predicate WholeInner(f: Frame)
    requires |f| >= 34
  {
    var at := 14 + 4 * (f[14] % 16);
    && f[14] % 16 >= 5 && at + 20 <= |f| && f[at] % 16 >= 5
    && (f[at + 9] == 17 ==> at + 4 * (f[at] % 16) + 8 <= |f|)
  }

  /** The inner packet is UDP and its data starts with `start`. */
  predicate UdpData(f: Frame, start: seq<u8>)
    requires |f| >= 34 && WholeInner(f)
  {
    var at := 14 + 4 * (f[14] % 16);
    f[at + 9] == 17 && start <= f[at + 4 * (f[at] % 16) + 8..]
  }

  /** The verdicts. Dropped is what has no whole inner header; an A2S answer goes to the
      AF_XDP program if a socket serves the queue and to the host if none does; everything
      else goes out, without its outer header and with the MAC addresses exchanged. */
  lemma DecapsulationVerdicts(f: Frame, socket: bool)
    requires |f| >= 34
    ensures var out := Decapsulated(f, socket);
            && (out.action == XdpDrop <==> !WholeInner(f))
            && (out.action == XdpRedirect <==> WholeInner(f) && UdpData(f, [0xFF, 0xFF, 0xFF, 0xFF, 0x49]) && socket)
            && (out.action == XdpPass <==> WholeInner(f) && UdpData(f, [0xFF, 0xFF, 0xFF, 0xFF, 0x49]) && !socket)
            && (out.action == XdpTx <==> WholeInner(f) && !UdpData(f, [0xFF, 0xFF, 0xFF, 0xFF, 0x49]))
            && out.frame == if !WholeInner(f) then f else f[6..12] + f[..6] + f[12..14] + f[14 + 4 * (f[14] % 16)..]
  {
    if WholeInner(f) {
      DataStarts(f, 0x49);
      SwappedInFront(f, f[L4(f)..]);
    }
  }

  lemma DataStarts(f: Frame, code: u8)
    requires |f| >= 34 && WholeInner(f)
    ensures UdpData(f, [0xFF, 0xFF, 0xFF, 0xFF, code]) <==>
            f[L4(f) + 9] == 17 && HasPrefix(f, PayloadAt(f, L4(f))) && f[PayloadAt(f, L4(f)) + 4] == code
  {
    if f[L4(f) + 9] == 17 {
      FirstFive(f, PayloadAt(f, L4(f)), code);
    }
  }

  lemma SwappedInFront(f: Frame, rest: Frame)
    requires |f| >= ETH_LEN
    ensures SwapMac(f[..ETH_LEN] + rest) == f[6..12] + f[..6] + f[12..14] + rest
  {
  }

  lemma FirstFive(f: Frame, at: nat, code: u8)
    requires at <= |f|
    ensures HasPrefix(f, at) && f[at + 4] == code <==> [0xFF, 0xFF, 0xFF, 0xFF, code] <= f[at..]
  {
    if at + 5 <= |f| {
      assert f[at..at + 4] == f[at..][..4] && f[at + 4] == f[at..][4];
    }
  }

  /** The inner packet is a challenge from `server` with these four bytes. */
  predicate Challenges(f: Frame, server: Server, bytes: Bytes4)
    requires |f| >= 34
  {
    && WholeInner(f) && UdpData(f, [0xFF, 0xFF, 0xFF, 0xFF, 0x41])
    && var at := 14 + 4 * (f[14] % 16);
       var data := at + 4 * (f[at] % 16) + 8;
       && data + 9 <= |f| && f[data + 5..data + 9] == bytes
       && f[at + 12..at + 16] == server.ip && f[data - 8..data - 6] == server.port
  }

  /** What a packet from a backend teaches the cache: the entry of its sender, if there is one,
      takes the four bytes behind a complete challenge; nothing else changes in any entry. */
  lemma ChallengeRule(f: Frame, cache: Cache, server: Server)
    requires |f| >= 34
    ensures var cache' := AfterDecapsulation(f, cache);
            && (server in cache' <==> server in cache)
            && (server in cache ==>
                  var (e, e') := (cache[server], cache'[server]);
                  && e'.size == e.size && e'.expires == e.expires && e'.data == e.data
                  && ((Challenges(f, server, e'.challenge) && e'.challengeSet) || e' == e)
                  && (forall bytes: Bytes4 :: Challenges(f, server, bytes) ==>
                        e'.challenge == bytes && e'.challengeSet))
  {
    if WholeInner(f) {
      DataStarts(f, 0x41);
    }
  }
}
