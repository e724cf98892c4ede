/** The Steam A2S cache of the XDP program: a query is turned, inside its own frame, into
    the cached answer for its sender. */
module A2sReply {
  import opened A2sCache
  import opened Bits
  import opened Checksum
  import opened Packet
  import opened Routing
  import opened Wrappers

  const UDP_AT: nat := ETH_LEN + IP_LEN
  const PAYLOAD: nat := UDP_AT + UDP_LEN
  const COPY_LIMIT: nat := 512
  predicate Expired(e: Entry, now: u64) { now > e.expires }

  /** The first five bytes of the answer: 0x49 is an answer, 0x55 asks the AF_XDP program
      for a fresh one. */
  function Prefix(e: Entry, now: u64): (p: seq<u8>)
    ensures |p| == 5
  {
    [0xFF, 0xFF, 0xFF, 0xFF, if Expired(e, now) then 0x55 else 0x49]
  }

  /** How many data bytes the copy loop writes into a frame of length `n`. */
  function Copied(e: Entry, n: nat): (k: nat)
    requires n >= PAYLOAD + 5
    ensures k <= COPY_LIMIT && k <= e.size && k <= n - (PAYLOAD + 5)
    ensures k == COPY_LIMIT || k == e.size || k == n - (PAYLOAD + 5)
  {
    var k := if e.size < COPY_LIMIT then e.size else COPY_LIMIT;
    if k < n - (PAYLOAD + 5) then k else n - (PAYLOAD + 5)
  }

  predicate IsQuery(f: Frame) {
    |f| >= PAYLOAD + 5 && f[PAYLOAD..PAYLOAD + 5] == [0xFF, 0xFF, 0xFF, 0xFF, 0x54]
  }

  function Asked(f: Frame): Server
    requires |f| >= PAYLOAD
  {
    Server(Field4(f, ETH_LEN + 16), Field2(f, UDP_AT + 2))
  }

  /** The length of the answer's frame; lengths and differences are uint16_t. */
  function NewLength(f: Frame, size: u16): (n: nat)
    requires |f| >= PAYLOAD + 5
    ensures n >= PAYLOAD + 5
  {
    var plLen := (|f| - PAYLOAD) % U16;
    if plLen < size + 5 then |f| + (size + 5 - plLen) % U16 else |f| - (plLen - (size + 5))
  }

  /** Addresses and ports exchanged, TTL and length fields set, UDP checksum cleared. */
  function Turned(f: Frame, size: u16): (r: Frame)
    requires |f| >= PAYLOAD
    ensures |r| == |f|
  {
    f[..16] + NetBytes((IP_LEN + UDP_LEN + size + 5) % U16) + f[18..22] + [64] + f[23..26] +
    (f[30..34] + f[26..30]) +
    (f[36..38] + f[34..36] + NetBytes((UDP_LEN + size + 5) % U16) + [0, 0]) + f[42..]
  }

  /** The payload written over a frame of the new length. */
  function Filled(f: Frame, e: Entry, now: u64): (r: Frame)
    requires |f| >= PAYLOAD + 5
    ensures |r| == |f|
  {
    Splice(f, PAYLOAD, Prefix(e, now) + e.data[..Copied(e, |f|)])
  }

  function Answer(f: Frame, e: Entry, now: u64): (r: Frame)
    requires |f| >= PAYLOAD + 5
    ensures |r| == NewLength(f, e.size)
  {
    WithHeaderChecksum(Turned(SwapMac(Filled(Resized(f, NewLength(f, e.size)), e, now)), e.size), ETH_LEN)
  }

  /** What the A2S stage does; None hands the packet on. `room` is how long the frame may
      grow, `socket` whether an AF_XDP socket serves the queue. */
  function Served(f: Frame, cache: Cache, now: u64, room: nat, socket: bool): Option<Outcome>
    requires |f| >= PAYLOAD
  {
    if !IsQuery(f) || Asked(f) !in cache then None
    else
      var e := cache[Asked(f)];
      if NewLength(f, e.size) > |f| && NewLength(f, e.size) > room then Some(Outcome(XdpDrop, f))
      else Some(Outcome(if Expired(e, now) && socket then XdpRedirect else XdpTx, Answer(f, e, now)))
  }

  /** One customer's record in vip_stats_map. */
  datatype VipStats = VipStats(passed: u64, dropped: u64)

  type VipMap = map<Bytes4, VipStats>

  /** update_vip_stats for a packet that passes. */
  function Billed(vips: VipMap, vip: Bytes4): VipMap {
    if vip in vips then vips[vip := vips[vip].(passed := (vips[vip].passed + 1) % U64)]
    else vips[vip := VipStats(1, 0)]
  }

  method UpdateVipStats(vips: VipMap, vip: Bytes4) returns (vips': VipMap)
    ensures vips' == Billed(vips, vip)
    ensures vip in vips'
    ensures vip in vips ==> vips'[vip] == vips[vip].(passed := (vips[vip].passed + 1) % U64)
    ensures vip !in vips ==> vips'[vip] == VipStats(1, 0)
    ensures forall other :: other != vip ==> (other in vips' <==> other in vips)
    ensures forall other :: other != vip && other in vips ==> vips'[other] == vips[other]
  {
    if vip in vips {
      var stats := vips[vip];
      vips' := vips[vip := stats.(passed := (stats.passed + 1) % U64)];
    } else {
      vips' := vips[vip := VipStats(1, 0)];
    }
  }

  method FindEntry(b: XdpBuff, cache: Cache) returns (e: Option<Entry>)
    requires b.Valid() && b.Length() >= PAYLOAD
    ensures e == if IsQuery(b.Bytes()) && Asked(b.Bytes()) in cache then Some(cache[Asked(b.Bytes())]) else None
  {
    if PAYLOAD + 5 > b.Length() {
      return None;
    }
    var start := b.LoadRange(PAYLOAD, 5);
    if start != [0xFF, 0xFF, 0xFF, 0xFF, 0x54] {
      return None;
    }
    var ip := b.Load4(ETH_LEN + 16);
    var port := b.Load2(UDP_AT + 2);
    return if Server(ip, port) in cache then Some(cache[Server(ip, port)]) else None;
  }

  /** bpf_xdp_adjust_tail by the difference of the payload lengths, all in uint16_t. */
  method Resize(b: XdpBuff, size: u16) returns (failed: bool)
    requires b.Valid() && b.Length() >= PAYLOAD + 5 && b.Length() + b.data <= b.mem.Length
    modifies b`dataEnd, b.mem
    ensures b.Valid()
    ensures var n := NewLength(old(b.Bytes()), size);
            && (failed <==> n > old(b.Length()) && n > b.mem.Length - b.data)
            && b.Bytes() == if failed then old(b.Bytes()) else Resized(old(b.Bytes()), n)
  {
    ghost var f := b.Bytes();
    assert f[..|f|] == f;
    var plLen: u16 := (b.Length() - PAYLOAD) % U16;
    failed := false;
    if plLen < size + 5 {
      failed := b.AdjustTail((size + 5 - plLen) % U16);
    } else if plLen > size + 5 {
      failed := b.AdjustTail(0 - (plLen - (size + 5)));
    }
  }

  /** The bounded copy loop with its per-byte bounds test. */
  method CopyData(b: XdpBuff, e: Entry, ghost f: Frame, ghost prefix: seq<u8>)
    requires b.Valid() && b.Length() == |f| >= PAYLOAD + 5 && |prefix| == 5
    requires b.Bytes() == Splice(f, PAYLOAD, prefix)
    modifies b.mem
    ensures b.Bytes() == Splice(f, PAYLOAD, prefix + e.data[..Copied(e, |f|)])
  {
    var i := 0;
    assert prefix + e.data[..0] == prefix;
    while i < COPY_LIMIT
      invariant 0 <= i <= Copied(e, |f|)
      invariant b.Bytes() == Splice(f, PAYLOAD, prefix + e.data[..i])
    {
      if i >= e.size {
        break;
      }
      if PAYLOAD + 5 + i + 1 > b.Length() {
        break;
      }
      b.Store(PAYLOAD + 5 + i, e.data[i]);
      OneByteMore(f, prefix, e.data, i);
      i := i + 1;
    }
  }

  method Fill(b: XdpBuff, e: Entry, now: u64)
    requires b.Valid() && b.Length() >= PAYLOAD + 5
    modifies b.mem
    ensures b.Bytes() == Filled(old(b.Bytes()), e, now)
  {
    b.StoreBytes(PAYLOAD, Prefix(e, now));
    CopyData(b, e, old(b.Bytes()), Prefix(e, now));
  }

  lemma OneByteMore(f: Frame, prefix: seq<u8>, data: seq<u8>, i: nat)
    requires i < |data| && PAYLOAD + |prefix| + i < |f|
    ensures Splice(f, PAYLOAD, prefix + data[..i])[PAYLOAD + |prefix| + i := data[i]] ==
            Splice(f, PAYLOAD, prefix + data[..i + 1])
  {
    SpliceStore(f, PAYLOAD, prefix + data[..i], data[i]);
    assert prefix + data[..i] + [data[i]] == prefix + data[..i + 1];
  }

  /** A store in front of a slice, or behind it, leaves the slice. */
  lemma SliceApart(f: Frame, off: nat, b: seq<u8>, i: nat, j: nat)
    requires off + |b| <= |f| && i <= j <= |f| && (j <= off || off + |b| <= i)
    ensures Splice(f, off, b)[i..j] == f[i..j]
  {
  }

  method SwapAddresses(b: XdpBuff)
    requires b.Valid() && b.Length() >= PAYLOAD
    modifies b.mem
    ensures var f := old(b.Bytes()); b.Bytes() == Splice(f, 26, f[30..34] + f[26..30])
  {
    ghost var f := b.Bytes();
    var saddr: seq<u8> := b.LoadRange(26, 4);
    var daddr: seq<u8> := b.LoadRange(30, 4);
    b.StoreBytes(26, daddr);
    b.StoreBytes(30, saddr);
    SpliceJoin(f, 26, daddr, saddr);
  }

  method SwapPorts(b: XdpBuff)
    requires b.Valid() && b.Length() >= PAYLOAD
    modifies b.mem
    ensures var f := old(b.Bytes()); b.Bytes() == Splice(f, 34, f[36..38] + f[34..36])
  {
    ghost var f := b.Bytes();
    var source: seq<u8> := b.LoadRange(34, 2);
    var dest: seq<u8> := b.LoadRange(36, 2);
    b.StoreBytes(34, dest);
    b.StoreBytes(36, source);
    SpliceJoin(f, 34, dest, source);
  }

  /** The UDP part: ports, length, no checksum. */
  method TurnUdp(b: XdpBuff, length: Bytes2)
    requires b.Valid() && b.Length() >= PAYLOAD
    modifies b.mem
    ensures var f := old(b.Bytes()); b.Bytes() == Splice(f, 34, f[36..38] + f[34..36] + length + [0, 0])
  {
    ghost var f := b.Bytes();
    ghost var ports: seq<u8> := f[36..38] + f[34..36];
    SwapPorts(b);
    b.StoreBytes(38, length);
    SpliceJoin(f, 34, ports, length);
    b.StoreBytes(40, [0, 0]);
    SpliceJoin(f, 34, ports + length, [0, 0]);
  }

  /** The header swaps, in the source's order. */
  method Turn(b: XdpBuff, size: u16)
    requires b.Valid() && b.Length() >= PAYLOAD
    modifies b.mem
    ensures b.Bytes() == Turned(old(b.Bytes()), size)
  {
    ghost var f := b.Bytes();
    ghost var addresses: seq<u8> := f[30..34] + f[26..30];
    SwapAddresses(b);
    b.StoreBytes(22, [64]);
    ghost var g := Splice(f, 26, addresses);
    SliceApart(f, 26, addresses, 34, 36);
    SliceApart(f, 26, addresses, 36, 38);
    SliceApart(g, 22, [64], 34, 36);
    SliceApart(g, 22, [64], 36, 38);
    var length := NetBytes((UDP_LEN + size + 5) % U16);
    TurnUdp(b, length);
    var total := NetBytes((IP_LEN + UDP_LEN + size + 5) % U16);
    b.StoreBytes(16, total);
    TurnedPieces(f, addresses, f[36..38] + f[34..36] + length + [0, 0], total);
  }

  lemma TurnedPieces(f: Frame, a: seq<u8>, p: seq<u8>, t: Bytes2)
    requires |f| >= PAYLOAD && |a| == 8 && |p| == 8
    ensures Splice(Splice(Splice(Splice(f, 26, a), 22, [64]), 34, p), 16, t) ==
            f[..16] + t + f[18..22] + [64] + f[23..26] + a + p + f[42..]
  {
    var f1 := f[..22] + [64] + f[23..26] + a + f[34..];
    var f2 := f[..22] + [64] + f[23..26] + a + p + f[42..];
    assert Splice(Splice(f, 26, a), 22, [64]) == f1;
    assert Splice(f1, 34, p) == f2;
    assert Splice(f2, 16, t) == f[..16] + t + f[18..22] + [64] + f[23..26] + a + p + f[42..];
  }

  /** Everything that is written once the frame has its length. */
  method WriteAnswer(b: XdpBuff, e: Entry, now: u64)
    requires b.Valid() && b.Length() >= PAYLOAD + 5
    modifies b.mem
    ensures b.Bytes() == WithHeaderChecksum(Turned(SwapMac(Filled(old(b.Bytes()), e, now)), e.size), ETH_LEN)
  {
    Fill(b, e, now);
    b.SwapMacInPlace();
    Turn(b, e.size);
    b.UpdateIphChecksum(ETH_LEN);
  }

  /** The statistics after the stage: a sent answer is counted for the destination address
      its frame has by then. */
  function BilledAnswer(vips: VipMap, served: Option<Outcome>): VipMap {
    match served
    case Some(Outcome(XdpTx, frame)) => if |frame| >= PAYLOAD then Billed(vips, Field4(frame, ETH_LEN + 16)) else vips
    case _ => vips
  }

  /** The A2S stage of xdp_prog_main, for a UDP packet without IP options. */
  method ServeA2s(b: XdpBuff, cache: Cache, vips: VipMap, now: u64, socket: bool)
    returns (action: Option<Action>, vips': VipMap)
    requires b.Valid() && b.Length() >= PAYLOAD && Ihl(b.Bytes(), ETH_LEN) == 5
    modifies b`dataEnd, b.mem
    ensures b.Valid()
    ensures match Served(old(b.Bytes()), cache, now, b.mem.Length - b.data, socket)
            case None => action == None && b.Bytes() == old(b.Bytes())
            case Some(outcome) => action == Some(outcome.action) && b.Bytes() == outcome.frame
    ensures vips' == BilledAnswer(vips, Served(old(b.Bytes()), cache, now, b.mem.Length - b.data, socket))
  {
    vips' := vips;
    var found := FindEntry(b, cache);
    if found.None? {
      return None, vips';
    }
    var e := found.value;
    var failed := ReplaceByAnswer(b, e, now);
    if failed {
      return Some(XdpDrop), vips';
    }
    if Expired(e, now) && socket {
      return Some(XdpRedirect), vips';
    }
    vips' := CountSent(b, vips);
    return Some(XdpTx), vips';
  }

  method CountSent(b: XdpBuff, vips: VipMap) returns (vips': VipMap)
    requires b.Valid() && b.Length() >= PAYLOAD
    ensures vips' == Billed(vips, Field4(b.Bytes(), ETH_LEN + 16))
  {
    var daddr := b.Load4(ETH_LEN + 16);
    vips' := UpdateVipStats(vips, daddr);
  }

  /** The query's frame becomes the answer's, if it can be given its length. */
  method ReplaceByAnswer(b: XdpBuff, e: Entry, now: u64) returns (failed: bool)
    requires b.Valid() && b.Length() >= PAYLOAD + 5
    modifies b`dataEnd, b.mem
    ensures b.Valid()
    ensures var (f, room) := (old(b.Bytes()), b.mem.Length - b.data);
            && (failed <==> NewLength(f, e.size) > |f| && NewLength(f, e.size) > room)
            && b.Bytes() == if failed then f else Answer(f, e, now)
  {
    failed := Resize(b, e.size);
    if !failed {
      WriteAnswer(b, e, now);
    }
  }

  // ------------------------------------------------------------------ main theorems

  /** Lengths: for every query of real packet size, and every entry, the answer's frame is
      14 + 20 + 8 + 5 + size bytes. */
  lemma AnswerLength(f: Frame, e: Entry, now: u64)
    requires PAYLOAD + 5 <= |f| < PAYLOAD + U16
    ensures |Answer(f, e, now)| == 14 + 20 + 8 + 5 + e.size
  {
    var plLen := |f| - PAYLOAD;
    ModUnique(plLen, U16, 0, plLen);
    if plLen < e.size + 5 { ModUnique(e.size + 5 - plLen, U16, 0, e.size + 5 - plLen); }
    assert NewLength(f, e.size) == PAYLOAD + 5 + e.size;
  }

  /** The UDP and IP length fields agree with the frame exactly when they do not wrap. */
  lemma LengthFieldsAgree(f: Frame, e: Entry, now: u64)
    requires PAYLOAD + 5 <= |f| < PAYLOAD + U16
    ensures var r := Answer(f, e, now);
            && (Net(Field2(r, UDP_AT + 4)) == |r| - UDP_AT <==> e.size < U16 - 13)
            && (Net(Field2(r, ETH_LEN + 2)) == |r| - ETH_LEN <==> e.size < U16 - 33)
  {
    AnswerBytes(f, e, now);
    AnswerLength(f, e, now);
    LengthField(Field2(Answer(f, e, now), 38), UDP_LEN + e.size + 5);
    LengthField(Field2(Answer(f, e, now), 16), IP_LEN + UDP_LEN + e.size + 5);
  }

  lemma LengthField(b: Bytes2, n: nat)
    requires n < 2 * U16 && b == NetBytes(n % U16)
    ensures Net(b) == n <==> n < U16
  {
    NetRoundTrip(n % U16);
  }

  /** The header of the answer, byte for byte but for its checksum: MAC, IP and port pairs
      exchanged, TTL and both lengths set, no UDP checksum, the rest as in the query. */
  lemma AnswerTurnsHeaders(f: Frame, e: Entry, now: u64)
    requires |f| >= 47
    ensures var r := Answer(f, e, now);
            && |r| >= 47
            && r[..6] == f[6..12] && r[6..12] == f[..6] && r[12..16] == f[12..16]
            && r[16..18] == [(33 + e.size) % 65536 / 256, (33 + e.size) % 256]
            && r[18..22] == f[18..22] && r[22] == 64 && r[23] == f[23]
            && r[26..30] == f[30..34] && r[30..34] == f[26..30]
            && r[34..36] == f[36..38] && r[36..38] == f[34..36]
            && r[38..40] == [(13 + e.size) % 65536 / 256, (13 + e.size) % 256] && r[40..42] == [0, 0]
  {
    AnswerBytes(f, e, now);
    var r := Answer(f, e, now);
    assert r[..6] == f[6..12] && r[6..12] == f[..6];
    assert r[12..16] == f[12..16] && r[18..22] == f[18..22];
    assert r[26..30] == f[30..34] && r[30..34] == f[26..30];
    assert r[34..36] == f[36..38] && r[36..38] == f[34..36];
    LowByte(33 + e.size);
    LowByte(13 + e.size);
  }

  lemma LowByte(n: nat)
    ensures n % U16 % 256 == n % 256
  {
    var q, r := n / U16, n % U16;
    ModUnique(n, 256, 256 * q + r / 256, r % 256);
  }

  /** The payload of the answer: four bytes 0xFF, the code 0x55 for an expired entry and
      0x49 otherwise, then the cached data, of which no more than the first 512 bytes are
      copied. */
  lemma AnswerPayload(f: Frame, e: Entry, now: u64)
    requires 47 <= |f| < 42 + 65536
    ensures var r := Answer(f, e, now);
            && |r| == 47 + e.size
            && r[42..46] == [0xFF, 0xFF, 0xFF, 0xFF]
            && r[46] == (if now > e.expires then 0x55 else 0x49)
            && (e.size <= 512 ==> r[47..] == e.data[..e.size])
            && (e.size > 512 ==>
                  && r[47..559] == e.data[..512]
                  && (forall i :: 559 <= i < |r| ==> r[i] == if i < |f| then f[i] else 0))
  {
    AnswerBytes(f, e, now);
    AnswerLength(f, e, now);
    var r := Answer(f, e, now);
    FilledPayload(Resized(f, |r|), r, e, now);
    AnswerCode(f, e, now);
    if e.size > 512 {
      forall i | 559 <= i < |r| ensures r[i] == if i < |f| then f[i] else 0 {
        assert r[559..][i - 559] == Resized(f, |r|)[559..][i - 559];
      }
    }
  }

  lemma FilledPayload(f: Frame, r: Frame, e: Entry, now: u64)
    requires |f| == |r| >= PAYLOAD + 5 && r[PAYLOAD..] == Filled(f, e, now)[PAYLOAD..]
    ensures var k := Copied(e, |f|);
            && r[PAYLOAD..PAYLOAD + 5] == Prefix(e, now)
            && r[PAYLOAD + 5..PAYLOAD + 5 + k] == e.data[..k]
            && r[PAYLOAD + 5 + k..] == f[PAYLOAD + 5 + k..]
            && (PAYLOAD + 5 + k == |f| ==> r[PAYLOAD + 5..] == e.data[..k])
  {
    var (k, filled, at) := (Copied(e, |f|), Filled(f, e, now), PAYLOAD + 5);
    SpliceParts(f, PAYLOAD, Prefix(e, now), e.data[..k], at, at + k);
    SameSlice(r, filled, PAYLOAD, PAYLOAD, at);
    SameSlice(r, filled, PAYLOAD, at, at + k);
    SameSlice(r, filled, PAYLOAD, at + k, |f|);
  }

  lemma SpliceParts(f: Frame, off: nat, a: seq<u8>, b: seq<u8>, i: nat, j: nat)
    requires i == off + |a| && j == i + |b| <= |f|
    ensures var r := Splice(f, off, a + b);
            r[off..i] == a && r[i..j] == b && r[j..|f|] == f[j..]
  {
  }

  lemma SameSlice(a: Frame, b: Frame, off: nat, i: nat, j: nat)
    requires off <= i <= j <= |a| == |b| && a[off..] == b[off..]
    ensures a[i..j] == b[i..j]
  {
    forall k | i <= k < j ensures a[k] == b[k] {
      assert a[off..][k - off] == b[off..][k - off];
    }
  }

  /** The words of the query's own header with the answer's length, TTL 64 and no checksum. */
  function QueryWords(f: Frame, size: u16): Words
    requires |f| >= PAYLOAD
  {
    var length := NetBytes((IP_LEN + UDP_LEN + size + 5) % U16);
    WordsLE(f[ETH_LEN..UDP_AT][2 := length[0]][3 := length[1]][8 := 64][10 := 0][11 := 0])
  }

  /** The answer's IP header verifies exactly when those words of the query and the size of
      the entry add up right: exchanging the addresses leaves the sum alone. */
  lemma AnswerHeaderVerifiesIff(f: Frame, e: Entry, now: u64)
    requires PAYLOAD + 5 <= |f|
    ensures Verifies(WordsLE(Answer(f, e, now)[ETH_LEN..UDP_AT])) <==> FoldsOnce(Sum(QueryWords(f, e.size)))
  {
    var filled := SwapMac(Filled(Resized(f, NewLength(f, e.size)), e, now));
    HeaderVerifiesIff(Turned(filled, e.size), ETH_LEN);
    FilledBytes(f, e, now);
    assert forall i :: ETH_LEN <= i < UDP_AT ==> filled[i] == f[i];
    TurnedWords(filled, f, e.size);
  }

  lemma TurnedWords(g: Frame, f: Frame, size: u16)
    requires |g| >= PAYLOAD && |f| >= PAYLOAD && forall i :: ETH_LEN <= i < UDP_AT ==> g[i] == f[i]
    ensures Sum(HeaderWords(Turned(g, size), ETH_LEN)) == Sum(QueryWords(f, size))
  {
    var length := NetBytes((IP_LEN + UDP_LEN + size + 5) % U16);
    var h: Frame := Turned(g, size)[ETH_LEN..UDP_AT][10 := 0][11 := 0];
    var q: Frame := f[ETH_LEN..UDP_AT][2 := length[0]][3 := length[1]][8 := 64][10 := 0][11 := 0];
    TurnedHeader(g, size);
    assert forall i :: 0 <= i < 10 ==> h[i] == Turned(g, size)[ETH_LEN + i];
    assert forall i :: 0 <= i < 12 ==> h[i] == q[i];
    assert forall i :: 12 <= i < 16 ==> h[i] == Turned(g, size)[ETH_LEN + i] && q[i + 4] == f[ETH_LEN + i + 4];
    assert forall i :: 16 <= i < 20 ==> h[i] == Turned(g, size)[ETH_LEN + i] && q[i - 4] == f[ETH_LEN + i - 4];
    SwappedSum(h, q);
  }

  /** The IP header Turn leaves. */
  lemma TurnedHeader(f: Frame, size: u16)
    requires |f| >= PAYLOAD
    ensures var (r, length) := (Turned(f, size), NetBytes((IP_LEN + UDP_LEN + size + 5) % U16));
            && r[14] == f[14] && r[15] == f[15] && r[16] == length[0] && r[17] == length[1]
            && (forall i :: 18 <= i < 22 ==> r[i] == f[i]) && r[22] == 64 && r[23] == f[23]
            && (forall i :: 26 <= i < 30 ==> r[i] == f[i + 4])
            && (forall i :: 30 <= i < 34 ==> r[i] == f[i - 4])
  {
  }

  lemma SwappedSum(h: Frame, q: Frame)
    requires |h| == |q| == IP_LEN
    requires forall i :: 0 <= i < 12 ==> h[i] == q[i]
    requires forall i :: 12 <= i < 16 ==> h[i] == q[i + 4]
    requires forall i :: 16 <= i < 20 ==> h[i] == q[i - 4]
    ensures Sum(WordsLE(h)) == Sum(WordsLE(q))
  {
    TenWords(h);
    TenWords(q);
  }

  /** The UDP data starts like an A2S_INFO query. */
  predicate AsksInfo(f: Frame) { |f| >= 47 && f[42..47] == [0xFF, 0xFF, 0xFF, 0xFF, 0x54] }

  /** The length an answer with `size` bytes of data needs, by a 16-bit difference. */
  function NeededLength(f: Frame, size: u16): int
    requires |f| >= 42
  {
    var length := (|f| - 42) % 65536;
    if length < size + 5 then |f| + (size + 5 - length) % 65536 else |f| - (length - (size + 5))
  }

  /** What becomes of a query with the cached entry `e`. */
  predicate Decides(out: Outcome, f: Frame, e: Entry, now: u64, room: nat, socket: bool)
    requires |f| >= 42
  {
    var n := NeededLength(f, e.size);
    var (fits, refresh) := (n <= |f| || n <= room, now > e.expires && socket);
    && (out.action == XdpDrop <==> !fits)
    && (out.action == XdpRedirect <==> fits && refresh)
    && (out.action == XdpTx <==> fits && !refresh)
    && (!fits ==> out.frame == f)
    && (fits ==>
          && |out.frame| == n >= 47
          && out.frame[42..46] == [0xFF, 0xFF, 0xFF, 0xFF]
          && out.frame[46] == if now > e.expires then 0x55 else 0x49)
  }

  /** Every packet is decided: handed on exactly when it is no A2S_INFO query or its server is
      not cached, dropped exactly when the frame cannot grow to the answer's length, handed to
      the AF_XDP program exactly when the entry has expired and a socket is there, and sent to
      the client otherwise. The answer code is 0x49 exactly when the entry is fresh. The
      comment on the fail-safe path promises the old answer to the client when no socket is
      there; what is sent is the refresh code 0x55. */
  lemma AnswersDecided(f: Frame, cache: Cache, now: u64, room: nat, socket: bool)
    requires |f| >= 42
    ensures var (server, served) := (Server(f[30..34], f[36..38]), Served(f, cache, now, room, socket));
            if !AsksInfo(f) || server !in cache then served == None
            else served.Some? && Decides(served.value, f, cache[server], now, room, socket)
  {
    if IsQuery(f) && Asked(f) in cache {
      var e := cache[Asked(f)];
      AnswerCode(f, e, now);
      DecidedBy(f, e, now, room, socket, Answer(f, e, now));
    }
  }

  lemma DecidedBy(f: Frame, e: Entry, now: u64, room: nat, socket: bool, answer: Frame)
    requires |f| >= 47 && |answer| == NewLength(f, e.size) >= 47
    requires answer[42..46] == [0xFF, 0xFF, 0xFF, 0xFF]
    requires answer[46] == if now > e.expires then 0x55 else 0x49
    ensures var out := if NewLength(f, e.size) > |f| && NewLength(f, e.size) > room then Outcome(XdpDrop, f)
                       else Outcome(if Expired(e, now) && socket then XdpRedirect else XdpTx, answer);
            Decides(out, f, e, now, room, socket)
  {
    assert NewLength(f, e.size) == NeededLength(f, e.size);
  }

  lemma AnswerCode(f: Frame, e: Entry, now: u64)
    requires |f| >= 47
    ensures var r := Answer(f, e, now);
            && |r| >= 47
            && r[42..46] == [0xFF, 0xFF, 0xFF, 0xFF]
            && r[46] == if now > e.expires then 0x55 else 0x49
  {
    AnswerBytes(f, e, now);
    var r := Answer(f, e, now);
    FilledPayload(Resized(f, |r|), r, e, now);
    assert r[42..46] == r[42..47][..4];
    assert r[46] == r[42..47][4];
  }

  /** An A2S_INFO query from 198.51.100.7:50000 to 203.0.113.10:27015. */
  function Query(): (f: Frame)
    ensures |f| == 67
  {
    [2, 0, 0, 0, 0, 1, 2, 0, 0, 0, 0, 2, 8, 0] +
    [0x45, 0, 0, 53, 0, 0, 0, 0, 64, PROTO_UDP, 0, 0, 198, 51, 100, 7, 203, 0, 113, 10] +
    [0xC3, 0x50, 0x69, 0x87, 0, 33, 0, 0] +
    [0xFF, 0xFF, 0xFF, 0xFF, 0x54] +
    [83, 111, 117, 114, 99, 101, 32, 69, 110, 103, 105, 110, 101, 32, 81, 117, 101, 114, 121, 0]
  }

  /** An entry for that server that expired at time 0. */
  function OneStale(): Cache {
    map[Server([203, 0, 113, 10], [0x69, 0x87]) := Cached(20, 0, seq(DATA_SIZE, _ => 0), [0, 0, 0, 0], false)]
  }

  lemma QueryFields()
    ensures IsQuery(Query()) && Asked(Query()) == Server([203, 0, 113, 10], [0x69, 0x87])
    ensures Field4(Query(), ETH_LEN + 12) == [198, 51, 100, 7] && Field4(Query(), ETH_LEN + 16) == [203, 0, 113, 10]
  {
    var f := Query();
    assert f[42..47] == [0xFF, 0xFF, 0xFF, 0xFF, 0x54];
    assert f[26..30] == [198, 51, 100, 7] && f[30..34] == [203, 0, 113, 10] && f[36..38] == [0x69, 0x87];
  }

  /** A stale answer without a socket, at time 1: it is sent with the code 0x55, and counted
      for the client while the VIP has no record. */
  lemma StaleAnswerIsSent()
    ensures var served := Served(Query(), OneStale(), 1, 67, false);
            && served.Some? && served.value.action == XdpTx
            && |served.value.frame| > PAYLOAD + 4 && served.value.frame[PAYLOAD + 4] == 0x55
            && BilledAnswer(map[], served) == map[[198, 51, 100, 7] := VipStats(1, 0)]
  {
    QueryFields();
    assert NewLength(Query(), 20) == 67;
    AnswersDecided(Query(), OneStale(), 1, 67, false);
    AnswersBilled(Query(), OneStale(), map[], 1, 67, false);
  }

  predicate SameRecord(vips: VipMap, vips': VipMap, ip: Bytes4) {
    (ip in vips <==> ip in vips') && (ip in vips && ip in vips' ==> vips[ip] == vips'[ip])
  }

  /** One passed packet more for one address. */
  ghost predicate OneMorePassed(vips: VipMap, vips': VipMap, client: Bytes4) {
    && client in vips'
    && vips'[client].dropped == (if client in vips then vips[client].dropped else 0)
    && vips'[client].passed == (if client in vips then (vips[client].passed + 1) % 0x1_0000_0000_0000_0000 else 1)
    && forall ip: Bytes4 :: SameRecord(vips, vips', ip) <==> ip != client
  }

  lemma BilledIsOneMore(vips: VipMap, client: Bytes4)
    ensures OneMorePassed(vips, Billed(vips, client), client)
  {
  }

  /** The statistics are keyed by VIP, but a sent answer is counted for the client: the
      call comes after the addresses have been exchanged. One passed packet more in the
      client's record, and no other record is touched, the VIP's in particular if the query
      did not come from the VIP itself. What is not sent is not counted. */
  lemma AnswersBilled(f: Frame, cache: Cache, vips: VipMap, now: u64, room: nat, socket: bool)
    requires |f| >= 42
    ensures var served := Served(f, cache, now, room, socket);
            if served.Some? && served.value.action == XdpTx
            then OneMorePassed(vips, BilledAnswer(vips, served), f[26..30])
            else BilledAnswer(vips, served) == vips
  {
    if IsQuery(f) && Asked(f) in cache {
      AnswerTurnsHeaders(f, cache[Asked(f)], now);
      BilledIsOneMore(vips, f[26..30]);
    }
  }

  /** What the decapsulation learns from a challenge changes no answer: same queries served,
      with the same verdict and frame. */
  lemma ChallengesKeepAnswers(f: Frame, g: Frame, cache: Cache, now: u64, room: nat, socket: bool)
    requires |f| >= PAYLOAD && |g| >= INNER
    ensures Served(f, AfterDecapsulation(g, cache), now, room, socket) == Served(f, cache, now, room, socket)
  {
    if IsQuery(f) && Asked(f) in cache {
      SameAnswer(f, AfterDecapsulation(g, cache)[Asked(f)], cache[Asked(f)], now);
    }
  }

  lemma SameAnswer(f: Frame, e: Entry, e': Entry, now: u64)
    requires |f| >= PAYLOAD + 5 && e.size == e'.size && e.expires == e'.expires && e.data == e'.data
    ensures Answer(f, e, now) == Answer(f, e', now)
  {
  }

  /** Field by field, the answer against the resized query. */
  lemma AnswerBytes(f: Frame, e: Entry, now: u64)
    requires PAYLOAD + 5 <= |f|
    ensures var r := Answer(f, e, now);
            var filled := Filled(Resized(f, |r|), e, now);
            && r[PAYLOAD..] == filled[PAYLOAD..]
            && (forall i :: 0 <= i < 6 ==> r[i] == f[i + 6])
            && (forall i :: 6 <= i < 12 ==> r[i] == f[i - 6])
            && (forall i :: 12 <= i < 16 ==> r[i] == f[i])
            && (forall i :: 18 <= i < 22 ==> r[i] == f[i])
            && (forall i :: 26 <= i < 30 ==> r[i] == f[i + 4])
            && (forall i :: 30 <= i < 34 ==> r[i] == f[i - 4])
            && (forall i :: 34 <= i < 36 ==> r[i] == f[i + 2])
            && (forall i :: 36 <= i < 38 ==> r[i] == f[i - 2])
            && r[22] == 64 && r[23] == f[23]
            && Field2(r, 16) == NetBytes((IP_LEN + UDP_LEN + e.size + 5) % U16)
            && Field2(r, 38) == NetBytes((UDP_LEN + e.size + 5) % U16)
            && Field2(r, 40) == [0, 0]
  {
    var filled := Filled(Resized(f, NewLength(f, e.size)), e, now);
    FilledBytes(f, e, now);
    SwapMacBytes(filled);
    FinishedBytes(SwapMac(filled), e.size);
  }

  lemma FinishedBytes(f: Frame, size: u16)
    requires |f| >= PAYLOAD
    ensures var r := WithHeaderChecksum(Turned(f, size), ETH_LEN);
            && r[PAYLOAD..] == f[PAYLOAD..]
            && (forall i :: 0 <= i < 16 ==> r[i] == f[i])
            && (forall i :: 18 <= i < 22 ==> r[i] == f[i])
            && (forall i :: 26 <= i < 30 ==> r[i] == f[i + 4])
            && (forall i :: 30 <= i < 34 ==> r[i] == f[i - 4])
            && (forall i :: 34 <= i < 36 ==> r[i] == f[i + 2])
            && (forall i :: 36 <= i < 38 ==> r[i] == f[i - 2])
            && r[22] == 64 && r[23] == f[23]
            && Field2(r, 16) == NetBytes((IP_LEN + UDP_LEN + size + 5) % U16)
            && Field2(r, 38) == NetBytes((UDP_LEN + size + 5) % U16)
            && Field2(r, 40) == [0, 0]
  {
    TurnedBytes(f, size);
    ChecksumBytes(Turned(f, size));
  }

  lemma SwapMacBytes(f: Frame)
    requires |f| >= PAYLOAD
    ensures var r := SwapMac(f);
            && (forall i :: 0 <= i < 6 ==> r[i] == f[i + 6])
            && (forall i :: 6 <= i < 12 ==> r[i] == f[i - 6])
            && (forall i :: 12 <= i < PAYLOAD ==> r[i] == f[i])
            && r[PAYLOAD..] == f[PAYLOAD..]
  {
  }

  lemma FilledBytes(f: Frame, e: Entry, now: u64)
    requires PAYLOAD + 5 <= |f|
    ensures forall i :: 0 <= i < PAYLOAD ==> Filled(Resized(f, NewLength(f, e.size)), e, now)[i] == f[i]
  {
  }

  lemma ChecksumBytes(f: Frame)
    requires |f| >= PAYLOAD
    ensures var r := WithHeaderChecksum(f, ETH_LEN);
            && (forall i :: 0 <= i < PAYLOAD && i != 24 && i != 25 ==> r[i] == f[i])
            && r[PAYLOAD..] == f[PAYLOAD..]
            && Field2(r, 16) == Field2(f, 16) && Field2(r, 38) == Field2(f, 38) && Field2(r, 40) == Field2(f, 40)
  {
    HeaderSumFits(f, ETH_LEN);
    StoreAt24(f, RawBytes(SingleFold(Sum(HeaderWords(f, ETH_LEN)))));
  }

  lemma StoreAt24(f: Frame, b: Bytes2)
    requires |f| >= PAYLOAD
    ensures var r := Splice(f, 24, b);
            && (forall i :: 0 <= i < PAYLOAD && i != 24 && i != 25 ==> r[i] == f[i])
            && r[PAYLOAD..] == f[PAYLOAD..]
            && Field2(r, 16) == Field2(f, 16) && Field2(r, 38) == Field2(f, 38) && Field2(r, 40) == Field2(f, 40)
  {
    SpliceAt(f, 24, b);
    var r := Splice(f, 24, b);
    assert r[PAYLOAD..] == f[PAYLOAD..];
    assert r[16..18] == f[16..18] && r[38..40] == f[38..40] && r[40..42] == f[40..42];
  }

  lemma TurnedBytes(f: Frame, size: u16)
    requires |f| >= PAYLOAD
    ensures var r := Turned(f, size);
            && r[PAYLOAD..] == f[PAYLOAD..]
            && (forall i :: 0 <= i < 16 ==> r[i] == f[i])
            && (forall i :: 18 <= i < 22 ==> r[i] == f[i])
            && (forall i :: 26 <= i < 30 ==> r[i] == f[i + 4])
            && (forall i :: 30 <= i < 34 ==> r[i] == f[i - 4])
            && (forall i :: 34 <= i < 36 ==> r[i] == f[i + 2])
            && (forall i :: 36 <= i < 38 ==> r[i] == f[i - 2])
            && r[22] == 64 && r[23] == f[23]
            && Field2(r, 16) == NetBytes((IP_LEN + UDP_LEN + size + 5) % U16)
            && Field2(r, 38) == NetBytes((UDP_LEN + size + 5) % U16)
            && Field2(r, 40) == [0, 0]
  {
  }
}
