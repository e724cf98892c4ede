/** An XDP frame: one memory area and two moving indices, byte offsets into Ethernet,
    IPv4, TCP and UDP headers, and the in-place header checksum update.

    Every access of a program goes through `Load` and `Store`, whose preconditions keep
    it inside [data, data_end). */
module Packet {
  import opened Bits
  import opened Checksum

  type Frame = seq<u8>

  const ETH_LEN: nat := 14
  const IP_LEN: nat := 20
  const UDP_LEN: nat := 8
  const TCP_LEN: nat := 20
  const PROTO_IPIP: u8 := 4
  const PROTO_TCP: u8 := 6
  const PROTO_UDP: u8 := 17

  datatype Action = XdpDrop | XdpPass | XdpTx | XdpRedirect

  datatype Outcome = Outcome(action: Action, frame: Frame)

  /** Two or four bytes as they lie in a packet or a BPF map. */
  type Bytes2 = s: seq<u8> | |s| == 2 witness [0, 0]
  type Bytes4 = s: seq<u8> | |s| == 4 witness [0, 0, 0, 0]

  /** A two-byte field as the host loads it, and as the network means it. */
  function Raw(b: Bytes2): u16 { Word(b[0], b[1]) }
  function Net(b: Bytes2): u16 { Word(b[1], b[0]) }

  /** The bytes a host store and a htons store leave. */
  function RawBytes(w: u16): Bytes2 { [w % 256, w / 256] }
  function NetBytes(w: u16): Bytes2 { [w / 256, w % 256] }

  /** The frame with `b` stored at offset `off`. */
  function Splice(f: Frame, off: nat, b: seq<u8>): (r: Frame)
    requires off + |b| <= |f|
    ensures |r| == |f|
  {
    f[..off] + b + f[off + |b|..]
  }

  function Field2(f: Frame, off: nat): Bytes2
    requires off + 2 <= |f|
  {
    f[off..off + 2]
  }

  function Field4(f: Frame, off: nat): Bytes4
    requires off + 4 <= |f|
  {
    f[off..off + 4]
  }

  /** Destination and source MAC exchanged. */
  function SwapMac(f: Frame): (r: Frame)
    requires |f| >= ETH_LEN
    ensures |r| == |f|
  {
    f[6..12] + f[..6] + f[12..]
  }

  /** The same, with only the first `i` byte pairs exchanged. */
  function PartlySwapped(f: Frame, i: nat): (r: Frame)
    requires |f| >= ETH_LEN && i <= 6
    ensures |r| == |f|
    ensures i == 6 ==> r == SwapMac(f)
  {
    seq(|f|, k requires 0 <= k < |f| => if k < i then f[k + 6] else if 6 <= k < 6 + i then f[k - 6] else f[k])
  }

  /** iph->ihl of the IPv4 header at `off`. */
  function Ihl(f: Frame, off: nat): nat
    requires off < |f|
  {
    f[off] % 16
  }

  // ---------------------------------------------------- the IPv4 header checksum

  /** The words of the header at `off` with the checksum field zeroed. */
  function HeaderWords(f: Frame, off: nat): Words
    requires off + IP_LEN <= |f|
  {
    WordsLE(f[off..off + IP_LEN][10 := 0][11 := 0])
  }

  /** What update_iph_checksum leaves. */
  function WithHeaderChecksum(f: Frame, off: nat): (r: Frame)
    requires off + IP_LEN <= |f|
    ensures |r| == |f|
  {
    HeaderSumFits(f, off);
    Splice(f, off + 10, RawBytes(SingleFold(Sum(HeaderWords(f, off)))))
  }

  lemma {:induction false} WordsLength(b: seq<u8>)
    ensures |WordsLE(b)| == (|b| + 1) / 2
    decreases |b|
  {
    if |b| >= 2 { WordsLength(b[2..]); }
  }

  lemma HeaderSumFits(f: Frame, off: nat)
    requires off + IP_LEN <= |f|
    ensures |HeaderWords(f, off)| == 10
    ensures Sum(HeaderWords(f, off)) <= 10 * ONES
  {
    WordsLength(f[off..off + IP_LEN][10 := 0][11 := 0]);
    SumBound(HeaderWords(f, off));
  }

  /** Whether the two halves of a sum add without a second carry, which is when the single
      fold is right. */
  predicate FoldsOnce(s: nat) { s % U16 + s / U16 < U16 }

  predicate HalvesFit(f: Frame, off: nat)
    requires off + IP_LEN <= |f|
  {
    FoldsOnce(Sum(HeaderWords(f, off)))
  }

  /** The header update_iph_checksum leaves verifies exactly when the two halves of its
      sum add without a second carry. */
  lemma HeaderVerifiesIff(f: Frame, off: nat)
    requires off + IP_LEN <= |f|
    ensures Verifies(WordsLE(WithHeaderChecksum(f, off)[off..off + IP_LEN])) <==> HalvesFit(f, off)
  {
    var h0: Frame := f[off..off + IP_LEN][10 := 0][11 := 0];
    HeaderSumFits(f, off);
    var ck := SingleFold(Sum(WordsLE(h0)));
    WordAt(h0, 5);
    WordStore(h0, 5, ck);
    assert WithHeaderChecksum(f, off)[off..off + IP_LEN] == h0[10 := ck % 256][11 := ck / 256];
    SingleFoldVerifies(WordsLE(h0), 5);
  }

  /** The words of a header, one by one. */
  lemma TenWords(h: Frame)
    requires |h| == IP_LEN
    ensures Sum(WordsLE(h)) ==
            Word(h[0], h[1]) + Word(h[2], h[3]) + Word(h[4], h[5]) + Word(h[6], h[7]) + Word(h[8], h[9]) +
            Word(h[10], h[11]) + Word(h[12], h[13]) + Word(h[14], h[15]) + Word(h[16], h[17]) + Word(h[18], h[19])
  {
    FiveWords(h[..10]);
    FiveWords(h[10..]);
    WordsSplit(h, 5);
    SumConcat(WordsLE(h[..10]), WordsLE(h[10..]));
  }

  lemma FiveWords(h: Frame)
    requires |h| == 10
    ensures Sum(WordsLE(h)) ==
            Word(h[0], h[1]) + Word(h[2], h[3]) + Word(h[4], h[5]) + Word(h[6], h[7]) + Word(h[8], h[9])
  {
    assert h[..0] == [];
    WordsStep(h, 0);
    WordsStep(h, 1);
    WordsStep(h, 2);
    WordsStep(h, 3);
    WordsStep(h, 4);
    assert h[..10] == h;
  }

  lemma ZeroedHeader(f: Frame, off: nat)
    requires off + IP_LEN <= |f|
    ensures WordsLE(Splice(f, off + 10, [0, 0])[off..off + IP_LEN]) == HeaderWords(f, off)
  {
    assert Splice(f, off + 10, [0, 0])[off..off + IP_LEN] == f[off..off + IP_LEN][10 := 0][11 := 0];
  }

  /** Neighbouring stores make one store, in either order. */
  lemma SpliceJoin(f: Frame, off: nat, a: seq<u8>, b: seq<u8>)
    requires off + |a| + |b| <= |f|
    ensures Splice(Splice(f, off, a), off + |a|, b) == Splice(f, off, a + b)
    ensures Splice(Splice(f, off + |a|, b), off, a) == Splice(f, off, a + b)
  {
  }

  /** What a store changes, and what it leaves. */
  lemma SpliceAt(f: Frame, off: nat, b: seq<u8>)
    requires off + |b| <= |f|
    ensures var r := Splice(f, off, b);
            && r[off..off + |b|] == b
            && r[..off] == f[..off]
            && r[off + |b|..] == f[off + |b|..]
            && (forall i :: 0 <= i < |f| && !(off <= i < off + |b|) ==> r[i] == f[i])
  {
  }

  lemma SpliceStore(f: Frame, off: nat, a: seq<u8>, x: u8)
    requires off + |a| < |f|
    ensures Splice(f, off, a)[off + |a| := x] == Splice(f, off, a + [x])
  {
  }

  lemma SpliceOver(f: Frame, off: nat, a: seq<u8>, b: seq<u8>)
    requires off + |a| <= |f| && |a| == |b|
    ensures Splice(Splice(f, off, a), off, b) == Splice(f, off, b)
  {
  }

  // ------------------------------------------------------------- the frame in memory

  lemma IsResized(f: Frame, g: Frame)
    requires forall k :: 0 <= k < |g| ==> g[k] == if k < |f| then f[k] else 0
    ensures g == Resized(f, |g|)
  {
  }

  class XdpBuff {
    const mem: array<u8>
    var data: nat
    var dataEnd: nat

    ghost predicate Valid()
      reads this
    {
      data <= dataEnd <= mem.Length
    }

    function Bytes(): (f: Frame)
      requires Valid()
      reads this, mem
      ensures |f| == dataEnd - data
    {
      mem[data..dataEnd]
    }

    constructor (mem: array<u8>, data: nat, dataEnd: nat)
      requires data <= dataEnd <= mem.Length
      ensures Valid() && this.mem == mem && this.data == data && this.dataEnd == dataEnd
    {
      this.mem := mem;
      this.data := data;
      this.dataEnd := dataEnd;
    }

    function Length(): nat
      requires Valid()
      reads this
    {
      dataEnd - data
    }

    function Load(off: nat): (b: u8)
      requires Valid() && off < Length()
      reads this, mem
      ensures b == Bytes()[off]
    {
      mem[data + off]
    }

    method Store(off: nat, b: u8)
      requires Valid() && off < Length()
      modifies mem
      ensures Bytes() == old(Bytes())[off := b]
    {
      mem[data + off] := b;
    }

    /** A multi-byte store or a memcpy of `b` to offset `off`. */
    method StoreBytes(off: nat, b: seq<u8>)
      requires Valid() && off + |b| <= Length()
      modifies mem
      ensures Bytes() == Splice(old(Bytes()), off, b)
    {
      for i := 0 to |b|
        invariant Bytes() == Splice(old(Bytes()), off, b[..i])
      {
        Store(off + i, b[i]);
        SpliceStore(old(Bytes()), off, b[..i], b[i]);
        assert b[..i + 1] == b[..i] + [b[i]];
      }
      assert b[..|b|] == b;
    }

    function Load2(off: nat): (b: Bytes2)
      requires Valid() && off + 2 <= Length()
      reads this, mem
      ensures b == Field2(Bytes(), off)
    {
      [Load(off), Load(off + 1)]
    }

    method LoadRange(off: nat, n: nat) returns (r: seq<u8>)
      requires Valid() && off + n <= Length()
      ensures r == Bytes()[off..off + n]
    {
      r := [];
      for i := 0 to n
        invariant r == Bytes()[off..off + i]
      {
        r := r + [Load(off + i)];
      }
    }

    /** The byte-wise exchange of the two MAC addresses. */
    method SwapMacInPlace()
      requires Valid() && Length() >= ETH_LEN
      modifies mem
      ensures Bytes() == SwapMac(old(Bytes()))
    {
      ghost var f := Bytes();
      for i := 0 to 6
        invariant Bytes() == PartlySwapped(f, i)
      {
        var tmp := Load(6 + i);
        Store(6 + i, Load(i));
        Store(i, tmp);
      }
    }

    method Load4(off: nat) returns (b: Bytes4)
      requires Valid() && off + 4 <= Length()
      ensures b == Field4(Bytes(), off)
    {
      b := [Load(off), Load(off + 1), Load(off + 2), Load(off + 3)];
    }

    /** bpf_xdp_adjust_head: moves the start, copies nothing, and refuses to leave the
        memory or to leave less than an Ethernet header. */
    method AdjustHead(delta: int) returns (failed: bool)
      requires Valid()
      modifies this`data
      ensures Valid()
      ensures failed <==> old(data) + delta < 0 || old(data) + delta + ETH_LEN > dataEnd
      ensures data == if failed then old(data) else old(data) + delta
      ensures failed ==> Bytes() == old(Bytes())
      ensures !failed && delta >= 0 ==> delta <= |old(Bytes())| && Bytes() == old(Bytes())[delta..]
      ensures !failed && delta < 0 ==> |Bytes()| == |old(Bytes())| - delta && Bytes()[-delta..] == old(Bytes())
    {
      if data + delta < 0 || data + delta + ETH_LEN > dataEnd {
        return true;
      }
      data := data + delta;
      return false;
    }

    /** bpf_xdp_adjust_tail: moves the end, zeroing what is gained. */
    method AdjustTail(delta: int) returns (failed: bool)
      requires Valid()
      modifies this`dataEnd, mem
      ensures Valid()
      ensures failed <==> old(dataEnd) + delta > mem.Length || old(dataEnd) + delta < data + ETH_LEN
      ensures failed ==> dataEnd == old(dataEnd) && Bytes() == old(Bytes())
      ensures !failed ==> dataEnd == old(dataEnd) + delta && Bytes() == Resized(old(Bytes()), dataEnd - data)
    {
      if dataEnd + delta > mem.Length || dataEnd + delta < data + ETH_LEN {
        return true;
      }
      var end := dataEnd;
      dataEnd := dataEnd + delta;
      for i := end to if dataEnd < end then end else dataEnd
        invariant Valid() && dataEnd == end + delta
        invariant mem[data..end] == old(Bytes())
        invariant forall k :: end <= k < i ==> mem[k] == 0
      {
        mem[i] := 0;
      }
      IsResized(old(Bytes()), Bytes());
      return false;
    }

    /** update_iph_checksum on the header at `off`. */
    method UpdateIphChecksum(off: nat)
      requires Valid() && off + IP_LEN <= Length()
      modifies mem
      ensures Bytes() == WithHeaderChecksum(old(Bytes()), off)
    {
      ghost var before := Bytes();
      StoreBytes(off + 10, [0, 0]);
      ZeroedHeader(before, off);
      var csum := SumHeader(off);
      StoreBytes(off + 10, RawBytes(SingleFold(csum)));
      SpliceOver(before, off + 10, [0, 0], RawBytes(SingleFold(csum)));
    }

    /** The loop over the ten header words. */
    method SumHeader(off: nat) returns (csum: u32)
      requires Valid() && off + IP_LEN <= Length()
      ensures csum == Sum(WordsLE(Bytes()[off..off + IP_LEN]))
    {
      ghost var h := Bytes()[off..off + IP_LEN];
      csum := 0;
      for i := 0 to 10
        invariant csum == Sum(WordsLE(h[..2 * i])) <= ONES * i
      {
        WordsStep(h, i);
        csum := csum + Word(Load(off + 2 * i), Load(off + 2 * i + 1));
      }
      assert h[..2 * 10] == h;
    }
  }

  /** A frame cut, or extended with zeros, to length n. */
  function Resized(f: Frame, n: nat): (r: Frame)
    ensures |r| == n
  {
    if n <= |f| then f[..n] else f + seq(n - |f|, _ => 0)
  }
}
