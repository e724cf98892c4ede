/** The Internet checksum (RFC 1071) as the data path computes it: three folds, an
    incremental update (RFC 1624), and the UDP checksum of the AF_XDP program.

    Words are 16-bit loads on a little-endian host. `Sum`, `Fold` and `Checksum` are
    the definition everything else is compared with. */
module Checksum {
  import opened Bits

  type Words = seq<u16>

  const ONES: u16 := 0xFFFF

  function Sum(ws: Words): nat {
    if ws == [] then 0 else ws[0] + Sum(ws[1..])
  }

  /** End-around carries added back until the sum fits in 16 bits. */
  function Fold(n: nat): (r: u16)
  {
    if n < U16 then n else Fold(n % U16 + n / U16)
  }

  function Checksum(ws: Words): u16 { ONES - Fold(Sum(ws)) }

  /** What a receiver checks: all words, the checksum among them, add up to ones. */
  predicate Verifies(ws: Words) { Fold(Sum(ws)) == ONES }

  // ------------------------------------------------- the arithmetic modulo 2^16 - 1

  /** The representative of n modulo 65535 that is 0 only for 0. */
  function Rep(n: nat): u16 { if n == 0 then 0 else 1 + (n - 1) % ONES }

  ghost predicate Congruent(x: int, y: int) { x % ONES == y % ONES }

  lemma CongruentBy(x: int, y: int, k: int)
    requires x == y + ONES * k
    ensures Congruent(x, y)
  {
  }

  lemma CongruentQuotient(x: int, y: int) returns (k: int)
    requires Congruent(x, y)
    ensures x == y + ONES * k
  {
    k := x / ONES - y / ONES;
  }

  lemma {:induction false} FoldIsRep(n: nat)
    ensures Fold(n) == Rep(n)
  {
    if n >= U16 {
      var m := n % U16 + n / U16;
      FoldIsRep(m);
      CongruentBy(n, m, n / U16);
      assert m > 0;
      RepCongruent(n, m);
    }
  }

  lemma RepCongruent(n: nat, m: nat)
    requires Congruent(n, m)
    ensures (n == 0) == (m == 0) ==> Rep(n) == Rep(m)
    ensures (n == 0) != (m == 0) ==> {Rep(n), Rep(m)} == {0, ONES}
  {
    var k := CongruentQuotient(n, m);
    if n > 0 && m > 0 {
      CongruentBy(n - 1, m - 1, k);
    } else if n > 0 {
      CongruentBy(n - 1, -1, k);
    } else if m > 0 {
      CongruentBy(m - 1, -1, -k);
    }
  }

  lemma RepFacts(n: nat)
    ensures Congruent(Rep(n), n)
    ensures Rep(n) == 0 <==> n == 0
    ensures Rep(n) == ONES <==> n > 0 && Congruent(n, 0)
  {
    if n > 0 {
      var q := (n - 1) / ONES;
      assert n - 1 == ONES * q + (n - 1) % ONES;
      CongruentBy(n, Rep(n), q);
      if Rep(n) == ONES { CongruentBy(n, 0, q + 1); }
      if Congruent(n, 0) {
        var k := CongruentQuotient(n, 0);
        CongruentBy(n - 1, -1, k);
      }
    }
  }

  // ------------------------------------------------------------------------ sums

  lemma {:induction false} SumConcat(a: Words, b: Words)
    ensures Sum(a + b) == Sum(a) + Sum(b)
  {
    if a == [] {
      assert a + b == b;
    } else {
      assert (a + b)[1..] == a[1..] + b;
      SumConcat(a[1..], b);
    }
  }

  lemma {:induction false} SumUpdate(ws: Words, i: nat, w: u16)
    requires i < |ws|
    ensures Sum(ws[i := w]) == Sum(ws) - ws[i] + w
  {
    if i > 0 {
      SumUpdate(ws[1..], i - 1, w);
      assert ws[i := w][1..] == ws[1..][i - 1 := w];
    } else {
      assert ws[0 := w][1..] == ws[1..];
    }
  }

  lemma {:induction false} SumAtLeast(ws: Words, i: nat)
    requires i < |ws|
    ensures Sum(ws) >= ws[i]
  {
    if i > 0 { SumAtLeast(ws[1..], i - 1); }
  }

  /** Storing the checksum of the other words makes the whole verify, always. */
  lemma StoredChecksumVerifies(ws: Words, k: nat)
    requires k < |ws| && ws[k] == 0
    ensures Verifies(ws[k := Checksum(ws)])
  {
    var n := Sum(ws);
    SumUpdate(ws, k, Checksum(ws));
    FoldIsRep(n);
    RepFacts(n);
    var q := CongruentQuotient(Rep(n), n);
    var total := n + ONES - Rep(n);
    CongruentBy(total, 0, 1 - q);
    FoldIsRep(total);
    RepFacts(total);
  }

  // ------------------------------------------------------------------- the folds

  lemma ShiftedUp(csum: u32)
    ensures (csum * U16) % U32 == csum % U16 * U16
  {
    var hi, lo := csum / U16, csum % U16;
    assert csum * U16 == U32 * hi + lo * U16;
    ModUnique(csum * U16, U32, hi, lo * U16);
  }

  /** csum_fold_helper: one rotate, one complement, one subtraction. */
  function CsumFoldHelper(csum: u32): u16 {
    ShiftedUp(csum);
    var r: u32 := (csum * U16) % U32 + csum / U16;
    var diff := Sub32(Not32(csum), r);
    diff / U16
  }

  /** The branch-free fold is the complement of the full fold on every 32-bit input. */
  lemma FoldHelperIsFold(csum: u32)
    ensures CsumFoldHelper(csum) == ONES - Fold(csum)
  {
    var hi, lo := csum / U16, csum % U16;
    var s := hi + lo;
    ShiftedUp(csum);
    var x := U32 - 1 - s * (U16 + 1);
    assert Not32(csum) - (lo * U16 + hi) == x;
    FoldOfHalves(csum);
    if s < U16 {
      assert x == U16 * (U16 - 1 - s) + (U16 - 1 - s);
      ModUnique(x, U32, 0, x);
      ModUnique(x, U16, U16 - 1 - s, U16 - 1 - s);
    } else {
      var t := s - U16;
      var y := x + U32;
      assert y == U16 * (U16 - 2 - t) + (U16 - 1 - t);
      ModUnique(x, U32, -1, y);
      ModUnique(y, U16, U16 - 2 - t, U16 - 1 - t);
    }
  }

  /** On 32 bits two rounds of the fold are enough. */
  lemma FoldOfHalves(csum: u32)
    ensures var s := csum % U16 + csum / U16; Fold(csum) == if s < U16 then s else s - ONES
  {
    var s := csum % U16 + csum / U16;
    if csum >= U16 {
      assert Fold(csum) == Fold(s);
      if s >= U16 { assert s % U16 + s / U16 == s - ONES; }
    }
  }

  /** csum_fold: the loop of the AF_XDP program. */
  method CsumFold(csum: u32) returns (r: u16)
    ensures r == ONES - Fold(csum)
  {
    var sum: u32 := csum;
    while sum / U16 != 0
      invariant Fold(sum) == Fold(csum)
      decreases sum
    {
      sum := sum % U16 + sum / U16;
    }
    r := ONES - sum;
  }

  /** The expression update_iph_checksum stores: one carry added back, truncated. */
  function SingleFold(csum: u32): u16 {
    Not32(csum % U16 + csum / U16) % U16
  }

  /** The single fold is the checksum exactly when the two halves add without carry;
      otherwise it is one too large. */
  lemma SingleFoldExact(csum: u32)
    ensures SingleFold(csum) == ONES - Fold(csum) <==> csum % U16 + csum / U16 < U16
    ensures csum % U16 + csum / U16 >= U16 ==> SingleFold(csum) == ONES - Fold(csum) + 1
  {
    var s := csum % U16 + csum / U16;
    FoldOfHalves(csum);
    if s < U16 {
      assert U32 - 1 - s == U16 * (U16 - 1) + (ONES - s);
      ModUnique(U32 - 1 - s, U16, U16 - 1, ONES - s);
    } else {
      assert U32 - 1 - s == U16 * (U16 - 2) + (2 * U16 - 1 - s);
      ModUnique(U32 - 1 - s, U16, U16 - 2, 2 * U16 - 1 - s);
    }
  }

  /** A header of ten words whose checksum word was zeroed and then given the single
      fold verifies exactly when the halves of the sum add without carry. */
  lemma SingleFoldVerifies(ws: Words, k: nat)
    requires |ws| == 10 && k < 10 && ws[k] == 0
    ensures Sum(ws) < U32
    ensures var s := Sum(ws) % U16 + Sum(ws) / U16;
            && (Verifies(ws[k := SingleFold(Sum(ws))]) <==> s < U16)
            && (s >= U16 ==> Fold(Sum(ws[k := SingleFold(Sum(ws))])) == 1)
  {
    SumBound(ws);
    var n := Sum(ws);
    SingleFoldExact(n);
    var s := n % U16 + n / U16;
    if s < U16 {
      StoredChecksumVerifies(ws, k);
    } else {
      SumUpdate(ws, k, SingleFold(n));
      FoldIsRep(n);
      RepFacts(n);
      var q := CongruentQuotient(Rep(n), n);
      var total := n + ONES - Rep(n) + 1;
      CongruentBy(total, 1, 1 - q);
      FoldIsRep(total);
      RepCongruent(total, 1);
    }
  }

  lemma {:induction false} SumBound(ws: Words)
    ensures Sum(ws) <= ONES * |ws|
  {
    if ws != [] { SumBound(ws[1..]); }
  }

  // ------------------------------------------------------- the incremental update

  function CsumAdd(addend: u32, csum: u32): u32 {
    var res := Add32(csum, addend);
    Add32(res, if res < addend then 1 else 0)
  }

  function CsumSub(addend: u32, csum: u32): u32 { CsumAdd(csum, Not32(addend)) }

  function CsumDiff4(from: u32, to: u32, csum: u16): u16 {
    var tmp := CsumSub(from, Not32(csum));
    CsumFoldHelper(CsumAdd(to, tmp))
  }

  /** Addition with end-around carry on 32 bits. */
  lemma CsumAddCongruent(a: u32, b: u32)
    ensures Congruent(CsumAdd(a, b), a + b)
    ensures CsumAdd(a, b) == 0 <==> a == 0 && b == 0
  {
    if a + b >= U32 {
      ModUnique(a + b, U32, 1, a + b - U32);
      assert CsumAdd(a, b) == a + b - U32 + 1;
      CongruentBy(CsumAdd(a, b), a + b, -(U16 + 1));
    } else {
      assert CsumAdd(a, b) == a + b;
    }
  }

  /** Equation 3 of RFC 1624: the result stands for csum + from - to, and it is never
      the all-ones representative. */
  lemma Diff4Congruent(from: u32, to: u32, csum: u16)
    ensures Congruent(CsumDiff4(from, to, csum), csum + from - to)
    ensures CsumDiff4(from, to, csum) != ONES
  {
    var tmp := CsumAdd(Not32(csum), Not32(from));
    CsumAddCongruent(Not32(csum), Not32(from));
    var x := CsumAdd(to, tmp);
    CsumAddCongruent(to, tmp);
    assert x > 0;
    FoldHelperIsFold(x);
    FoldIsRep(x);
    RepFacts(x);
    var k1 := CongruentQuotient(tmp, Not32(csum) + Not32(from));
    var k2 := CongruentQuotient(x, to + tmp);
    var k3 := CongruentQuotient(Rep(x), x);
    assert U32 - 1 == ONES * (U16 + 1);
    CongruentBy(ONES - Rep(x), csum + from - to, 1 - k1 - k2 - k3 - 2 * (U16 + 1));
  }

  /** The values a checksum field may carry for `ws`: the checksum, or UDP's 0xFFFF
      standing in for a checksum of 0. */
  predicate ValidField(ws: Words, c: u16) {
    c == Checksum(ws) || (Checksum(ws) == 0 && c == ONES)
  }

  lemma ValidFieldCongruent(ws: Words, c: u16)
    requires ValidField(ws, c)
    ensures Congruent(c, 0 - Sum(ws))
  {
    FoldIsRep(Sum(ws));
    RepFacts(Sum(ws));
    var q := CongruentQuotient(Rep(Sum(ws)), Sum(ws));
    CongruentBy(c, 0 - Sum(ws), if c == Checksum(ws) then 1 - q else 2 - q);
  }

  /** The incremental update equals recomputing over the whole sequence, for any length
      and position, exactly when the new sequence is not all zero. */
  lemma IncrementalIsRecomputation(ws: Words, i: nat, w: u16, c: u16)
    requires i < |ws| && ValidField(ws, c)
    ensures CsumDiff4(ws[i], w, c) == Checksum(ws[i := w]) <==> !AllZero(ws[i := w])
  {
    var ws' := ws[i := w];
    var n: int, n': int := Sum(ws), Sum(ws');
    var r: int := CsumDiff4(ws[i], w, c);
    SumUpdate(ws, i, w);
    ValidFieldCongruent(ws, c);
    Diff4Congruent(ws[i], w, c);
    var k1 := CongruentQuotient(c, 0 - n);
    var k2 := CongruentQuotient(r, c + ws[i] - w);
    CongruentBy(r, 0 - n', k1 + k2);
    FieldDecided(ws', r);
    SumZero(ws');
  }

  /** The residue determines a field that is not all ones, unless everything is zero. */
  lemma FieldDecided(ws: Words, r: u16)
    requires r != ONES && Congruent(r, 0 - Sum(ws))
    ensures r == Checksum(ws) <==> Sum(ws) != 0
  {
    var n: int := Sum(ws);
    FoldIsRep(n);
    RepFacts(n);
    var k1 := CongruentQuotient(r, 0 - n);
    var k2 := CongruentQuotient(Rep(n), n);
    assert Checksum(ws) - r == ONES * (1 - k1 - k2);
  }

  predicate AllZero(ws: Words) { forall j :: 0 <= j < |ws| ==> ws[j] == 0 }

  lemma {:induction false} SumZero(ws: Words)
    ensures Sum(ws) == 0 <==> AllZero(ws)
  {
    if ws != [] {
      SumZero(ws[1..]);
      assert forall j :: 0 <= j < |ws[1..]| ==> ws[1..][j] == ws[j + 1];
      if !AllZero(ws) {
        var j :| 0 <= j < |ws| && ws[j] != 0;
        SumAtLeast(ws, j);
      }
    }
  }

  // ---------------------------------------------------------- rewriting a port

  /** What encapsulate_ipip stores in the TCP checksum field. */
  function TcpRewrite(oldPort: u16, newPort: u16, c: u16): u16 { CsumDiff4(oldPort, newPort, c) }

  /** And in the UDP checksum field. */
  function UdpRewrite(oldPort: u16, newPort: u16, c: u16): u16 {
    if c == 0 then 0
    else
      var r := CsumDiff4(oldPort, newPort, c);
      if r == 0 then ONES else r
  }

  lemma RewriteCongruent(ws: Words, k: nat, p: nat, newPort: u16, r: u16)
    requires k < |ws| && p < |ws| && k != p
    requires Congruent(r, ws[k] + ws[p] - newPort)
    ensures Congruent(Sum(ws[p := newPort][k := r]), Sum(ws))
  {
    SumUpdate(ws, p, newPort);
    SumUpdate(ws[p := newPort], k, r);
    var q := CongruentQuotient(r, ws[k] + ws[p] - newPort);
    CongruentBy(Sum(ws[p := newPort][k := r]), Sum(ws), q);
  }

  lemma VerifiesIff(ws: Words)
    ensures Verifies(ws) <==> Sum(ws) > 0 && Congruent(Sum(ws), 0)
  {
    FoldIsRep(Sum(ws));
    RepFacts(Sum(ws));
  }

  /** The TCP port rewrite leaves a segment valid exactly when it was valid. `ws` holds
      the pseudo-header and the segment, checksum word included; some word besides the
      port and the checksum is non-zero, as the protocol number is. */
  lemma TcpRewriteKeepsValidity(ws: Words, k: nat, p: nat, newPort: u16, other: nat)
    requires k < |ws| && p < |ws| && k != p
    requires other < |ws| && other != k && other != p && ws[other] != 0
    ensures Verifies(ws[p := newPort][k := TcpRewrite(ws[p], newPort, ws[k])]) <==> Verifies(ws)
  {
    var r := TcpRewrite(ws[p], newPort, ws[k]);
    var ws' := ws[p := newPort][k := r];
    Diff4Congruent(ws[p], newPort, ws[k]);
    RewriteCongruent(ws, k, p, newPort, r);
    SumAtLeast(ws, other);
    SumAtLeast(ws', other);
    VerifiesIff(ws);
    VerifiesIff(ws');
  }

  /** The UDP port rewrite leaves a datagram valid exactly when it was valid, and keeps
      "no checksum" and "checksum" apart. */
  lemma UdpRewriteKeepsValidity(ws: Words, k: nat, p: nat, newPort: u16)
    requires k < |ws| && p < |ws| && k != p
    ensures var r := UdpRewrite(ws[p], newPort, ws[k]);
            && (r == 0 <==> ws[k] == 0)
            && (ws[k] != 0 ==> (Verifies(ws[p := newPort][k := r]) <==> Verifies(ws)))
  {
    if ws[k] != 0 {
      var r := UdpRewrite(ws[p], newPort, ws[k]);
      var ws' := ws[p := newPort][k := r];
      Diff4Congruent(ws[p], newPort, ws[k]);
      RewriteCongruent(ws, k, p, newPort, r);
      SumAtLeast(ws, k);
      SumAtLeast(ws', k);
      VerifiesIff(ws);
      VerifiesIff(ws');
    }
  }

  // ------------------------------------------------------------ words from bytes

  /** 16-bit loads on a little-endian host; an odd last byte is loaded alone. */
  function WordsLE(b: seq<u8>): Words
    decreases |b|
  {
    if b == [] then [] else if |b| == 1 then [b[0]]
    else [Word(b[0], b[1])] + WordsLE(b[2..])
  }

  /** The words in network order, an odd last byte padded with a zero byte. */
  function WordsBE(b: seq<u8>): Words
    decreases |b|
  {
    if b == [] then [] else if |b| == 1 then [Word(0, b[0])]
    else [Word(b[1], b[0])] + WordsBE(b[2..])
  }

  /** htons and ntohs on a little-endian host. */
  function Swap16(x: u16): u16 { x % 256 * 256 + x / 256 }

  function EvenBytes(b: seq<u8>): nat
    decreases |b|
  {
    if |b| < 2 then Sum(b) else b[0] + EvenBytes(b[2..])
  }

  lemma {:induction false} ByteOrderSums(b: seq<u8>)
    ensures Sum(WordsLE(b)) == 256 * Sum(WordsBE(b)) - ONES * EvenBytes(b)
    ensures Sum(WordsLE(b)) == 0 <==> Sum(WordsBE(b)) == 0
    decreases |b|
  {
    if |b| >= 2 {
      ByteOrderSums(b[2..]);
      assert WordsLE(b)[1..] == WordsLE(b[2..]);
      assert WordsBE(b)[1..] == WordsBE(b[2..]);
    } else if |b| == 1 {
      assert Sum(b) == b[0] + Sum(b[1..]);
      assert WordsLE(b)[1..] == [] && WordsBE(b)[1..] == [];
    }
  }

  lemma SwapCongruent(le: int, be: int, e: int, x: u16)
    requires le == 256 * be - ONES * e && Congruent(x, be)
    ensures Congruent(le, Swap16(x))
  {
    var q := CongruentQuotient(x, be);
    assert x == 256 * (x / 256) + x % 256;
    CongruentBy(le, Swap16(x), 0 - e - 256 * q + x / 256);
  }

  lemma SwapOfZero(x: u16)
    ensures Swap16(x) == 0 <==> x == 0
  {
    assert x == 256 * (x / 256) + x % 256;
  }

  lemma RepOfWord(w: u16)
    ensures Rep(w) == w
  {
    if w > 0 { ModUnique(w - 1, ONES, 0, w - 1); }
  }

  /** Section 2(B) of RFC 1071: summing the words in the host's order gives the network
      order sum with its two bytes swapped, for every byte string of any length. */
  lemma ByteOrderIndependence(b: seq<u8>)
    ensures Fold(Sum(WordsLE(b))) == Swap16(Fold(Sum(WordsBE(b))))
  {
    var le, be := Sum(WordsLE(b)), Sum(WordsBE(b));
    var x := Rep(be);
    ByteOrderSums(b);
    FoldIsRep(le);
    FoldIsRep(be);
    RepFacts(be);
    SwapCongruent(le, be, EvenBytes(b), x);
    SwapOfZero(x);
    RepCongruent(le, Swap16(x));
    RepOfWord(Swap16(x));
  }

  /** The n-th 16-bit word of a byte string, and a store to it. */
  lemma {:induction false} WordAt(b: seq<u8>, i: nat)
    requires 2 * i + 1 < |b|
    ensures i < |WordsLE(b)| && WordsLE(b)[i] == Word(b[2 * i], b[2 * i + 1])
    decreases |b|
  {
    if i > 0 { WordAt(b[2..], i - 1); }
  }

  lemma {:induction false} WordStore(b: seq<u8>, i: nat, w: u16)
    requires 2 * i + 1 < |b|
    ensures i < |WordsLE(b)|
    ensures WordsLE(b[2 * i := w % 256][2 * i + 1 := w / 256]) == WordsLE(b)[i := w]
    decreases |b|
  {
    WordAt(b, i);
    var b' := b[2 * i := w % 256][2 * i + 1 := w / 256];
    if i > 0 {
      WordStore(b[2..], i - 1, w);
      assert b'[2..] == b[2..][2 * (i - 1) := w % 256][2 * (i - 1) + 1 := w / 256];
    } else {
      assert b'[2..] == b[2..];
    }
  }

  // ------------------------------------------------------- the UDP checksum method

  /** The words udp_csum adds up before the datagram. */
  function PseudoHeader(saddr: u32, daddr: u32, len: u16, proto: u8): Words {
    [saddr % U16, saddr / U16, daddr % U16, daddr / U16, Swap16(proto), Swap16(len)]
  }

  /** They are the pseudo-header of RFC 768: both addresses as they lie in the IP header, a zero
      byte, the protocol, and the length in network order. */
  lemma PseudoHeaderBytes(saddr: u32, daddr: u32, len: u16, proto: u8)
    ensures PseudoHeader(saddr, daddr, len, proto) ==
            WordsLE(AddressBytes(saddr) + AddressBytes(daddr) + [0, proto] + [len / 256, len % 256])
  {
    SwappedWords(proto, len);
    PseudoHeaderParts(saddr, daddr, len, proto, AddressBytes(saddr), AddressBytes(daddr), [0, proto],
                      [len / 256, len % 256]);
  }

  lemma SwappedWords(proto: u8, len: u16)
    ensures Swap16(proto) == Word(0, proto) && Swap16(len) == Word(len / 256, len % 256)
  {
  }

  lemma PseudoHeaderParts(saddr: u32, daddr: u32, len: u16, proto: u8,
                          p: seq<u8>, q: seq<u8>, r: seq<u8>, t: seq<u8>)
    requires p == AddressBytes(saddr) && q == AddressBytes(daddr) && |r| == |t| == 2
    requires Word(r[0], r[1]) == Swap16(proto) && Word(t[0], t[1]) == Swap16(len)
    ensures PseudoHeader(saddr, daddr, len, proto) == WordsLE(p + q + r + t)
  {
    FourParts(p, q, r, t);
    TwoWords(saddr);
    TwoWords(daddr);
    OneWord(r);
    OneWord(t);
  }

  lemma FourParts(p: seq<u8>, q: seq<u8>, r: seq<u8>, t: seq<u8>)
    requires |p| == |q| == 4 && |r| == |t| == 2
    ensures WordsLE(p + q + r + t) == WordsLE(p) + WordsLE(q) + WordsLE(r) + WordsLE(t)
  {
    WordsConcat(p, 2, q);
    WordsConcat(p + q, 4, r);
    WordsConcat(p + q + r, 5, t);
  }

  lemma OneWord(b: seq<u8>)
    requires |b| == 2
    ensures WordsLE(b) == [Word(b[0], b[1])]
  {
    assert b[2..] == [];
  }

  lemma TwoWords(a: u32)
    ensures WordsLE(AddressBytes(a)) == [a % U16, a / U16]
  {
    var b := AddressBytes(a);
    assert b[2..] == [b[2], b[3]] && b[2..][2..] == [];
    assert WordsLE(b) == [Word(b[0], b[1])] + WordsLE(b[2..]);
    assert WordsLE(b[2..]) == [Word(b[2], b[3])] + WordsLE(b[2..][2..]);
    HalfBytes(a % U16);
    HalfBytes(a / U16);
    LowBytes(a);
  }

  lemma HalfBytes(w: u16)
    ensures Word(w % 0x100, w / 0x100) == w
  {
  }

  lemma LowBytes(a: u32)
    ensures a % 0x100 == a % U16 % 0x100 && a / 0x100 % 0x100 == a % U16 / 0x100
    ensures a / 0x1_0000 % 0x100 == a / U16 % 0x100 && a / 0x100_0000 == a / U16 / 0x100
  {
    var h, l := a / U16, a % U16;
    ModUnique(a, 0x100, 0x100 * h + l / 0x100, l % 0x100);
    ModUnique(0x100 * h + l / 0x100, 0x100, h, l / 0x100);
    ModUnique(a, 0x100_0000, h / 0x100, U16 * (h % 0x100) + l);
  }

  /** The four bytes of an address in memory. */
  function AddressBytes(a: u32): (b: seq<u8>)
    ensures |b| == 4
  {
    [a % 0x100, a / 0x100 % 0x100, a / 0x1_0000 % 0x100, a / 0x100_0000]
  }

  /** `(x & 0xffff) + (x >> 16)` */
  function Halves(x: u32): (h: nat)
    ensures h <= 2 * ONES
  {
    x % U16 + x / U16
  }

  lemma PseudoHeaderSum(saddr: u32, daddr: u32, len: u16, proto: u8)
    ensures Sum(PseudoHeader(saddr, daddr, len, proto)) ==
            Halves(saddr) + Halves(daddr) + Swap16(proto) + Swap16(len)
  {
    var p := PseudoHeader(saddr, daddr, len, proto);
    assert p == [p[0]] + ([p[1]] + ([p[2]] + ([p[3]] + ([p[4]] + [p[5]]))));
    SumConcat([p[4]], [p[5]]);
    SumConcat([p[3]], [p[4]] + [p[5]]);
    SumConcat([p[2]], [p[3]] + ([p[4]] + [p[5]]));
    SumConcat([p[1]], [p[2]] + ([p[3]] + ([p[4]] + [p[5]])));
    SumConcat([p[0]], [p[1]] + ([p[2]] + ([p[3]] + ([p[4]] + [p[5]]))));
  }

  /** The sum of the words up to an even position. */
  lemma {:induction false} WordsConcat(p: seq<u8>, k: nat, q: seq<u8>)
    requires |p| == 2 * k
    ensures WordsLE(p + q) == WordsLE(p) + WordsLE(q)
    decreases k
  {
    if k == 0 {
      assert p + q == q;
    } else {
      WordsConcat(p[2..], k - 1, q);
      assert (p + q)[2..] == p[2..] + q;
    }
  }

  lemma WordsSplit(b: seq<u8>, i: nat)
    requires 2 * i <= |b|
    ensures WordsLE(b) == WordsLE(b[..2 * i]) + WordsLE(b[2 * i..])
  {
    WordsConcat(b[..2 * i], i, b[2 * i..]);
    assert b[..2 * i] + b[2 * i..] == b;
  }

  lemma WordsStep(b: seq<u8>, i: nat)
    requires 2 * i + 2 <= |b|
    ensures Sum(WordsLE(b[..2 * i + 2])) == Sum(WordsLE(b[..2 * i])) + Word(b[2 * i], b[2 * i + 1])
  {
    var c := b[..2 * i + 2];
    WordsSplit(c, i);
    assert c[..2 * i] == b[..2 * i];
    assert c[2 * i..] == [b[2 * i], b[2 * i + 1]];
    assert WordsLE([b[2 * i], b[2 * i + 1]]) == [Word(b[2 * i], b[2 * i + 1])];
    SumConcat(WordsLE(b[..2 * i]), WordsLE(c[2 * i..]));
    assert Sum([Word(b[2 * i], b[2 * i + 1])]) == Word(b[2 * i], b[2 * i + 1]);
  }

  /** The sum of all words: that of the whole pairs, and an odd last byte. */
  lemma WordsEnd(b: seq<u8>)
    ensures Sum(WordsLE(b)) == Sum(WordsLE(b[..2 * (|b| / 2)])) + (if |b| % 2 == 1 then b[|b| - 1] else 0)
  {
    var i := |b| / 2;
    WordsSplit(b, i);
    var tail := b[2 * i..];
    SumConcat(WordsLE(b[..2 * i]), WordsLE(tail));
    if |b| % 2 == 1 {
      assert tail == [b[|b| - 1]];
      SumOfOne(b[|b| - 1]);
    } else {
      assert tail == [];
    }
  }

  lemma SumOfOne(w: u16)
    ensures Sum([w]) == w
  {
    assert [w][1..] == [];
  }

  /** udp_csum. `src` is the memory the pointer leads to. Every addition stays within
      uint32_t, which the type of `sum` makes a proof obligation. */
  method UdpCsum(saddr: u32, daddr: u32, len: u16, proto: u8, src: array<u8>) returns (r: u16)
    requires src.Length >= len
    ensures r == Checksum(PseudoHeader(saddr, daddr, len, proto) + WordsLE(src[..len]))
  {
    var sum: u32 := 0;
    sum := sum + Halves(saddr);
    sum := sum + Halves(daddr);
    sum := sum + Swap16(proto);
    sum := sum + Swap16(len);
    sum := AddWords(sum, src, len);
    UdpSum(saddr, daddr, proto, src[..len]);
    if len % 2 == 1 {
      sum := sum + src[len - 1];
    }
    r := CsumFold(sum);
  }

  /** The loop over the whole words. */
  method AddWords(head: u32, src: array<u8>, len: u16) returns (sum: u32)
    requires src.Length >= len && head <= 6 * ONES
    ensures sum == head + Sum(WordsLE(src[..len][..2 * (len / 2)])) <= head + ONES * (len / 2)
  {
    sum := head;
    ghost var d := src[..len];
    var count := len / 2;
    for i := 0 to count
      invariant sum == head + Sum(WordsLE(d[..2 * i])) <= head + ONES * i
    {
      WordsStep(d, i);
      sum := sum + Word(src[2 * i], src[2 * i + 1]);
    }
  }

  /** The whole sum in the order the loop takes it. */
  lemma UdpSum(saddr: u32, daddr: u32, proto: u8, d: seq<u8>)
    requires |d| < U16
    ensures Sum(PseudoHeader(saddr, daddr, |d|, proto) + WordsLE(d)) ==
            Halves(saddr) + Halves(daddr) + Swap16(proto) + Swap16(|d|) +
            Sum(WordsLE(d[..2 * (|d| / 2)])) + (if |d| % 2 == 1 then d[|d| - 1] else 0)
  {
    WordsEnd(d);
    PseudoHeaderSum(saddr, daddr, |d|, proto);
    SumConcat(PseudoHeader(saddr, daddr, |d|, proto), WordsLE(d));
  }

  /** Zeroing the checksum field, computing udp_csum and storing it makes pseudo-header
      and datagram verify, for every even or odd length that reaches past the field. */
  lemma StoredUdpCsumVerifies(saddr: u32, daddr: u32, proto: u8, d: seq<u8>)
    requires 8 <= |d| < U16 && d[6] == d[7] == 0
    ensures var head := PseudoHeader(saddr, daddr, |d|, proto);
            var c := Checksum(head + WordsLE(d));
            Verifies(head + WordsLE(d[6 := c % 256][7 := c / 256]))
  {
    var head := PseudoHeader(saddr, daddr, |d|, proto);
    var c := Checksum(head + WordsLE(d));
    WordAt(d, 3);
    WordStore(d, 3, c);
    StoredChecksumVerifies(head + WordsLE(d), 9);
    assert (head + WordsLE(d))[9 := c] == head + WordsLE(d)[3 := c];
  }

  /** udp_csum answers 0 exactly when the words already add up to ones, and the caller
      stores that 0, which RFC 768 reads as "no checksum". */
  lemma ZeroChecksumIff(ws: Words)
    ensures Checksum(ws) == 0 <==> Sum(ws) > 0 && Congruent(Sum(ws), 0)
  {
    VerifiesIff(ws);
  }

  /** The challenge reply the AF_XDP worker sends from 203.0.113.10:27015 to
      198.51.100.7:50000 when the token it drew has the bytes 1, 41, 173, 2: UDP header,
      the code 0x41 and the token. */
  function ChallengeReply(): (d: seq<u8>)
    ensures |d| == 17
  {
    [0x69, 0x87, 0xC3, 0x50, 0, 17, 0, 0] + [0xFF, 0xFF, 0xFF, 0xFF, 0x41, 1, 41, 173] + [2]
  }

  /** 203.0.113.10 and 198.51.100.7, as loaded. */
  const VIP: u32 := 203 + 0x1_0000 * 113 + 0x100_0000 * 10
  const CLIENT: u32 := 198 + 0x100 * 51 + 0x1_0000 * 100 + 0x100_0000 * 7

  /** For this reply the checksum stored is 0. */
  lemma ZeroChecksumExample()
    ensures Checksum(PseudoHeader(VIP, CLIENT, |ChallengeReply()|, 17) + WordsLE(ChallengeReply())) == 0
  {
    var head, d := PseudoHeader(VIP, CLIENT, 17, 17), ChallengeReply();
    ReplySum();
    ReplyHeadSum();
    SumConcat(head, WordsLE(d));
    FoldsToOnes();
  }

  lemma ReplyHeadSum()
    ensures Sum(PseudoHeader(VIP, CLIENT, 17, 17)) == 0x6866
  {
    HalvesOf(VIP, 203, 2673);
    HalvesOf(CLIENT, 13254, 1892);
    PseudoHeaderSum(VIP, CLIENT, 17, 17);
    assert Swap16(17) == 0x1100;
  }

  lemma HalvesOf(x: u32, lo: u16, hi: u16)
    requires x == U16 * hi + lo
    ensures Halves(x) == lo + hi
  {
    ModUnique(x, U16, hi, lo);
  }

  lemma ReplySum()
    ensures Sum(WordsLE(ChallengeReply())) == 0x39796
  {
    var d := ChallengeReply();
    var first: seq<u8>, second: seq<u8>, last: seq<u8> := d[..8], d[8..16], d[16..];
    assert first == [0x69, 0x87, 0xC3, 0x50, 0, 17, 0, 0];
    assert second == [0xFF, 0xFF, 0xFF, 0xFF, 0x41, 1, 41, 173] && last == [2];
    SumInThree(first, second, last, 4);
    assert first + second + last == d;
    FourWords(first);
    FourWords(second);
    SumOfOne(2);
  }

  lemma SumInThree(p: seq<u8>, q: seq<u8>, r: seq<u8>, k: nat)
    requires |p| == |q| == 2 * k
    ensures Sum(WordsLE(p + q + r)) == Sum(WordsLE(p)) + Sum(WordsLE(q)) + Sum(WordsLE(r))
  {
    WordsConcat(p + q, 2 * k, r);
    WordsConcat(p, k, q);
    SumConcat(WordsLE(p) + WordsLE(q), WordsLE(r));
    SumConcat(WordsLE(p), WordsLE(q));
  }

  lemma FoldsToOnes()
    ensures Fold(0x3FFFC) == ONES
  {
    assert Fold(0x3FFFC) == Fold(ONES);
  }

  lemma FourWords(h: seq<u8>)
    requires |h| == 8
    ensures Sum(WordsLE(h)) == Word(h[0], h[1]) + Word(h[2], h[3]) + Word(h[4], h[5]) + Word(h[6], h[7])
  {
    FirstWord(h, h[2..]);
    FirstWord(h[2..], h[4..]);
    FirstWord(h[4..], h[6..]);
    FirstWord(h[6..], []);
  }

  lemma FirstWord(h: seq<u8>, rest: seq<u8>)
    requires |h| >= 2 && h[2..] == rest
    ensures Sum(WordsLE(h)) == Word(h[0], h[1]) + Sum(WordsLE(rest))
  {
    assert ([Word(h[0], h[1])] + WordsLE(rest))[1..] == WordsLE(rest);
  }
}
