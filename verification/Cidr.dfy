/** The keys of the CIDR tries, as text: printed by formatLpmKey, read by parseCIDR. */
module Cidr {
  import opened Bits
  import opened NetText
  import opened Wrappers

  /** lpm_trie_key_t: the data word holds the four address bytes, first byte lowest. */
  datatype Key = Key(prefixLen: u32, data: u32)

  // ---------------------------------------------------------------------------- masks

  /** binary.LittleEndian.Uint32 and PutUint32. */
  function LittleEndian(a: Addr): u32 {
    a.b0 + 0x100 * (a.b1 as int) + 0x1_0000 * (a.b2 as int) + 0x100_0000 * (a.b3 as int)
  }

  function AddrOf(data: u32): Addr {
    var q := data / 0x100;
    Addr(data % 0x100, q % 0x100, q / 0x100 % 0x100, q / 0x100 / 0x100)
  }

  lemma WordOfBytes(data: u32)
    ensures LittleEndian(AddrOf(data)) == data
  {
    var q := data / 0x100;
    var r := q / 0x100;
    assert data == 0x100 * q + data % 0x100 && q == 0x100 * r + q % 0x100 && r == 0x100 * (r / 0x100) + r % 0x100;
  }

  lemma BytesOfWord(a: Addr)
    ensures AddrOf(LittleEndian(a)) == a
  {
    var r := a.b2 + 0x100 * (a.b3 as int);
    var q := a.b1 + 0x100 * r;
    ModUnique(LittleEndian(a), 0x100, q, a.b0);
    ModUnique(q, 0x100, r, a.b1);
    ModUnique(r, 0x100, a.b3, a.b2);
  }

  /** The mask bits that fall to byte `i` of a prefix of length `n`. */
  function KeptBits(n: nat, i: nat): (k: nat)
    ensures k <= 8
  {
    if n >= 8 * (i + 1) then 8 else if n <= 8 * i then 0 else n - 8 * i
  }

  lemma RemainderAtMost(b: nat, p: nat)
    requires p > 0
    ensures b % p <= b
  {
    if b < p { ModUnique(b, p, 0, b); }
  }

  /** A byte with all but its `k` high bits cleared. */
  function MaskByte(b: u8, k: nat): (r: u8)
    requires k <= 8
  {
    RemainderAtMost(b, Pow2(8 - k));
    b - b % Pow2(8 - k)
  }

  /** net.CIDRMask and IP.Mask. */
  function Masked(a: Addr, n: nat): Addr {
    Addr(MaskByte(a.b0, KeptBits(n, 0)), MaskByte(a.b1, KeptBits(n, 1)),
         MaskByte(a.b2, KeptBits(n, 2)), MaskByte(a.b3, KeptBits(n, 3)))
  }

  /** The address as a number, first byte highest. */
  function Number(a: Addr): nat {
    0x100_0000 * (a.b0 as int) + 0x1_0000 * (a.b1 as int) + 0x100 * (a.b2 as int) + a.b3
  }

  // --------------------------------------------------------------- keys as texts

  function Format(key: Key): string {
    var ip := FormatIP(AddrOf(key.data));
    if key.prefixLen == 32 then ip else ip + "/" + Digits(key.prefixLen)
  }

  /** dtoi on the whole mask text, then the range check: leading zeros are fine, and the
      overflow cut-off at 0xFFFFFF is above every length that passes the check. */
  function ParseMask(s: string, bits: nat): Option<nat> {
    if s != "" && AllDigits(s) && Value(s) <= bits then Some(Value(s)) else None
  }

  /** The network of an address: of 32 bits, or of 128. */
  function Network(ip: IP, n: nat): IP {
    match ip
    case V4(a) => V4(Masked(a, n))
    case V6(b) => V6(seq(16, i requires 0 <= i < 16 => MaskByte(b[i], KeptBits(n, i))))
  }

  /** net.ParseCIDR: the network and its length. */
  function ParseNet(s: string): Option<(IP, nat)> {
    match Cut(s, '/')
    case None => None
    case Some((addr, mask)) =>
      match ParseAddr(addr)
      case None => None
      case Some(ip) =>
        match ParseMask(mask, if ip.V4? then 32 else 128)
        case None => None
        case Some(n) => Some((Network(ip, n), n))
  }

  function KeyOf(ip: IP, n: u32): Option<Key> {
    match To4(ip) case Some(a) => Some(Key(n, LittleEndian(a))) case None => None
  }

  /** parseCIDR: a network, or else a bare address; either way an address of four bytes. */
  function Parse(s: string): Option<Key> {
    match ParseNet(s)
    case Some((ip, n)) => if n <= 128 then KeyOf(ip, n) else None
    case None =>
      match ParseAddr(s)
      case Some(ip) => KeyOf(ip, 32)
      case None => None
  }

  /** A key with a possible length and no bit set beyond it. */
  predicate Canonical(key: Key) {
    key.prefixLen <= 32 && Masked(AddrOf(key.data), key.prefixLen) == AddrOf(key.data)
  }

  function MaskedKey(key: Key): Key {
    Key(key.prefixLen, LittleEndian(Masked(AddrOf(key.data), key.prefixLen)))
  }

  lemma NoNetwork(s: string)
    requires '/' !in s
    ensures ParseNet(s) == None
  {
    match Cut(s, '/')
    case None =>
    case Some((ip, mask)) => CutJoined(s, '/', ip, mask);
  }

  lemma ParseBare(s: string, ip: IP)
    requires ParseAddr(s) == Some(ip)
    ensures Parse(s) == KeyOf(ip, 32)
  {
    AddressChars(s);
    NoNetwork(s);
  }

  lemma ParseWithMask(addr: string, ip: IP, mask: string)
    requires ParseAddr(addr) == Some(ip)
    ensures Parse(addr + "/" + mask) ==
            match ParseMask(mask, if ip.V4? then 32 else 128)
            case Some(n) => KeyOf(Network(ip, n), n)
            case None => None
  {
    var s := addr + "/" + mask;
    AddressChars(addr);
    CutJoined(s, '/', addr, mask);
    assert s[|addr|] == '/';
    if ParseAddr(s).Some? { AddressChars(s); }
  }

  /** Reading a printed key gives the key with its host bits cleared, for every data word
      and every length up to 32; a longer length is printed but not read. */
  lemma ParseFormat(key: Key)
    ensures Parse(Format(key)) == if key.prefixLen <= 32 then Some(MaskedKey(key)) else None
  {
    var a := AddrOf(key.data);
    AddressText(FormatIP(a), a);
    if key.prefixLen == 32 {
      ParseBare(FormatIP(a), V4(a));
      FullMask(a);
    } else {
      ValueOfDigits(key.prefixLen);
      ParseWithMask(FormatIP(a), V4(a), Digits(key.prefixLen));
    }
  }

  lemma FullMask(a: Addr)
    ensures Masked(a, 32) == a
  {
  }

  /** So printing and reading is the identity exactly on the canonical keys. */
  lemma RoundTripIff(key: Key)
    ensures Parse(Format(key)) == Some(key) <==> Canonical(key)
  {
    ParseFormat(key);
    WordOfBytes(key.data);
    BytesOfWord(Masked(AddrOf(key.data), key.prefixLen));
  }

  /** Masking twice is masking once. */
  lemma MaskByteTwice(b: u8, k: nat)
    requires k <= 8
    ensures MaskByte(MaskByte(b, k), k) == MaskByte(b, k)
  {
    var p := Pow2(8 - k);
    assert b == p * (b / p) + b % p;
    ModUnique(MaskByte(b, k), p, b / p, 0);
  }

  lemma MaskedTwice(a: Addr, n: nat)
    ensures Masked(Masked(a, n), n) == Masked(a, n)
  {
    MaskByteTwice(a.b0, KeptBits(n, 0));
    MaskByteTwice(a.b1, KeptBits(n, 1));
    MaskByteTwice(a.b2, KeptBits(n, 2));
    MaskByteTwice(a.b3, KeptBits(n, 3));
  }

  lemma MaskedIsCanonical(a: Addr, n: u32)
    requires n <= 32
    ensures Canonical(Key(n, LittleEndian(Masked(a, n))))
  {
    BytesOfWord(Masked(a, n));
    MaskedTwice(a, n);
  }

  lemma MaskedOnes(b: u8, k: nat)
    requires k <= 8
    ensures MaskByte(b, k) == 0xFF ==> k == 8
  {
    if k < 8 {
      var p := Pow2(7 - k);
      assert Pow2(8 - k) == 2 * p;
      HalvedMod(b, p);
      assert (b - b % Pow2(8 - k)) % 2 == 0;
    }
  }

  /** A network of 128 bits gives four bytes only if it keeps the 96 before them. */
  lemma MappedNetwork(b: Bytes16, n: nat)
    requires n <= 128 && To4(Network(V6(b), n)).Some?
    ensures n >= 96
  {
    MaskedOnes(b[11], KeptBits(n, 11));
  }

  /** What is read, and when it is canonical: exactly when its length is at most 32, which
      is when the text is not an IPv6 network. Under the same condition the printed text
      finds the key again. */
  lemma ParsedIsCanonicalIff(s: string, key: Key)
    requires Parse(s) == Some(key)
    ensures Canonical(key) <==> key.prefixLen <= 32
    ensures key.prefixLen <= 32 <==> !(':' in s && '/' in s)
    ensures key.prefixLen <= 32 || 96 <= key.prefixLen <= 128
    ensures Parse(Format(key)) == if key.prefixLen <= 32 then Some(key) else None
  {
    RoundTripIff(key);
    ParseFormat(key);
    if ParseNet(s).Some? {
      ReadNetwork(s, key);
    } else {
      var a := To4(ParseAddr(s).value).value;
      AddressChars(s);
      FullMask(a);
      MaskedIsCanonical(a, 32);
    }
  }

  lemma ReadNetwork(s: string, key: Key)
    requires Parse(s) == Some(key) && ParseNet(s).Some?
    ensures Canonical(key) <==> key.prefixLen <= 32
    ensures key.prefixLen <= 32 <==> !(':' in s && '/' in s)
    ensures key.prefixLen <= 32 || 96 <= key.prefixLen <= 128
  {
    var (addr, mask) := Cut(s, '/').value;
    CutJoined(s, '/', addr, mask);
    AddressChars(addr);
    assert ':' !in mask by {
      assert AllDigits(mask);
    }
    match ParseAddr(addr).value
    case V4(a) => MaskedIsCanonical(a, key.prefixLen);
    case V6(b) => MappedNetwork(b, key.prefixLen);
  }

  lemma MappedNetworkMasked(a: Addr, n: nat)
    requires 96 <= n <= 128
    ensures Network(V6(Mapped(a)), n) == V6(Mapped(Masked(a, n - 96)))
  {
    var (b, c) := (Mapped(a), Mapped(Masked(a, n - 96)));
    var m := Network(V6(b), n).bytes;
    assert KeptBits(n, 12) == KeptBits(n - 96, 0) && KeptBits(n, 13) == KeptBits(n - 96, 1);
    assert KeptBits(n, 14) == KeptBits(n - 96, 2) && KeptBits(n, 15) == KeptBits(n - 96, 3);
    forall i | 0 <= i < 16 ensures m[i] == c[i] {
      if i < 12 { MaskByteEnds(b[i]); }
    }
  }

  /** The mapped form, bare and as a network, for every address and every length: bare it
      reads as the address, and as a network with lengths 96 to 128, which no key has. */
  lemma MappedRead(a: Addr, n: nat)
    ensures Parse("::ffff:" + FormatIP(a)) == Some(Key(32, LittleEndian(a)))
    ensures Parse("::ffff:" + FormatIP(a) + "/" + Digits(n)) ==
            if 96 <= n <= 128 then Some(Key(n, LittleEndian(Masked(a, n - 96)))) else None
  {
    var s := "::ffff:" + FormatIP(a);
    MappedText(a);
    ParseBare(s, V6(Mapped(a)));
    ValueOfDigits(n);
    ParseWithMask(s, V6(Mapped(a)), Digits(n));
    if 96 <= n <= 128 {
      MappedNetworkMasked(a, n);
      MappedBack(Masked(a, n - 96));
    } else if n < 96 && To4(Network(V6(Mapped(a)), n)).Some? {
      MappedNetwork(Mapped(a), n);
    }
  }

  lemma MappedBack(a: Addr)
    ensures To4(V6(Mapped(a))) == Some(a)
  {
    assert Mapped(a)[..10] == Zeros(10);
  }

  /** So not every key that is read is canonical: every such network gives a key whose printed
      text is not read. */
  lemma MappedNetworksAreLost(a: Addr, n: nat)
    requires 96 <= n <= 128
    ensures var key := Key(n, LittleEndian(Masked(a, n - 96)));
            && Parse("::ffff:" + FormatIP(a) + "/" + Digits(n)) == Some(key)
            && !Canonical(key)
            && Format(key) == FormatIP(Masked(a, n - 96)) + "/" + Digits(n) && Parse(Format(key)) == None
  {
    MappedRead(a, n);
    BytesOfWord(Masked(a, n - 96));
    ParseFormat(Key(n, LittleEndian(Masked(a, n - 96))));
  }

  /** The texts of that example, and its mask of 104 - 96 bits. */
  lemma TenText()
    ensures Digits(104) == "104" && FormatIP(Addr(10, 0, 0, 0)) == "10.0.0.0"
  {
    assert Digits(10) == "10" && Digits(0) == "0";
  }

  lemma FirstByteOnly(b: u8, n: nat)
    requires n == 8
    ensures Masked(Addr(b, 0, 0, 0), n) == Addr(b, 0, 0, 0)
  {
    MaskedBytes(Addr(b, 0, 0, 0), n);
    MaskByteEnds(b);
  }

  lemma TenNetwork(text: string, shown: string, a: Addr, n: nat)
    requires a == Addr(10, 0, 0, 0) && n == 104
    requires text == "::ffff:" + FormatIP(a) + "/" + Digits(n) && shown == FormatIP(a) + "/" + Digits(n)
    ensures Parse(text).Some? && !Canonical(Parse(text).value)
    ensures Format(Parse(text).value) == shown && Parse(shown) == None
  {
    MappedNetworksAreLost(a, n);
    FirstByteOnly(10, n - 96);
  }

  /** The example written out: the key of this text prints as one that is not read. */
  lemma MappedTen(text: string, shown: string)
    requires text == "::ffff:10.0.0.0/104" && shown == "10.0.0.0/104"
    ensures Parse(text).Some? && !Canonical(Parse(text).value)
    ensures Format(Parse(text).value) == shown && Parse(shown) == None
  {
    TenText();
    TenNetwork(text, shown, Addr(10, 0, 0, 0), 104);
  }

  /** Distinct keys print differently. */
  lemma FormatInjective(key: Key, key': Key)
    requires Format(key) == Format(key')
    ensures key == key'
  {
    var (a, a') := (AddrOf(key.data), AddrOf(key'.data));
    SlashOf(key);
    SlashOf(key');
    DottedText(FormatIP(a), a);
    DottedText(FormatIP(a), a');
    ValueOfDigits(key.prefixLen);
    ValueOfDigits(key'.prefixLen);
    WordOfBytes(key.data);
    WordOfBytes(key'.data);
  }

  lemma SlashOf(key: Key)
    ensures var ip := FormatIP(AddrOf(key.data));
            if key.prefixLen == 32 then Cut(Format(key), '/') == None && Format(key) == ip
            else Cut(Format(key), '/') == Some((ip, Digits(key.prefixLen)))
  {
    var ip := FormatIP(AddrOf(key.data));
    NotDotted(AddrOf(key.data), '/');
    CutJoined(Format(key), '/', ip, Digits(key.prefixLen));
    match Cut(Format(key), '/')
    case None =>
    case Some((x, y)) => CutJoined(Format(key), '/', x, y);
  }

  // ------------------------------------------------------------- masks as arithmetic

  lemma Regroup(a: int, b: int, c: int)
    ensures a * (b * c) == (a * b) * c
  {
  }

  lemma {:induction false} Pow2Sum(j: nat, k: nat)
    ensures Pow2(j + k) == Pow2(j) * Pow2(k)
  {
    if j > 0 {
      Pow2Sum(j - 1, k);
      Regroup(2, Pow2(j - 1), Pow2(k));
      assert j - 1 + k == j + k - 1;
    }
  }

  lemma MaskByteEnds(b: u8)
    ensures MaskByte(b, 8) == b && MaskByte(b, 0) == 0
  {
    Pow2Sum(4, 4);
    assert Pow2(4) == 16;
  }

  /** Clearing the remainder of the high part rounds the whole number down. */
  lemma RoundedDown(y: nat, p: nat, m: nat, lo: nat)
    requires lo < m && p > 0
    ensures m * p > 0
    ensures m * (y - y % p) == (m * y + lo) - (m * y + lo) % (m * p)
  {
    var q, r := y / p, y % p;
    assert y - r == p * q;
    assert m * (p * q) == (m * p) * q by { Regroup(m, p, q); }
    assert m * y == (m * p) * q + m * r by { Distributes(m, p * q, r); }
    assert m * r + m <= m * p by { Distributes(m, r, p - r); ProductAtLeast(m, p - r); }
    RoundedBy(m * y + lo, m * p, q, m * r + lo);
  }

  lemma RoundedBy(x: int, d: int, q: int, r: int)
    requires 0 <= r < d && x == d * q + r
    ensures x - x % d == d * q
  {
    ModUnique(x, d, q, r);
  }

  lemma Distributes(m: int, a: int, b: int)
    ensures m * (a + b) == m * a + m * b
  {
  }

  lemma WholeBytes()
    ensures Pow2(8) == 0x100 && Pow2(16) == 0x1_0000 && Pow2(24) == 0x100_0000
  {
    assert Pow2(4) == 16;
    Pow2Sum(4, 4);
    Pow2Sum(8, 8);
    Pow2Sum(8, 16);
  }

  /** A byte's low bits are those of any number that ends in it. */
  lemma LowBits(hi: nat, b: u8, k: nat)
    requires k <= 8
    ensures (0x100 * hi + b) % Pow2(8 - k) == b % Pow2(8 - k)
  {
    Pow2Sum(8 - k, k);
    WholeBytes();
    LowPart(Pow2(8 - k), Pow2(k), hi, b);
  }

  lemma LowPart(p: nat, c: nat, hi: nat, b: nat)
    requires p > 0 && p * c == 0x100
    ensures (0x100 * hi + b) % p == b % p
  {
    Regroup(p, c, hi);
    Distributes(p, c * hi, b / p);
    ModUnique(0x100 * hi + b, p, c * hi + b / p, b % p);
  }

  /** In a number `x` with byte `b` above `m` low values and `hi` above it, clearing all but
      `k` bits of `b` and everything below it rounds down. */
  lemma ByteRoundedDown(x: nat, hi: nat, b: u8, lo: nat, m: nat, k: nat, d: nat)
    requires lo < m && k <= 8
    requires x == m * (0x100 * hi + b) + lo && d == m * Pow2(8 - k)
    ensures d > 0 && m * (0x100 * hi + MaskByte(b, k)) == x - x % d
  {
    LowBits(hi, b, k);
    RoundedDown(0x100 * hi + b, Pow2(8 - k), m, lo);
  }

  lemma MaskedBytes(a: Addr, n: nat)
    ensures n <= 8 ==> Masked(a, n) == Addr(MaskByte(a.b0, n), 0, 0, 0)
    ensures 8 < n <= 16 ==> Masked(a, n) == Addr(a.b0, MaskByte(a.b1, n - 8), 0, 0)
    ensures 16 < n <= 24 ==> Masked(a, n) == Addr(a.b0, a.b1, MaskByte(a.b2, n - 16), 0)
    ensures 24 < n <= 32 ==> Masked(a, n) == Addr(a.b0, a.b1, a.b2, MaskByte(a.b3, n - 24))
  {
    MaskByteEnds(a.b0);
    MaskByteEnds(a.b1);
    MaskByteEnds(a.b2);
    MaskByteEnds(a.b3);
  }

  predicate RoundsDown(y: nat, x: nat, d: nat)
    requires d > 0
  {
    y == x - x % d
  }

  lemma ByteCase(x: nat, hi: nat, b: u8, lo: nat, m: nat, k: nat, d: nat)
    requires lo < m && k <= 8 && d > 0
    requires x == m * (0x100 * hi + b) + lo && d == Pow2(8 - k) * m
    ensures MaskByte(b, k) >= 0 && RoundsDown(m * (0x100 * hi + MaskByte(b, k)), x, d)
  {
    ByteRoundedDown(x, hi, b, lo, m, k, d);
  }

  /** The masked number, by the byte that is cut. */
  lemma MaskedNumber(a: Addr, n: nat)
    ensures n <= 8 ==> Number(Masked(a, n)) == 0x100_0000 * (0x100 * 0 + MaskByte(a.b0, n))
    ensures 8 < n <= 16 ==> Number(Masked(a, n)) == 0x1_0000 * (0x100 * (a.b0 as int) + MaskByte(a.b1, n - 8))
    ensures 16 < n <= 24 ==>
              Number(Masked(a, n)) == 0x100 * (0x100 * HighBytes(a, 2) + MaskByte(a.b2, n - 16))
    ensures 24 < n <= 32 ==>
              Number(Masked(a, n)) == 1 * (0x100 * HighBytes(a, 3) + MaskByte(a.b3, n - 24))
  {
    MaskedBytes(a, n);
  }

  function HighBytes(a: Addr, k: nat): nat {
    if k == 3 then 0x1_0000 * (a.b0 as int) + 0x100 * (a.b1 as int) + a.b2 else 0x100 * (a.b0 as int) + a.b1
  }

  lemma FirstByte(a: Addr, n: nat)
    requires n <= 8
    ensures RoundsDown(Number(Masked(a, n)), Number(a), Pow2(32 - n))
  {
    MaskedNumber(a, n);
    var low := 0x1_0000 * (a.b1 as int) + 0x100 * (a.b2 as int) + a.b3;
    WholeBytes();
    HostBits(8 - n, 24, 0x100_0000, 32 - n);
    ByteCase(Number(a), 0, a.b0, low, 0x100_0000, n, Pow2(32 - n));
  }

  lemma SecondByte(a: Addr, n: nat)
    requires 8 < n <= 16
    ensures RoundsDown(Number(Masked(a, n)), Number(a), Pow2(32 - n))
  {
    MaskedNumber(a, n);
    var low := 0x100 * (a.b2 as int) + a.b3;
    WholeBytes();
    HostBits(16 - n, 16, 0x1_0000, 32 - n);
    ByteCase(Number(a), a.b0, a.b1, low, 0x1_0000, n - 8, Pow2(32 - n));
  }

  lemma ThirdByte(a: Addr, n: nat)
    requires 16 < n <= 24
    ensures RoundsDown(Number(Masked(a, n)), Number(a), Pow2(32 - n))
  {
    MaskedNumber(a, n);
    WholeBytes();
    HostBits(24 - n, 8, 0x100, 32 - n);
    ByteCase(Number(a), HighBytes(a, 2), a.b2, a.b3, 0x100, n - 16, Pow2(32 - n));
  }

  lemma FourthByte(a: Addr, n: nat)
    requires 24 < n <= 32
    ensures RoundsDown(Number(Masked(a, n)), Number(a), Pow2(32 - n))
  {
    MaskedNumber(a, n);
    HostBits(32 - n, 0, 1, 32 - n);
    ByteCase(Number(a), HighBytes(a, 3), a.b3, 0, 1, n - 24, Pow2(32 - n));
  }

  lemma HostBits(k: nat, rest: nat, m: nat, e: nat)
    requires e == k + rest && Pow2(rest) == m
    ensures Pow2(e) == Pow2(k) * m
  {
    Pow2Sum(k, rest);
  }

  /** The network of an address: its number rounded down to a multiple of 2^(32 - n). */
  lemma MaskClearsHostBits(a: Addr, n: nat)
    requires n <= 32
    ensures Number(Masked(a, n)) == Number(a) - Number(a) % Pow2(32 - n)
  {
    if n <= 8 { FirstByte(a, n); }
    else if n <= 16 { SecondByte(a, n); }
    else if n <= 24 { ThirdByte(a, n); }
    else { FourthByte(a, n); }
    assert RoundsDown(Number(Masked(a, n)), Number(a), Pow2(32 - n));
  }

  // --------------------------------------------------------------------- the CIDR maps

  ghost predicate AllCanonical(entries: map<Key, u64>) {
    forall key <- entries :: Canonical(key)
  }

  /** The kernel's trie for keys of 32 bits refuses longer prefixes. */
  const TRIE_BITS: nat := 32

  /** The blacklist or whitelist trie, as the finite map the control plane edits. */
  class CidrMap {
    var entries: map<Key, u64>

    ghost predicate Valid()
      reads this
    {
      AllCanonical(entries)
    }

    constructor ()
      ensures Valid() && entries == map[]
    {
      entries := map[];
    }

    /** BlockCIDR, AddWhitelistCIDR */
    method Add(text: string, value: u64) returns (ok: bool)
      requires Valid()
      modifies this
      ensures Valid()
      ensures ok == (Parse(text).Some? && !(':' in text && '/' in text))
      ensures entries == if ok then old(entries)[Parse(text).value := value] else old(entries)
    {
      match Parse(text) {
        case None =>
          ok := false;
        case Some(key) =>
          ParsedIsCanonicalIff(text, key);
          ok := key.prefixLen <= TRIE_BITS;
          if ok {
            entries := entries[key := value];
          }
      }
    }

    /** AllowCIDR, RemoveWhitelistCIDR: deleting a key that is not there is an error, and so
        is one the trie cannot hold. */
    method Remove(text: string) returns (ok: bool)
      requires Valid()
      modifies this
      ensures Valid()
      ensures ok == (Parse(text).Some? && Parse(text).value in old(entries))
      ensures entries == if ok then old(entries) - {Parse(text).value} else old(entries)
    {
      match Parse(text) {
        case None =>
          ok := false;
        case Some(key) =>
          ok := key.prefixLen <= TRIE_BITS && key in entries;
          if ok {
            entries := entries - {key};
          }
      }
    }

    /** GetBlacklistCIDRs, GetWhitelistCIDRs: the text of every entry, in the order of the
        iteration, which is not fixed. */
    method List() returns (cidrs: seq<string>)
      requires Valid()
      ensures IsListing(cidrs, entries.Keys)
    {
      cidrs := [];
      ghost var order: seq<Key> := [];
      var left := entries.Keys;
      while left != {}
        invariant left <= entries.Keys
        invariant Enumerates(order, entries.Keys - left)
        invariant Texts(cidrs, order)
        decreases |left|
      {
        var key :| key in left;
        ListsMore(cidrs, order, entries.Keys, left, key);
        left := left - {key};
        order := order + [key];
        cidrs := cidrs + [Format(key)];
      }
      assert entries.Keys - left == entries.Keys;
    }
  }

  /** The texts of the keys, each key once, in some order. */
  ghost predicate IsListing(cidrs: seq<string>, keys: set<Key>) {
    exists order: seq<Key> :: Enumerates(order, keys) && Texts(cidrs, order)
  }

  ghost predicate Enumerates(order: seq<Key>, keys: set<Key>) {
    && (forall key :: key in order <==> key in keys)
    && (forall i, j :: 0 <= i < j < |order| ==> order[i] != order[j])
  }

  ghost predicate Texts(cidrs: seq<string>, order: seq<Key>) {
    |cidrs| == |order| && forall i :: 0 <= i < |order| ==> cidrs[i] == Format(order[i])
  }

  lemma ListsMore(cidrs: seq<string>, order: seq<Key>, keys: set<Key>, left: set<Key>, key: Key)
    requires left <= keys && key in left
    requires Enumerates(order, keys - left) && Texts(cidrs, order)
    ensures Enumerates(order + [key], keys - (left - {key})) && Texts(cidrs + [Format(key)], order + [key])
  {
  }

  /** A listing of canonical keys is exact: every text is read back as a key of the list,
      every key has its text, and no text occurs twice. */
  lemma ListingReadsBack(cidrs: seq<string>, entries: map<Key, u64>)
    requires AllCanonical(entries) && IsListing(cidrs, entries.Keys)
    ensures forall text <- cidrs :: Parse(text).Some? && Parse(text).value in entries
    ensures forall key <- entries :: Format(key) in cidrs && Parse(Format(key)) == Some(key)
    ensures forall i, j :: 0 <= i < j < |cidrs| ==> cidrs[i] != cidrs[j]
  {
    var order: seq<Key> :| Enumerates(order, entries.Keys) && Texts(cidrs, order);
    forall text | text in cidrs ensures Parse(text).Some? && Parse(text).value in entries {
      var i :| 0 <= i < |order| && cidrs[i] == text;
      assert order[i] in order && text == Format(order[i]);
      RoundTripIff(order[i]);
    }
    forall key | key in entries ensures Format(key) in cidrs && Parse(Format(key)) == Some(key) {
      var i :| 0 <= i < |order| && order[i] == key;
      assert cidrs[i] == Format(key);
      RoundTripIff(key);
    }
    forall i, j | 0 <= i < j < |cidrs| ensures cidrs[i] != cidrs[j] {
      assert cidrs[i] == Format(order[i]) && cidrs[j] == Format(order[j]);
      if cidrs[i] == cidrs[j] { FormatInjective(order[i], order[j]); }
    }
  }
}
