/** Which texts parseCIDR reads, and as which keys: a complete description, over all texts. */
module CidrTexts {
  import opened Bits
  import opened Cidr
  import opened NetText
  import opened V6Grammar
  import opened Wrappers

  /** How an IPv4 address can be written: dotted, or as an IPv6 address that stands for it. */
  datatype Written = Dotted | Six(t: Text)

  predicate Shows(w: Written, text: string, a: Addr) {
    match w
    case Dotted => text == FormatIP(a)
    case Six(t) =>
      Valid(t) && Render(t) == text &&
      Meaning(t) == [0, 0, 0, 0, 0, 0, 0, 0, 0, 0, 0xFF, 0xFF, a.b0, a.b1, a.b2, a.b3]
  }

  /** The length of the address as written, beyond the 32 bits of IPv4. */
  function Extra(w: Written): nat { if w.Six? then 96 else 0 }

  /** A text taken apart: an address, perhaps a slash and a length, and the network. */
  datatype Reading = Reading(w: Written, text: string, address: Addr, mask: Option<string>, network: Addr)

  /** The data word of a key: the first byte of its address is the lowest. */
  predicate Holds(key: Key, a: Addr) {
    key.data == a.b0 + 256 * (a.b1 as int) + 65536 * (a.b2 as int) + 16777216 * (a.b3 as int)
  }

  /** The address rounded down to a multiple of 2^bits. */
  predicate Rounded(network: Addr, a: Addr, bits: nat) { Number(network) == Number(a) - Number(a) % Pow2(bits) }

  predicate Reads(r: Reading, s: string, key: Key) {
    && Shows(r.w, r.text, r.address)
    && Holds(key, r.network)
    && match r.mask
       case None => s == r.text && key.prefixLen == 32 && r.network == r.address
       case Some(m) =>
         && s == r.text + "/" + m
         && m != "" && AllDigits(m) && key.prefixLen == Value(m)
         && Extra(r.w) <= Value(m) <= Extra(r.w) + 32
         && Rounded(r.network, r.address, Extra(r.w) + 32 - Value(m))
  }

  lemma NumberInjective(a: Addr, c: Addr)
    requires Number(a) == Number(c)
    ensures a == c
  {
    var (q, q') := (0x100 * (0x100 * (a.b0 as int) + a.b1) + a.b2, 0x100 * (0x100 * (c.b0 as int) + c.b1) + c.b2);
    ModUnique(Number(a), 0x100, q, a.b3);
    ModUnique(Number(c), 0x100, q', c.b3);
    ModUnique(q, 0x100, 0x100 * (a.b0 as int) + a.b1, a.b2);
    ModUnique(q', 0x100, 0x100 * (c.b0 as int) + c.b1, c.b2);
  }

  lemma MappedIs(a: Addr)
    ensures Mapped(a) == [0, 0, 0, 0, 0, 0, 0, 0, 0, 0, 0xFF, 0xFF, a.b0, a.b1, a.b2, a.b3]
  {
  }

  /** A written address is read. */
  lemma ShownIsRead(w: Written, text: string, a: Addr)
    requires Shows(w, text, a)
    ensures ParseAddr(text) == Some(if w.Six? then V6(Mapped(a)) else V4(a))
  {
    match w
    case Dotted => AddressText(text, a);
    case Six(t) =>
      MappedIs(a);
      assert IsTextOf(t, text, Mapped(a));
      SixteenBytesIff(text, Mapped(a));
  }

  /** An address that is read as this one is written. */
  lemma ReadIsShown(text: string, six: bool, a: Addr) returns (w: Written)
    requires ParseAddr(text) == Some(if six then V6(Mapped(a)) else V4(a))
    ensures Shows(w, text, a) && w.Six? == six
  {
    if six {
      SixteenBytesIff(text, Mapped(a));
      var t :| IsTextOf(t, text, Mapped(a));
      MappedIs(a);
      w := Six(t);
    } else {
      AddressText(text, a);
      w := Dotted;
    }
  }

  /** The network of an address that stands for IPv4. */
  lemma NetworkOf(a: Addr, six: bool, n: nat)
    ensures var ip := if six then V6(Mapped(a)) else V4(a);
            var extra := if six then 96 else 0;
            n <= 128 ==> To4(Network(ip, n)) == if six && n < 96 then None else Some(Masked(a, n - extra))
  {
    if six && n <= 128 {
      if n >= 96 {
        MappedNetworkMasked(a, n);
        MappedBack(Masked(a, n - 96));
      } else if To4(Network(V6(Mapped(a)), n)).Some? {
        MappedNetwork(Mapped(a), n);
      }
    }
  }

  /** Sixteen bytes whose network stands for IPv4 do so themselves. */
  lemma WholeIsMapped(b: Bytes16, n: nat)
    requires 96 <= n <= 128 && To4(Network(V6(b), n)).Some?
    ensures b == Mapped(Addr(b[12], b[13], b[14], b[15]))
  {
    var m := Network(V6(b), n).bytes;
    forall i | 0 <= i < 12 ensures b[i] == m[i] {
      assert KeptBits(n, i) == 8;
      MaskByteEnds(b[i]);
    }
    assert forall i :: 0 <= i < 10 ==> m[..10][i] == m[i];
  }

  // ------------------------------------------------------------------ main theorems

  /** The key of a network of `n` bits, counted as the address is written. */
  lemma KeyOfNetwork(a: Addr, six: bool, n: nat, k: nat)
    requires n == (if six then 96 else 0) + k && k <= 32
    ensures KeyOf(Network(if six then V6(Mapped(a)) else V4(a), n), n) == Some(Key(n, LittleEndian(Masked(a, k))))
  {
    NetworkOf(a, six, n);
  }

  lemma RoundedIsMasked(a: Addr, network: Addr, k: nat)
    requires k <= 32
    ensures Rounded(network, a, 32 - k) <==> network == Masked(a, k)
  {
    MaskClearsHostBits(a, k);
    if Number(network) == Number(Masked(a, k)) { NumberInjective(network, Masked(a, k)); }
  }

  lemma BareIsRead(r: Reading, s: string, key: Key)
    requires Reads(r, s, key) && r.mask.None?
    ensures Parse(s) == Some(key)
  {
    ShownIsRead(r.w, r.text, r.address);
    ParseBare(s, if r.w.Six? then V6(Mapped(r.address)) else V4(r.address));
    MappedBack(r.address);
  }

  lemma NetworkTextIsRead(s: string, text: string, w: Written, a: Addr, m: string, k: nat)
    requires s == text + "/" + m && Shows(w, text, a) && k <= 32
    requires m != "" && AllDigits(m) && Value(m) == Extra(w) + k
    ensures Parse(s) == Some(Key(Value(m), LittleEndian(Masked(a, k))))
  {
    var ip := if w.Six? then V6(Mapped(a)) else V4(a);
    ShownIsRead(w, text, a);
    ParseWithMask(text, ip, m);
    KeyOfNetwork(a, w.Six?, Value(m), k);
  }

  lemma NetworkIsRead(r: Reading, s: string, key: Key, m: string, k: nat)
    requires Reads(r, s, key) && r.mask == Some(m) && AllDigits(m) && Value(m) == Extra(r.w) + k
    ensures Parse(s) == Some(key)
  {
    NetworkTextIsRead(s, r.text, r.w, r.address, m, k);
    RoundedIsMasked(r.address, r.network, k);
    HeldKey(key, Value(m), r.network);
  }

  lemma HeldKey(key: Key, n: u32, a: Addr)
    requires Holds(key, a) && key.prefixLen == n
    ensures key == Key(n, LittleEndian(a))
  {
  }

  lemma ReadingIsRead(r: Reading, s: string, key: Key)
    requires Reads(r, s, key)
    ensures Parse(s) == Some(key)
  {
    match r.mask
    case None => BareIsRead(r, s, key);
    case Some(m) => NetworkIsRead(r, s, key, m, Value(m) - Extra(r.w));
  }

  lemma ReadHasReading(s: string, key: Key) returns (r: Reading)
    requires Parse(s) == Some(key)
    ensures Reads(r, s, key)
  {
    if ParseNet(s).Some? {
      r := ReadNetworkText(s, key);
    } else {
      var ip := ParseAddr(s).value;
      var a := To4(ip).value;
      if ip.V6? { To4IsMapped(ip.bytes, a); }
      var w := ReadIsShown(s, ip.V6?, a);
      r := Reading(w, s, a, None, a);
    }
  }

  lemma To4IsMapped(b: Bytes16, a: Addr)
    requires To4(V6(b)) == Some(a)
    ensures b == Mapped(a)
  {
    FourBytesIff(b, a);
    MappedIs(a);
  }

  /** The address of which a network was read. */
  lemma AddressRead(ip: IP, n: nat) returns (a: Addr)
    requires n <= (if ip.V4? then 32 else 128) && To4(Network(ip, n)).Some?
    ensures ip == if ip.V6? then V6(Mapped(a)) else V4(a)
    ensures ip.V6? ==> n >= 96
  {
    match ip
    case V4(b) => a := b;
    case V6(b) =>
      MappedNetwork(b, n);
      WholeIsMapped(b, n);
      a := Addr(b[12], b[13], b[14], b[15]);
  }

  lemma ReadNetworkText(s: string, key: Key) returns (r: Reading)
    requires Parse(s) == Some(key) && ParseNet(s).Some?
    ensures Reads(r, s, key)
  {
    var (text, m) := Cut(s, '/').value;
    CutJoined(s, '/', text, m);
    var ip := ParseAddr(text).value;
    var a := AddressRead(ip, Value(m));
    var w := ReadIsShown(text, ip.V6?, a);
    r := FromNetwork(s, key, text, w, a, m, Value(m) - Extra(w));
  }

  lemma FromNetwork(s: string, key: Key, text: string, w: Written, a: Addr, m: string, k: nat) returns (r: Reading)
    requires s == text + "/" + m && Shows(w, text, a) && k <= 32
    requires m != "" && AllDigits(m) && Value(m) == Extra(w) + k
    requires KeyOf(Network(if w.Six? then V6(Mapped(a)) else V4(a), Value(m)), Value(m)) == Some(key)
    ensures Reads(r, s, key)
  {
    KeyOfNetwork(a, w.Six?, Value(m), k);
    RoundedIsMasked(a, Masked(a, k), k);
    r := Reading(w, text, a, Some(m), Masked(a, k));
  }

  /** parseCIDR reads a text as a key exactly if the text is an address, dotted or in any IPv6
      form that stands for one, with the key of all 32 bits; or such an address, a slash and a
      decimal length, up to 32 for dotted text and from 96 to 128 for IPv6, with that length
      and the address rounded down to its network. */
  lemma ReadsExactly(s: string, key: Key)
    ensures Parse(s) == Some(key) <==> exists r :: Reads(r, s, key)
  {
    if Parse(s) == Some(key) {
      var r := ReadHasReading(s, key);
    } else {
      forall r ensures !Reads(r, s, key) {
        if Reads(r, s, key) { ReadingIsRead(r, s, key); }
      }
    }
  }

  /** A key prints as its address and its length, without the length if that is 32. */
  lemma PrintsExactly(a: Addr, n: u32, data: u32)
    requires data == a.b0 + 256 * (a.b1 as int) + 65536 * (a.b2 as int) + 16777216 * (a.b3 as int)
    ensures Format(Key(n, data)) ==
            (Digits(a.b0) + "." + Digits(a.b1) + "." + Digits(a.b2) + "." + Digits(a.b3)) +
            if n == 32 then "" else "/" + Digits(n)
  {
    PrintedKey(a, n, data, Digits(a.b0) + "." + Digits(a.b1) + "." + Digits(a.b2) + "." + Digits(a.b3));
  }

  lemma PrintedKey(a: Addr, n: u32, data: u32, text: string)
    requires data == LittleEndian(a)
    requires text == Digits(a.b0) + "." + Digits(a.b1) + "." + Digits(a.b2) + "." + Digits(a.b3)
    ensures Format(Key(n, data)) == text + if n == 32 then "" else "/" + Digits(n)
  {
    FlatText(a, FormatIP(a));
    FormatOf(a, n);
  }

  lemma FlatText(a: Addr, text: string)
    requires text == FormatIP(a)
    ensures text == Digits(a.b0) + "." + Digits(a.b1) + "." + Digits(a.b2) + "." + Digits(a.b3)
  {
    Flat(Digits(a.b0), Digits(a.b1), Digits(a.b2), Digits(a.b3));
  }

  lemma FormatOf(a: Addr, n: u32)
    ensures Format(Key(n, LittleEndian(a))) == FormatIP(a) + if n == 32 then "" else "/" + Digits(n)
  {
    BytesOfWord(a);
    Behind(FormatIP(a), "/", Digits(n));
  }

  lemma Behind(a: string, b: string, c: string)
    ensures a + b + c == a + (b + c) && a + "" == a
  {
  }

  lemma Flat(a: string, b: string, c: string, d: string)
    ensures a + "." + (b + "." + (c + "." + d)) == a + "." + b + "." + c + "." + d
  {
  }
}
