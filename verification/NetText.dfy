/** Addresses as text, by the rules of Go's net and netip packages: decimal numbers, dotted
    IPv4, IPv6 with an ellipsis and a dotted end, and the IPv6 form of IPv4 addresses. */
module NetText {
  import opened Bits
  import opened Wrappers

  /** The bytes of an IPv4 address, as written. */
  datatype Addr = Addr(b0: u8, b1: u8, b2: u8, b3: u8)

  // ------------------------------------------------------------------------- numbers

  predicate IsDigit(c: char) { '0' <= c <= '9' }

  predicate AllDigits(s: string) { forall c <- s :: IsDigit(c) }

  function Digit(d: nat): char
    requires d < 10
  {
    '0' + d as char
  }

  /** %d */
  function Digits(n: nat): (s: string)
    ensures s != "" && AllDigits(s)
  {
    if n < 10 then [Digit(n)] else Digits(n / 10) + [Digit(n % 10)]
  }

  function Value(s: string): nat
    requires AllDigits(s)
  {
    if s == "" then 0
    else
      var init := s[..|s| - 1];
      assert forall c <- init :: c in s;
      assert s[|s| - 1] in s;
      10 * Value(init) + (s[|s| - 1] as int - '0' as int)
  }

  /** No leading zero, except in "0" itself. */
  predicate Plain(s: string) { AllDigits(s) && s != "" && (|s| > 1 ==> s[0] != '0') }

  lemma {:induction false} ValueOfDigits(n: nat)
    ensures Plain(Digits(n)) && Value(Digits(n)) == n
    ensures n > 0 ==> Digits(n)[0] != '0'
  {
    if n >= 10 {
      ValueOfDigits(n / 10);
      assert Digits(n)[..|Digits(n)| - 1] == Digits(n / 10);
    }
  }

  /** A plain numeral is the only one of its value. */
  lemma {:induction false} DigitsOfValue(s: string)
    requires Plain(s)
    ensures Digits(Value(s)) == s
    ensures s[0] != '0' ==> Value(s) > 0
  {
    var init, last := s[..|s| - 1], s[|s| - 1];
    assert last in s && s == init + [last];
    if init == "" {
      assert Digit(Value(s)) == last;
    } else {
      assert forall c <- init :: c in s;
      DigitsOfValue(init);
      var v := last as int - '0' as int;
      ModUnique(Value(s), 10, Value(init), v);
      assert Digit(v) == last;
    }
  }

  // ----------------------------------------------------------------------- addresses

  /** strings.Cut for a one-character separator. */
  function Cut(s: string, c: char): Option<(string, string)> {
    if s == "" then None
    else if s[0] == c then Some(("", s[1..]))
    else
      match Cut(s[1..], c)
      case None => None
      case Some((a, b)) => Some(([s[0]] + a, b))
  }

  /** Cut undoes joining by a separator the first part does not hold, and nothing else. */
  lemma {:induction false} CutJoined(s: string, c: char, a: string, b: string)
    ensures Cut(s, c) == Some((a, b)) <==> s == a + [c] + b && c !in a
  {
    if s != "" {
      if s[0] == c {
        assert s == "" + [c] + s[1..];
      } else if a != "" {
        CutJoined(s[1..], c, a[1..], b);
        assert a == [a[0]] + a[1..] && s == [s[0]] + s[1..];
        assert a + [c] + b == [a[0]] + (a[1..] + [c] + b);
      }
    }
  }

  /** One field of parseIPv4Fields: digits, no leading zero, at most 255. */
  function ParseOctet(s: string): Option<u8> {
    if Plain(s) && Value(s) <= 255 then Some(Value(s)) else None
  }

  lemma OctetText(s: string, v: u8)
    ensures ParseOctet(s) == Some(v) <==> s == Digits(v)
  {
    ValueOfDigits(v);
    if Plain(s) { DigitsOfValue(s); }
  }

  /** net.ParseV4 on dotted text: four octets. */
  function ParseV4(s: string): Option<Addr> {
    match Cut(s, '.')
    case None => None
    case Some((s0, t1)) =>
      match Cut(t1, '.')
      case None => None
      case Some((s1, t2)) =>
        match Cut(t2, '.')
        case None => None
        case Some((s2, s3)) =>
          match (ParseOctet(s0), ParseOctet(s1), ParseOctet(s2), ParseOctet(s3))
          case (Some(b0), Some(b1), Some(b2), Some(b3)) => Some(Addr(b0, b1, b2, b3))
          case _ => None
  }

  /** net.IP.String */
  function FormatIP(a: Addr): string {
    Digits(a.b0) + "." + (Digits(a.b1) + "." + (Digits(a.b2) + "." + Digits(a.b3)))
  }

  lemma NotADigit(n: nat, c: char)
    requires !IsDigit(c)
    ensures c !in Digits(n)
  {
  }

  /** Every IPv4 address has exactly one dotted text. */
  lemma DottedText(s: string, a: Addr)
    ensures ParseV4(s) == Some(a) <==> s == FormatIP(a)
  {
    var t2 := Digits(a.b2) + "." + Digits(a.b3);
    var t1 := Digits(a.b1) + "." + t2;
    NotADigit(a.b0, '.');
    NotADigit(a.b1, '.');
    NotADigit(a.b2, '.');
    OctetText(Digits(a.b0), a.b0);
    OctetText(Digits(a.b1), a.b1);
    OctetText(Digits(a.b2), a.b2);
    OctetText(Digits(a.b3), a.b3);
    if s == FormatIP(a) {
      CutJoined(s, '.', Digits(a.b0), t1);
      CutJoined(t1, '.', Digits(a.b1), t2);
      CutJoined(t2, '.', Digits(a.b2), Digits(a.b3));
    }
    if ParseV4(s) == Some(a) { ParsedText(s, a); }
  }

  lemma ParsedText(s: string, a: Addr)
    requires ParseV4(s) == Some(a)
    ensures s == FormatIP(a)
  {
    var (s0, t1) := Cut(s, '.').value;
    var (s1, t2) := Cut(t1, '.').value;
    var (s2, s3) := Cut(t2, '.').value;
    CutJoined(s, '.', s0, t1);
    CutJoined(t1, '.', s1, t2);
    CutJoined(t2, '.', s2, s3);
    OctetText(s0, a.b0);
    OctetText(s1, a.b1);
    OctetText(s2, a.b2);
    OctetText(s3, a.b3);
  }

  /** Dotted text holds nothing but digits and dots. */
  lemma NotDotted(a: Addr, c: char)
    requires !IsDigit(c) && c != '.'
    ensures c !in FormatIP(a)
  {
    NotADigit(a.b0, c);
    NotADigit(a.b1, c);
    NotADigit(a.b2, c);
    NotADigit(a.b3, c);
  }

  lemma StrangeIsNotDotted(s: string, c: char)
    requires c in s && !IsDigit(c) && c != '.'
    ensures ParseV4(s) == None
  {
    match ParseV4(s)
    case None =>
    case Some(a) => DottedText(s, a); NotDotted(a, c);
  }

  // ------------------------------------------------------------------ IPv6 addresses

  type Bytes16 = s: seq<u8> | |s| == 16 witness seq(16, _ => 0)

  function Zeros(n: nat): (z: seq<u8>)
    ensures |z| == n
  {
    seq(n, _ => 0)
  }

  predicate IsHex(c: char) { IsDigit(c) || 'a' <= c <= 'f' || 'A' <= c <= 'F' }

  function HexDigit(c: char): nat
    requires IsHex(c)
  {
    if IsDigit(c) then c as int - '0' as int
    else if 'a' <= c then c as int - 'a' as int + 10
    else c as int - 'A' as int + 10
  }

  /** How many hexadecimal digits a text starts with. */
  function HexRun(s: string): (n: nat)
    ensures n <= |s|
    ensures forall i :: 0 <= i < n ==> IsHex(s[i])
  {
    if s != "" && IsHex(s[0]) then 1 + HexRun(s[1..]) else 0
  }

  /** The value of up to four hexadecimal digits. */
  function HexValue(s: string): (v: nat)
    requires |s| <= 4 && forall i :: 0 <= i < |s| ==> IsHex(s[i])
    ensures |s| == 4 ==> v < 0x1_0000
    ensures |s| == 3 ==> v < 0x1000
    ensures |s| == 2 ==> v < 0x100
    ensures |s| == 1 ==> v < 0x10
    ensures |s| == 0 ==> v == 0
  {
    if s == "" then 0 else 16 * HexValue(s[..|s| - 1]) + HexDigit(s[|s| - 1])
  }

  /** What the loop of parseIPv6 has read: bytes, and where among them the ellipsis stands. */
  datatype Progress = Progress(bytes: seq<u8>, ellipsis: Option<nat>)

  predicate Sound(p: Progress) {
    && |p.bytes| <= 16 && |p.bytes| % 2 == 0
    && (p.ellipsis.Some? ==> p.ellipsis.value <= |p.bytes|)
  }

  function WithGroup(p: Progress, v: nat): (p': Progress)
    requires Sound(p) && |p.bytes| < 16 && v < 0x1_0000
    ensures Sound(p')
  {
    p.(bytes := p.bytes + [v / 256, v % 256])
  }

  function WithDotted(p: Progress, a: Addr): (p': Progress)
    requires Sound(p) && |p.bytes| <= 12
    ensures Sound(p')
  {
    p.(bytes := p.bytes + [a.b0, a.b1, a.b2, a.b3])
  }

  /** The loop of parseIPv6 from the start of a group on: a group of hexadecimal digits, or
      dotted text at the end. */
  function Groups(s: string, p: Progress): (r: Option<Progress>)
    requires Sound(p)
    ensures r.Some? ==> Sound(r.value)
    decreases |s|
  {
    if |p.bytes| == 16 then (if s == "" then Some(p) else None)
    else
      var n := HexRun(s);
      if n == 0 || n > 4 then None
      else if n < |s| && s[n] == '.' then
        if (p.ellipsis.None? && |p.bytes| != 12) || |p.bytes| > 12 then None
        else match ParseV4(s) case Some(a) => Some(WithDotted(p, a)) case None => None
      else AfterGroup(s[n..], WithGroup(p, HexValue(s[..n])))
  }

  /** The end of the text, or a colon and more, with at most one ellipsis. */
  function AfterGroup(s: string, p: Progress): (r: Option<Progress>)
    requires Sound(p)
    ensures r.Some? ==> Sound(r.value)
    decreases |s|
  {
    if s == "" then Some(p)
    else if s[0] != ':' || |s| == 1 then None
    else if s[1] != ':' then Groups(s[1..], p)
    else if p.ellipsis.Some? then None
    else
      var p' := p.(ellipsis := Some(|p.bytes|));
      if |s| == 2 then Some(p') else Groups(s[2..], p')
  }

  /** The ellipsis stands for at least one group of zeros. */
  function Expand(p: Progress): Option<Bytes16>
    requires Sound(p)
  {
    match p.ellipsis
    case None => if |p.bytes| == 16 then Some(p.bytes) else None
    case Some(e) =>
      if |p.bytes| == 16 then None
      else Some(p.bytes[..e] + Zeros(16 - |p.bytes|) + p.bytes[e..])
  }

  /** parseIPv6. A zone is an error here or for the callers. */
  function ParseV6(s: string): Option<Bytes16> {
    if '%' in s then None
    else if s == "::" then Some(Zeros(16))
    else
      var leading := |s| > 2 && s[..2] == "::";
      var read := if leading then Groups(s[2..], Progress([], Some(0))) else Groups(s, Progress([], None));
      match read case None => None case Some(p) => Expand(p)
  }

  // --------------------------------------------------------------------- any address

  datatype IP = V4(addr: Addr) | V6(bytes: Bytes16)

  /** The first character that tells the kinds of address apart. */
  function FirstSpecial(s: string): Option<char> {
    if s == "" then None else if s[0] in {'.', ':', '%'} then Some(s[0]) else FirstSpecial(s[1..])
  }

  /** netip.ParseAddr, and net.ParseIP. */
  function ParseAddr(s: string): Option<IP> {
    match FirstSpecial(s)
    case Some(c) =>
      if c == '.' then match ParseV4(s) case Some(a) => Some(V4(a)) case None => None
      else if c == ':' then match ParseV6(s) case Some(b) => Some(V6(b)) case None => None
      else None
    case None => None
  }

  /** IP.To4: IPv4 addresses, and the IPv6 addresses that stand for one. */
  function To4(ip: IP): Option<Addr> {
    match ip
    case V4(a) => Some(a)
    case V6(b) =>
      if b[..10] == Zeros(10) && b[10] == b[11] == 0xFF then Some(Addr(b[12], b[13], b[14], b[15])) else None
  }

  lemma {:induction false} FirstSpecialAt(d: string, c: char, rest: string)
    requires c in {'.', ':', '%'} && forall x <- d :: x !in {'.', ':', '%'}
    ensures FirstSpecial(d + [c] + rest) == Some(c)
  {
    if d != "" {
      assert d[0] in d && forall x <- d[1..] :: x in d;
      assert (d + [c] + rest)[1..] == d[1..] + [c] + rest;
      FirstSpecialAt(d[1..], c, rest);
    }
  }

  lemma {:induction false} FirstSpecialIn(s: string)
    ensures FirstSpecial(s).Some? ==> FirstSpecial(s).value in s
  {
    if s != "" {
      FirstSpecialIn(s[1..]);
      assert forall x <- s[1..] :: x in s;
      assert s[0] in s;
    }
  }

  lemma DottedFirst(a: Addr)
    ensures FirstSpecial(FormatIP(a)) == Some('.')
  {
    var d := Digits(a.b0);
    assert forall x <- d :: IsDigit(x);
    FirstSpecialAt(d, '.', Digits(a.b1) + "." + (Digits(a.b2) + "." + Digits(a.b3)));
  }

  /** A text reads as an IPv4 address if and only if it is its printed form. */
  lemma AddressText(s: string, a: Addr)
    ensures ParseAddr(s) == Some(V4(a)) <==> s == FormatIP(a)
  {
    DottedText(s, a);
    DottedFirst(a);
  }

  /** An address that is read has no slash in its text, and a colon exactly if it is IPv6. */
  lemma AddressChars(s: string)
    requires ParseAddr(s).Some?
    ensures '/' !in s
    ensures ParseAddr(s).value.V6? <==> ':' in s
  {
    FirstSpecialIn(s);
    if ParseAddr(s).value.V4? {
      if '/' in s { StrangeIsNotDotted(s, '/'); }
      if ':' in s { StrangeIsNotDotted(s, ':'); }
    } else if '/' in s {
      SlashIsNotV6(s);
    }
  }

  lemma {:induction false} SlashInGroups(s: string, p: Progress)
    requires Sound(p) && '/' in s
    ensures Groups(s, p) == None
    decreases |s|
  {
    var n := HexRun(s);
    if |p.bytes| < 16 && 0 < n <= 4 {
      assert '/' in s[n..] by { assert s == s[..n] + s[n..]; }
      if n < |s| && s[n] == '.' {
        StrangeIsNotDotted(s, '/');
      } else {
        SlashAfterGroup(s[n..], WithGroup(p, HexValue(s[..n])));
      }
    }
  }

  lemma {:induction false} SlashAfterGroup(s: string, p: Progress)
    requires Sound(p) && '/' in s
    ensures AfterGroup(s, p) == None
    decreases |s|
  {
    if s[0] == ':' && |s| > 1 {
      assert s == [s[0]] + s[1..];
      if s[1] != ':' {
        SlashInGroups(s[1..], p);
      } else if p.ellipsis.None? && |s| > 2 {
        assert s == [s[0], s[1]] + s[2..];
        SlashInGroups(s[2..], p.(ellipsis := Some(|p.bytes|)));
      }
    }
  }

  lemma SlashIsNotV6(s: string)
    requires '/' in s
    ensures ParseV6(s) == None
  {
    if |s| > 2 && s[..2] == "::" {
      assert s == s[..2] + s[2..];
      SlashInGroups(s[2..], Progress([], Some(0)));
    } else {
      SlashInGroups(s, Progress([], None));
    }
  }

  // ----------------------------------------------------------- IPv4 mapped into IPv6

  function Mapped(a: Addr): Bytes16 {
    Zeros(10) + [0xFF, 0xFF, a.b0, a.b1, a.b2, a.b3]
  }

  lemma {:induction false} HexRunIs(d: string, rest: string)
    requires (forall x <- d :: IsHex(x)) && (rest == "" || !IsHex(rest[0]))
    ensures HexRun(d + rest) == |d|
  {
    if d == "" {
      assert d + rest == rest;
    } else {
      assert d[0] in d && forall x <- d[1..] :: x in d;
      assert (d + rest)[1..] == d[1..] + rest;
      HexRunIs(d[1..], rest);
    }
  }

  lemma OctetIsShort(v: u8)
    ensures 0 < |Digits(v)| <= 3
  {
    if v >= 10 {
      assert |Digits(v)| == |Digits(v / 10)| + 1;
      if v >= 100 { assert |Digits(v / 10)| == |Digits(v / 100)| + 1 by { assert v / 10 / 10 == v / 100; } }
    }
  }

  lemma DottedGroup(a: Addr, p: Progress)
    requires Sound(p) && |p.bytes| <= 12 && p.ellipsis.Some?
    ensures Groups(FormatIP(a), p) == Some(WithDotted(p, a))
  {
    var d, rest := Digits(a.b0), "." + (Digits(a.b1) + "." + (Digits(a.b2) + "." + Digits(a.b3)));
    assert FormatIP(a) == d + rest;
    OctetIsShort(a.b0);
    HexRunIs(d, rest);
    DottedText(FormatIP(a), a);
  }

  /** The mapped form reads as its IPv4 address. */
  lemma MappedText(a: Addr)
    ensures ParseAddr("::ffff:" + FormatIP(a)) == Some(V6(Mapped(a)))
    ensures To4(V6(Mapped(a))) == Some(a)
  {
    var s := "::ffff:" + FormatIP(a);
    assert FirstSpecial(s) == Some(':');
    MappedV6(s, a);
    assert Mapped(a)[..10] == Zeros(10);
  }

  lemma MappedV6(s: string, a: Addr)
    requires s == "::ffff:" + FormatIP(a)
    ensures ParseV6(s) == Some(Mapped(a))
  {
    var ip := FormatIP(a);
    NotDotted(a, '%');
    DottedFront(a);
    assert s[7..] == ip && '%' !in s[..7] && s == s[..7] + s[7..];
    FirstGroup(s[2..], ip);
    DottedGroup(a, Progress([0xFF, 0xFF], Some(0)));
    Expanded(a);
  }

  lemma Expanded(a: Addr)
    ensures Expand(WithDotted(Progress([0xFF, 0xFF], Some(0)), a)) == Some(Mapped(a))
  {
    var p := WithDotted(Progress([0xFF, 0xFF], Some(0)), a);
    assert p.bytes == [0xFF, 0xFF, a.b0, a.b1, a.b2, a.b3];
    assert p.bytes[..0] + Zeros(10) + p.bytes[0..] == Mapped(a);
  }

  lemma DottedFront(a: Addr)
    ensures FormatIP(a) != "" && IsDigit(FormatIP(a)[0])
  {
    assert FormatIP(a)[0] == Digits(a.b0)[0] && Digits(a.b0)[0] in Digits(a.b0);
  }

  lemma GroupRead(d: string, tail: string, p: Progress)
    requires 0 < |d| <= 4 && (forall x <- d :: IsHex(x)) && tail != "" && tail[0] == ':'
    requires Sound(p) && |p.bytes| < 16
    ensures Groups(d + tail, p) == AfterGroup(tail, WithGroup(p, HexValue(d)))
  {
    HexRunIs(d, tail);
    assert (d + tail)[..|d|] == d && (d + tail)[|d|..] == tail;
  }

  /** A group, a colon, and no ellipsis. */
  lemma GroupAndColon(d: string, rest: string, p: Progress)
    requires 0 < |d| <= 4 && (forall x <- d :: IsHex(x)) && rest != "" && rest[0] != ':'
    requires Sound(p) && |p.bytes| < 16
    ensures Groups(d + ":" + rest, p) == Groups(rest, WithGroup(p, HexValue(d)))
  {
    var tail := ":" + rest;
    assert d + ":" + rest == d + tail && tail[1..] == rest && tail[1] == rest[0];
    GroupRead(d, tail, p);
  }

  lemma FirstGroup(s: string, ip: string)
    requires |s| >= 5 && s[0] == s[1] == s[2] == s[3] == 'f' && s[4] == ':' && s[5..] == ip
    requires ip != "" && ip[0] != ':'
    ensures Groups(s, Progress([], Some(0))) == Groups(ip, Progress([0xFF, 0xFF], Some(0)))
  {
    var (d, p) := (s[..4], Progress([], Some(0)));
    CutAtColon(s, d, ip);
    AllF(d);
    TwoOnes(p);
    GroupAndColon(d, ip, p);
  }

  lemma CutAtColon(s: string, d: string, ip: string)
    requires |s| >= 5 && d == s[..4] && s[4] == ':' && s[5..] == ip
    ensures s == d + ":" + ip
  {
  }

  lemma TwoOnes(p: Progress)
    requires p == Progress([], Some(0))
    ensures WithGroup(p, 0xFFFF) == Progress([0xFF, 0xFF], Some(0))
  {
    assert [] + [0xFFFF / 256, 0xFFFF % 256] == [0xFF, 0xFF];
  }

  lemma AllF(d: string)
    requires |d| == 4 && d[0] == d[1] == d[2] == d[3] == 'f'
    ensures HexValue(d) == 0xFFFF
  {
    var (d3, d2, d1) := (d[..3], d[..2], d[..1]);
    assert d3[..2] == d2 && d2[..1] == d1 && d1[..0] == "";
    assert HexValue(d1) == 15 && HexValue(d2) == 255 && HexValue(d3) == 4095;
  }
}
