/** The texts of IPv6 addresses as a grammar (RFC 4291, section 2.2): groups of hexadecimal
    digits with colons between them, at most one ellipsis for groups of zeros, and perhaps a
    dotted IPv4 address in place of the last two groups. The parser of NetText reads exactly
    these texts, as the addresses they stand for. */
module V6Grammar {
  import opened Bits
  import opened NetText
  import opened Wrappers

  /** The groups in front of the ellipsis, those behind it if there is one, and the IPv4
      address at the end if there is one. */
  datatype Text = Text(front: seq<string>, back: Option<seq<string>>, dotted: Option<Addr>)

  predicate IsGroup(g: string) { 1 <= |g| <= 4 && forall x <- g :: IsHex(x) }

  predicate AllGroups(gs: seq<string>) { forall g <- gs :: IsGroup(g) }

  function Behind(t: Text): seq<string> { if t.back.Some? then t.back.value else [] }

  /** Groups, the dotted address for two. */
  function Count(t: Text): nat { |t.front| + |Behind(t)| + if t.dotted.Some? then 2 else 0 }

  /** Eight groups, or fewer and an ellipsis. */
  predicate Valid(t: Text) {
    && AllGroups(t.front) && AllGroups(Behind(t))
    && if t.back.Some? then Count(t) < 8 else Count(t) == 8
  }

  function Render(t: Text): string
    decreases |t.front| + (if t.back.Some? then |t.back.value| + 1 else 0), 0
  {
    if t.front != [] then t.front[0] + Rest(t.(front := t.front[1..]))
    else
      match t.back
      case Some(back) => "::" + Render(Text(back, None, t.dotted))
      case None => match t.dotted case Some(a) => FormatIP(a) case None => ""
  }

  /** What follows a group: nothing, an ellipsis, or a colon and the next. */
  function Rest(t: Text): string
    decreases |t.front| + (if t.back.Some? then |t.back.value| + 1 else 0), 1
  {
    if t.front == [] && (t.back.Some? || t.dotted.None?) then Render(t) else ":" + Render(t)
  }

  function GroupBytes(gs: seq<string>): (b: seq<u8>)
    requires AllGroups(gs)
    ensures |b| == 2 * |gs|
  {
    if gs == [] then []
    else
      assert gs[0] in gs && forall g <- gs[1..] :: g in gs;
      [HexValue(gs[0]) / 256, HexValue(gs[0]) % 256] + GroupBytes(gs[1..])
  }

  function DottedBytes(dotted: Option<Addr>): seq<u8> {
    match dotted case Some(a) => [a.b0, a.b1, a.b2, a.b3] case None => []
  }

  /** The address a text stands for. */
  function Meaning(t: Text): Bytes16
    requires Valid(t)
  {
    GroupBytes(t.front) + Zeros(16 - 2 * Count(t)) + GroupBytes(Behind(t)) + DottedBytes(t.dotted)
  }

  lemma GroupBytesCons(g: string, gs: seq<string>)
    requires IsGroup(g) && AllGroups(gs)
    ensures AllGroups([g] + gs)
    ensures GroupBytes([g] + gs) == [HexValue(g) / 256, HexValue(g) % 256] + GroupBytes(gs)
  {
    assert ([g] + gs)[1..] == gs;
  }

  // ------------------------------------------------------------- reading from a group on

  /** The text can be what is still to be read. */
  predicate Fits(p: Progress, t: Text) {
    && Sound(p) && AllGroups(t.front) && AllGroups(Behind(t))
    && (p.ellipsis.Some? ==> t.back.None?)
    && |p.bytes| + 2 * Count(t) <= 16
    && (t.dotted.Some? && p.ellipsis.None? && t.back.None? ==> |p.bytes| + 2 * Count(t) == 16)
  }

  /** The text starts with a group or with the dotted address. */
  predicate Opens(t: Text) { t.front != [] || (t.back.None? && t.dotted.Some?) }

  function Read(p: Progress, t: Text): (r: Progress)
    requires Fits(p, t)
    ensures |r.bytes| == |p.bytes| + 2 * Count(t) && Sound(r)
  {
    Progress(p.bytes + GroupBytes(t.front) + GroupBytes(Behind(t)) + DottedBytes(t.dotted),
             if t.back.Some? then Some(|p.bytes| + 2 * |t.front|) else p.ellipsis)
  }

  /** One group read. */
  lemma ReadGroup(p: Progress, g: string, t: Text)
    requires IsGroup(g) && Sound(p) && |p.bytes| < 16
    ensures Fits(WithGroup(p, HexValue(g)), t) <==> Fits(p, t.(front := [g] + t.front))
    ensures Fits(p, t.(front := [g] + t.front)) ==>
              Read(p, t.(front := [g] + t.front)) == Read(WithGroup(p, HexValue(g)), t)
  {
    FitsGroup(p, g, t);
    if Fits(WithGroup(p, HexValue(g)), t) {
      GroupBytesCons(g, t.front);
      ReadsOn(p, WithGroup(p, HexValue(g)), [HexValue(g) / 256, HexValue(g) % 256], t, t.(front := [g] + t.front));
    }
  }

  lemma FitsGroup(p: Progress, g: string, t: Text)
    requires IsGroup(g) && Sound(p) && |p.bytes| < 16
    ensures Fits(WithGroup(p, HexValue(g)), t) <==> Fits(p, t.(front := [g] + t.front))
  {
    OneMoreGroup(g, t.front);
  }

  lemma ReadsOn(p: Progress, p': Progress, two: seq<u8>, t: Text, t': Text)
    requires Fits(p, t') && Fits(p', t) && |two| == 2
    requires p'.bytes == p.bytes + two && p'.ellipsis == p.ellipsis
    requires t'.back == t.back && t'.dotted == t.dotted && |t'.front| == 1 + |t.front|
    requires GroupBytes(t'.front) == two + GroupBytes(t.front)
    ensures Read(p, t') == Read(p', t)
  {
    Nested(p.bytes, two, GroupBytes(t.front));
  }

  lemma OneMoreGroup(g: string, gs: seq<string>)
    requires IsGroup(g)
    ensures AllGroups([g] + gs) <==> AllGroups(gs)
  {
    if AllGroups([g] + gs) { assert forall x <- gs :: x in [g] + gs; }
  }

  lemma Nested<T>(a: seq<T>, b: seq<T>, c: seq<T>)
    ensures a + (b + c) == a + b + c
  {
  }

  /** The dotted address read. */
  lemma ReadDotted(p: Progress, a: Addr)
    requires Sound(p) && |p.bytes| <= 12 && (p.ellipsis.None? ==> |p.bytes| == 12)
    ensures Fits(p, Text([], None, Some(a))) && Read(p, Text([], None, Some(a))) == WithDotted(p, a)
  {
    assert p.bytes + [] + [] == p.bytes;
  }

  lemma RenderGroup(g: string, t: Text)
    ensures Render(t.(front := [g] + t.front)) == g + Rest(t)
  {
    assert ([g] + t.front)[1..] == t.front;
    assert t.(front := t.front) == t;
  }

  lemma HexFirst(g: string, tail: string, n: nat)
    requires IsGroup(g) && n == |g| && (tail == "" || tail[0] == ':')
    ensures HexRun(g + tail) == n && (g + tail)[..n] == g && (g + tail)[n..] == tail
  {
    HexRunIs(g, tail);
  }

  lemma RestStart(t: Text)
    ensures Rest(t) == "" || Rest(t)[0] == ':'
  {
  }

  lemma RenderStart(t: Text)
    requires AllGroups(t.front) && Opens(t)
    ensures Render(t) != "" && IsHex(Render(t)[0])
  {
    if t.front != [] {
      assert t.front[0] in t.front && t.front[0][0] in t.front[0];
    } else {
      DottedFront(t.dotted.value);
    }
  }

  /** Completeness: what the grammar writes, the parser reads. */
  lemma {:induction false} GroupsComplete(p: Progress, t: Text)
    requires Fits(p, t) && Opens(t)
    ensures Groups(Render(t), p) == Some(Read(p, t))
    decreases |t.front| + (if t.back.Some? then |t.back.value| + 1 else 0), 0
  {
    if t.front == [] {
      DottedComplete(p, t.dotted.value);
      assert t == Text([], None, Some(t.dotted.value));
    } else {
      var (g, t') := (t.front[0], t.(front := t.front[1..]));
      assert g in t.front && t == t'.(front := [g] + t'.front);
      ReadGroup(p, g, t');
      RestComplete(WithGroup(p, HexValue(g)), t');
      RestStart(t');
      HexFirst(g, Rest(t'), |g|);
      NotDottedHere(Render(t), Rest(t'), |g|);
    }
  }

  lemma NotDottedHere(s: string, tail: string, n: nat)
    requires n <= |s| && s[n..] == tail && (tail == "" || tail[0] == ':')
    ensures !(n < |s| && s[n] == '.')
  {
    if n < |s| { assert s[n] == tail[0]; }
  }

  lemma DottedComplete(p: Progress, a: Addr)
    requires Fits(p, Text([], None, Some(a)))
    ensures Groups(FormatIP(a), p) == Some(Read(p, Text([], None, Some(a))))
  {
    var d, rest := Digits(a.b0), "." + (Digits(a.b1) + "." + (Digits(a.b2) + "." + Digits(a.b3)));
    assert FormatIP(a) == d + rest;
    OctetIsShort(a.b0);
    HexRunIs(d, rest);
    DottedText(FormatIP(a), a);
    ReadDotted(p, a);
  }

  lemma {:induction false} RestComplete(p: Progress, t: Text)
    requires Fits(p, t)
    ensures AfterGroup(Rest(t), p) == Some(Read(p, t))
    decreases |t.front| + (if t.back.Some? then |t.back.value| + 1 else 0), 1
  {
    if Opens(t) {
      GroupsComplete(p, t);
      RenderStart(t);
      assert (":" + Render(t))[1..] == Render(t);
    } else if t.back.Some? {
      EllipsisComplete(p, t.back.value, t.dotted);
      assert t == Text([], Some(t.back.value), t.dotted);
    } else {
      assert p.bytes + [] + [] + [] == p.bytes;
    }
  }

  lemma {:induction false} EllipsisComplete(p: Progress, back: seq<string>, dotted: Option<Addr>)
    requires Fits(p, Text([], Some(back), dotted))
    ensures AfterGroup(Rest(Text([], Some(back), dotted)), p) == Some(Read(p, Text([], Some(back), dotted)))
    decreases |back| + 1, 0
  {
    var (t, p') := (Text(back, None, dotted), p.(ellipsis := Some(|p.bytes|)));
    var s := "::" + Render(t);
    ReadBehind(p, back, dotted);
    assert s[2..] == Render(t);
    if Opens(t) {
      GroupsComplete(p', t);
      RenderStart(t);
    } else {
      assert p.bytes + [] + [] + [] == p.bytes;
    }
  }

  /** Groups behind the ellipsis. */
  lemma ReadBehind(p: Progress, back: seq<string>, dotted: Option<Addr>)
    requires Sound(p) && p.ellipsis.None?
    ensures var (t, p') := (Text(back, None, dotted), p.(ellipsis := Some(|p.bytes|)));
            && (Fits(p, Text([], Some(back), dotted)) <==> Fits(p', t))
            && (Fits(p', t) ==> Read(p, Text([], Some(back), dotted)) == Read(p', t))
  {
    if AllGroups(back) {
      var b := GroupBytes(back);
      assert p.bytes + [] + b == p.bytes + b + [];
    }
  }

  /** Soundness: what the parser reads, the grammar writes. */
  lemma {:induction false} GroupsSound(s: string, p: Progress) returns (t: Text)
    requires Sound(p) && s != "" && Groups(s, p).Some?
    ensures Fits(p, t) && Opens(t) && Render(t) == s && Groups(s, p) == Some(Read(p, t))
    decreases |s|
  {
    var n := HexRun(s);
    if n < |s| && s[n] == '.' {
      t := DottedSound(s, p);
    } else {
      GroupStep(s, p, n);
      var t' := RestSound(s[n..], WithGroup(p, HexValue(s[..n])));
      GroupWritten(s, p, s[..n], s[n..], t');
      t := t'.(front := [s[..n]] + t'.front);
    }
  }

  lemma GroupStep(s: string, p: Progress, n: nat)
    requires Sound(p) && s != "" && Groups(s, p).Some? && n == HexRun(s) && !(n < |s| && s[n] == '.')
    ensures |p.bytes| < 16 && IsGroup(s[..n]) && s == s[..n] + s[n..]
    ensures Groups(s, p) == AfterGroup(s[n..], WithGroup(p, HexValue(s[..n])))
  {
    HexPrefix(s, n);
  }

  lemma HexPrefix(s: string, n: nat)
    requires n <= |s| && forall i :: 0 <= i < n ==> IsHex(s[i])
    ensures 1 <= n <= 4 ==> IsGroup(s[..n])
    ensures s == s[..n] + s[n..]
  {
  }

  lemma DottedSound(s: string, p: Progress) returns (t: Text)
    requires Sound(p) && s != "" && Groups(s, p).Some? && HexRun(s) < |s| && s[HexRun(s)] == '.'
    ensures Fits(p, t) && Opens(t) && Render(t) == s && Groups(s, p) == Some(Read(p, t))
  {
    var a := ParseV4(s).value;
    DottedText(s, a);
    ReadDotted(p, a);
    t := Text([], None, Some(a));
  }

  lemma GroupWritten(s: string, p: Progress, g: string, tail: string, t: Text)
    requires s == g + tail && IsGroup(g) && Sound(p) && |p.bytes| < 16
    requires Fits(WithGroup(p, HexValue(g)), t) && Rest(t) == tail
    ensures var t' := t.(front := [g] + t.front);
            && Fits(p, t') && Opens(t') && Render(t') == s && Read(p, t') == Read(WithGroup(p, HexValue(g)), t)
  {
    ReadGroup(p, g, t);
    RenderGroup(g, t);
  }

  lemma {:induction false} RestSound(s: string, p: Progress) returns (t: Text)
    requires Sound(p) && AfterGroup(s, p).Some?
    ensures Fits(p, t) && Rest(t) == s && AfterGroup(s, p) == Some(Read(p, t))
    decreases |s|
  {
    if s == "" {
      t := Text([], None, None);
      assert p.bytes + [] + [] + [] == p.bytes;
    } else if s[1] != ':' {
      t := GroupsSound(s[1..], p);
      assert s == ":" + s[1..];
    } else {
      assert s == "::" + s[2..];
      var p' := p.(ellipsis := Some(|p.bytes|));
      if |s| == 2 {
        t := Text([], Some([]), None);
        assert p.bytes + [] + [] + [] == p.bytes;
      } else {
        var t' := GroupsSound(s[2..], p');
        assert t' == Text(t'.front, None, t'.dotted);
        ReadBehind(p, t'.front, t'.dotted);
        t := Text([], Some(t'.front), t'.dotted);
      }
    }
  }

  // ------------------------------------------------------------------ main theorems

  /** s is a text of the address b. */
  predicate IsTextOf(t: Text, s: string, b: Bytes16) { Valid(t) && Render(t) == s && Meaning(t) == b }

  /** What the ellipsis makes of what has been read. */
  lemma ExpandRead(p: Progress, t: Text)
    requires Valid(t) && Fits(p, t) && p == Progress([], None)
    ensures Expand(Read(p, t)) == Some(Meaning(t))
  {
    var (a, b, d) := (GroupBytes(t.front), GroupBytes(Behind(t)), DottedBytes(t.dotted));
    assert [] + a == a;
    ExpandParts(Read(p, t), a, b, d);
  }

  lemma ExpandParts(r: Progress, a: seq<u8>, b: seq<u8>, d: seq<u8>)
    requires Sound(r) && r.bytes == a + b + d
    requires if r.ellipsis.Some? then r.ellipsis.value == |a| && |r.bytes| < 16 else |r.bytes| == 16
    ensures Expand(r) == Some(a + Zeros(16 - |r.bytes|) + b + d)
  {
    match r.ellipsis
    case None => assert a + Zeros(0) + b + d == a + b + d;
    case Some(e) => Widened(a, b, d, Zeros(16 - |r.bytes|));
  }

  lemma Widened(a: seq<u8>, b: seq<u8>, d: seq<u8>, z: seq<u8>)
    ensures (a + b + d)[..|a|] + z + (a + b + d)[|a|..] == a + z + b + d
  {
    assert (a + b + d)[..|a|] == a && (a + b + d)[|a|..] == b + d;
    assert a + z + (b + d) == a + z + b + d;
  }

  /** With the ellipsis in front. */
  lemma ExpandLeading(back: seq<string>, dotted: Option<Addr>)
    requires Valid(Text([], Some(back), dotted))
    ensures Fits(Progress([], Some(0)), Text(back, None, dotted))
    ensures Expand(Read(Progress([], Some(0)), Text(back, None, dotted))) == Some(Meaning(Text([], Some(back), dotted)))
  {
    ReadBehind(Progress([], None), back, dotted);
    ExpandRead(Progress([], None), Text([], Some(back), dotted));
  }

  predicate NoZone(s: string) { '%' !in s }

  lemma {:induction false} RenderHasNoZone(t: Text)
    requires AllGroups(t.front) && AllGroups(Behind(t))
    ensures NoZone(Render(t))
    decreases |t.front| + (if t.back.Some? then |t.back.value| + 1 else 0)
  {
    if t.front != [] {
      var t' := t.(front := t.front[1..]);
      assert t.front[0] in t.front && forall g <- t'.front :: g in t.front;
      RenderHasNoZone(t');
    } else if t.back.Some? {
      RenderHasNoZone(Text(t.back.value, None, t.dotted));
    } else if t.dotted.Some? {
      NotDotted(t.dotted.value, '%');
    }
  }

  lemma V6Complete(t: Text, s: string, b: Bytes16)
    requires IsTextOf(t, s, b)
    ensures ParseV6(s) == Some(b)
  {
    RenderHasNoZone(t);
    if t.front == [] {
      assert t == Text([], Some(t.back.value), t.dotted);
      LeadingComplete(t.back.value, t.dotted, s);
    } else {
      RenderStart(t);
      assert s[0] != ':' && (|s| > 2 ==> s[..2][0] == s[0]);
      GroupsComplete(Progress([], None), t);
      ExpandRead(Progress([], None), t);
    }
  }

  lemma LeadingComplete(back: seq<string>, dotted: Option<Addr>, s: string)
    requires Valid(Text([], Some(back), dotted)) && s == Render(Text([], Some(back), dotted)) && NoZone(s)
    ensures ParseV6(s) == Some(Meaning(Text([], Some(back), dotted)))
  {
    var t := Text(back, None, dotted);
    assert s[..2] == "::" && s[2..] == Render(t);
    ExpandLeading(back, dotted);
    if Opens(t) {
      RenderStart(t);
      GroupsComplete(Progress([], Some(0)), t);
    } else {
      assert Meaning(Text([], Some(back), dotted)) == Zeros(16);
    }
  }

  lemma V6Sound(s: string, b: Bytes16) returns (t: Text)
    requires ParseV6(s) == Some(b)
    ensures IsTextOf(t, s, b)
  {
    if s == "::" {
      t := Text([], Some([]), None);
      assert Meaning(t) == Zeros(16);
    } else if |s| > 2 && s[..2] == "::" {
      var t' := GroupsSound(s[2..], Progress([], Some(0)));
      assert t' == Text(t'.front, None, t'.dotted) && s == "::" + s[2..];
      t := Text([], Some(t'.front), t'.dotted);
      ReadBehind(Progress([], None), t'.front, t'.dotted);
      ExpandLeading(t'.front, t'.dotted);
    } else {
      t := GroupsSound(s, Progress([], None));
      ExpandRead(Progress([], None), t);
    }
  }

  /** The parser reads exactly the texts of the grammar, as what they stand for. */
  lemma V6TextIff(s: string, b: Bytes16)
    ensures ParseV6(s) == Some(b) <==> exists t :: IsTextOf(t, s, b)
  {
    if ParseV6(s) == Some(b) {
      var t := V6Sound(s, b);
    } else {
      forall t ensures !IsTextOf(t, s, b) {
        if IsTextOf(t, s, b) { V6Complete(t, s, b); }
      }
    }
  }

  /** The first colon of an IPv6 text comes before any dot. */
  lemma ColonFirst(t: Text)
    requires Valid(t)
    ensures FirstSpecial(Render(t)) == Some(':')
  {
    if t.front == [] {
      assert Render(t)[0] == ':';
    } else {
      var (g, rest) := (t.front[0], Rest(t.(front := t.front[1..])));
      assert g in t.front;
      RestStart(t.(front := t.front[1..]));
      assert rest != "" && g + rest == g + [':'] + rest[1..];
      FirstSpecialAt(g, ':', rest[1..]);
    }
  }

  /** So net.ParseIP reads a text as sixteen bytes exactly if the grammar has it for them. */
  lemma SixteenBytesIff(s: string, b: Bytes16)
    ensures ParseAddr(s) == Some(V6(b)) <==> exists t :: IsTextOf(t, s, b)
  {
    V6TextIff(s, b);
    forall t | IsTextOf(t, s, b) ensures FirstSpecial(s) == Some(':') { ColonFirst(t); }
  }

  /** And those sixteen bytes stand for an IPv4 address exactly if they are ten zeros, twice
      0xFF and its four bytes. */
  lemma FourBytesIff(b: Bytes16, a: Addr)
    ensures To4(V6(b)) == Some(a) <==>
            b == [0, 0, 0, 0, 0, 0, 0, 0, 0, 0, 0xFF, 0xFF, a.b0, a.b1, a.b2, a.b3]
  {
    assert b[..10] == Zeros(10) <==> forall i :: 0 <= i < 10 ==> b[i] == 0 by {
      assert forall i :: 0 <= i < 10 ==> b[..10][i] == b[i];
    }
  }

  /** The digits: both cases, in the order of their values. */
  lemma HexDigits(v: nat)
    requires v < 16
    ensures IsHex("0123456789abcdef"[v]) && HexDigit("0123456789abcdef"[v]) == v
    ensures IsHex("0123456789ABCDEF"[v]) && HexDigit("0123456789ABCDEF"[v]) == v
  {
  }
}
