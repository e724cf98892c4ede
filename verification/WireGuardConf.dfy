/** The peer editor for /etc/wireguard/wg0.conf: a peer is appended as a block of text
    and removed by a filter over the lines, block by block. */
module WireGuardConf {
  import opened TextLines

  predicate PeerHeader(line: string) { HasPrefix(TrimSpace(line), "[Peer]") }

  predicate InterfaceHeader(line: string) { HasPrefix(TrimSpace(line), "[Interface]") }

  predicate Header(line: string) { PeerHeader(line) || InterfaceHeader(line) }

  predicate BlockContains(block: seq<string>, key: string) {
    exists l <- block :: Contains(l, key)
  }

  // ------------------------------------------------------- what the filter should do

  /** A configuration is a sequence of peer blocks and lines outside them. */
  datatype Section = Outside(line: string) | Peer(block: seq<string>)

  /** How many lines follow before the next header. */
  function BodyLength(lines: seq<string>): (n: nat)
    ensures n <= |lines|
    ensures n < |lines| ==> Header(lines[n])
    ensures forall l <- lines[..n] :: !Header(l)
  {
    if lines == [] || Header(lines[0]) then 0
    else
      var n := 1 + BodyLength(lines[1..]);
      assert lines[..n] == [lines[0]] + lines[1..][..n - 1];
      n
  }

  function Sections(lines: seq<string>): seq<Section>
    decreases |lines|
  {
    if lines == [] then []
    else if PeerHeader(lines[0]) then
      var n := 1 + BodyLength(lines[1..]);
      [Peer(lines[..n])] + Sections(lines[n..])
    else [Outside(lines[0])] + Sections(lines[1..])
  }

  function Lines(sections: seq<Section>): seq<string> {
    if sections == [] then []
    else (match sections[0] case Outside(line) => [line] case Peer(block) => block) + Lines(sections[1..])
  }

  predicate Mentions(s: Section, key: string) { s.Peer? && BlockContains(s.block, key) }

  function Without(sections: seq<Section>, key: string): seq<Section> {
    if sections == [] then []
    else (if Mentions(sections[0], key) then [] else [sections[0]]) + Without(sections[1..], key)
  }

  /** The lines minus the peer blocks that mention the key. */
  function Filtered(lines: seq<string>, key: string): seq<string> {
    Lines(Without(Sections(lines), key))
  }

  function Removed(text: string, key: string): string {
    if key == "" || !Contains(text, key) then text else Join(Filtered(Split(text), key))
  }

  function KeepaliveText(): string { "PersistentKeepalive = 25" + "\n" }

  function EndpointText(endpoint: string): string {
    if endpoint != "" then "Endpoint = " + endpoint + "\n" + KeepaliveText() else KeepaliveText()
  }

  function AllowedText(ip: string, endpoint: string): string {
    "AllowedIPs = " + ip + "/32" + "\n" + EndpointText(endpoint)
  }

  /** The block addWireGuardPeer appends after a newline, line by line. */
  function PeerText(key: string, ip: string, endpoint: string): string {
    "[Peer]" + "\n" + ("PublicKey = " + key + "\n" + AllowedText(ip, endpoint))
  }

  function Added(text: string, key: string, ip: string, endpoint: string): string {
    if key == "" || ip == "" || Contains(text, key) then text
    else text + "\n" + PeerText(key, ip, endpoint)
  }

  // --------------------------------------------------------------- the configuration

  class Conf {
    var content: string

    constructor (content: string)
      ensures this.content == content
    {
      this.content := content;
    }

    /** addWireGuardPeer, the file part. */
    method AddPeer(key: string, ip: string, endpoint: string)
      modifies this
      ensures content == Added(old(content), key, ip, endpoint)
    {
      if key == "" || ip == "" {
        return;
      }
      if !Contains(content, key) {
        var peerConfig := PeerConfig(key, ip, endpoint);
        Regroup(content, "\n", PeerText(key, ip, endpoint));
        content := content + peerConfig;
      }
    }

    /** removeWireGuardPeer, the file part. */
    method RemovePeer(key: string)
      modifies this
      ensures content == Removed(old(content), key)
    {
      if key == "" {
        return;
      }
      if Contains(content, key) {
        var newLines := FilterLines(Split(content), key);
        content := Join(newLines);
      }
    }
  }

  lemma Regroup(a: string, b: string, c: string)
    ensures a + b + c == a + (b + c)
  {
  }

  /** The text addWireGuardPeer assembles piece by piece. */
  method PeerConfig(key: string, ip: string, endpoint: string) returns (peerConfig: string)
    ensures peerConfig == "\n" + PeerText(key, ip, endpoint)
    ensures peerConfig == "\n[Peer]\nPublicKey = " + key + "\nAllowedIPs = " + ip + "/32\n" +
              (if endpoint != "" then "Endpoint = " + endpoint + "\n" else "") + "PersistentKeepalive = 25\n"
  {
    peerConfig := "\n[Peer]\nPublicKey = " + key + "\nAllowedIPs = " + ip + "/32\n";
    ghost var head := peerConfig;
    if endpoint != "" {
      peerConfig := peerConfig + ("Endpoint = " + endpoint + "\n");
    }
    peerConfig := peerConfig + "PersistentKeepalive = 25\n";
    assert peerConfig == head + EndpointText(endpoint) by {
      assert KeepaliveText() == "PersistentKeepalive = 25\n";
      Regroup(head, "Endpoint = " + endpoint + "\n", KeepaliveText());
    }
    HeadOfPeer(key, ip, EndpointText(endpoint));
  }

  lemma HeadOfPeer(key: string, ip: string, rest: string)
    ensures "\n[Peer]\nPublicKey = " + key + "\nAllowedIPs = " + ip + "/32\n" + rest ==
            "\n" + ("[Peer]" + "\n" + ("PublicKey = " + key + "\n" + ("AllowedIPs = " + ip + "/32" + "\n" + rest)))
  {
    assert "\nAllowedIPs = " == "\n" + "AllowedIPs = " && "/32\n" == "/32" + "\n";
    assert "\n[Peer]\nPublicKey = " == "\n" + ("[Peer]" + "\n" + "PublicKey = ");
    Nest("\n", "[Peer]", "PublicKey = ", key, "AllowedIPs = ", ip, "/32", rest);
  }

  lemma Nest(n: string, p: string, k: string, key: string, a: string, ip: string, m: string, rest: string)
    ensures (n + (p + n + k)) + key + (n + a) + ip + (m + n) + rest ==
            n + (p + n + (k + key + n + (a + ip + m + n + rest)))
  {
    Regroup(p, n, k);
    Nest2((n + (p + n + k)) + key, n + a, ip, m + n, rest);
    Nest2(n, p + n, k, key, n + (a + ip + m + n + rest));
  }

  lemma Nest2(a: string, b: string, c: string, d: string, e: string)
    ensures a + b + c + d + e == a + (b + (c + d + e))
    ensures (a + (b + c)) + d + e == a + (b + (c + d + e))
  {
  }

  /** What is still to come out when `block` is open and `rest` unread. */
  ghost function Pending(block: seq<string>, rest: seq<string>, key: string): seq<string> {
    Settled(block + rest[..BodyLength(rest)], rest[BodyLength(rest)..], key)
  }

  /** What comes out of a whole block and the lines behind it. */
  ghost function Settled(whole: seq<string>, rest: seq<string>, key: string): seq<string> {
    Flushed(whole, key) + Filtered(rest, key)
  }

  function Flushed(block: seq<string>, key: string): seq<string> {
    if BlockContains(block, key) then [] else block
  }

  ghost function Remaining(inPeerBlock: bool, block: seq<string>, rest: seq<string>, key: string): seq<string> {
    if inPeerBlock then Pending(block, rest, key) else Filtered(rest, key)
  }

  /** What the loop puts out when it meets a header. */
  function Closed(inPeerBlock: bool, block: seq<string>, key: string): seq<string> {
    if inPeerBlock then Flushed(block, key) else []
  }

  /** How the loop body takes a line. */
  predicate LineRead(newLines: seq<string>, inPeerBlock: bool, block: seq<string>, line: string, key: string,
                     newLines': seq<string>, inPeerBlock': bool, block': seq<string>)
  {
    if PeerHeader(line) then
      inPeerBlock' && block' == [line] && newLines' == newLines + Closed(inPeerBlock, block, key)
    else if inPeerBlock && !InterfaceHeader(line) then
      inPeerBlock' && block' == block + [line] && newLines' == newLines
    else
      !inPeerBlock' && newLines' == newLines + Closed(inPeerBlock, block, key) + [line]
  }

  /** The line loop of removeWireGuardPeer. */
  method FilterLines(lines: seq<string>, key: string) returns (newLines: seq<string>)
    ensures newLines == Filtered(lines, key)
  {
    newLines := [];
    var inPeerBlock := false;
    var peerBlock: seq<string> := [];
    assert lines[0..] == lines;
    for i := 0 to |lines|
      invariant Filtered(lines, key) == newLines + Remaining(inPeerBlock, peerBlock, lines[i..], key)
    {
      assert lines[i..] == [lines[i]] + lines[i + 1..];
      newLines, inPeerBlock, peerBlock := ReadLine(newLines, inPeerBlock, peerBlock, lines[i], lines[i + 1..], key);
    }
    assert Remaining(inPeerBlock, peerBlock, lines[|lines|..], key) == Closed(inPeerBlock, peerBlock, key) by {
      assert lines[|lines|..] == [];
      RemainingAtEnd(inPeerBlock, peerBlock, key);
    }
    if inPeerBlock {
      newLines := newLines + Flushed(peerBlock, key);
    }
  }

  lemma RemainingAtEnd(inPeerBlock: bool, block: seq<string>, key: string)
    ensures Remaining(inPeerBlock, block, [], key) == Closed(inPeerBlock, block, key)
  {
    assert block + [] == block;
  }

  /** The loop body: whatever lines are still to come, reading one moves text from what the
      loop owes to what is out. */
  method ReadLine(newLines: seq<string>, inPeerBlock: bool, peerBlock: seq<string>, line: string,
                  ghost rest: seq<string>, key: string)
    returns (newLines': seq<string>, inPeerBlock': bool, peerBlock': seq<string>)
    ensures newLines + Remaining(inPeerBlock, peerBlock, [line] + rest, key) ==
            newLines' + Remaining(inPeerBlock', peerBlock', rest, key)
  {
    newLines', inPeerBlock', peerBlock' := newLines, inPeerBlock, peerBlock;
    if PeerHeader(line) {
      if inPeerBlock {
        newLines' := newLines + Flushed(peerBlock, key);
      }
      inPeerBlock' := true;
      peerBlock' := [line];
    } else if inPeerBlock {
      if InterfaceHeader(line) {
        inPeerBlock' := false;
        newLines' := newLines + Flushed(peerBlock, key);
        newLines' := newLines' + [line];
      } else {
        peerBlock' := peerBlock + [line];
      }
    } else {
      newLines' := newLines + [line];
    }
    ReadConserves(newLines, inPeerBlock, peerBlock, line, rest, key, newLines', inPeerBlock', peerBlock');
  }

  /** Reading a line moves text from what the loop owes to what is out. */
  lemma ReadConserves(newLines: seq<string>, inPeerBlock: bool, block: seq<string>, line: string,
                      rest: seq<string>, key: string,
                      newLines': seq<string>, inPeerBlock': bool, block': seq<string>)
    requires LineRead(newLines, inPeerBlock, block, line, key, newLines', inPeerBlock', block')
    ensures newLines + Remaining(inPeerBlock, block, [line] + rest, key) ==
            newLines' + Remaining(inPeerBlock', block', rest, key)
  {
    var closed := Closed(inPeerBlock, block, key);
    if PeerHeader(line) {
      HeaderRead(inPeerBlock, block, line, rest, key);
      PeerOpens(line, rest, key);
      Associates(newLines, closed, Pending([line], rest, key));
    } else if inPeerBlock && !InterfaceHeader(line) {
      BlockGrows(block, line, rest, key);
    } else {
      HeaderRead(inPeerBlock, block, line, rest, key);
      LineOutside(line, rest, key);
      Associates(newLines, closed, [line] + Filtered(rest, key));
      Associates(newLines + closed, [line], Filtered(rest, key));
    }
  }

  lemma Associates(a: seq<string>, b: seq<string>, c: seq<string>)
    ensures a + (b + c) == a + b + c
  {
  }

  lemma HeaderRead(inPeerBlock: bool, block: seq<string>, line: string, rest: seq<string>, key: string)
    requires inPeerBlock ==> Header(line)
    ensures Remaining(inPeerBlock, block, [line] + rest, key) ==
            Closed(inPeerBlock, block, key) + Filtered([line] + rest, key)
  {
    if inPeerBlock { BlockCloses(block, line, rest, key); }
    else { assert [] + Filtered([line] + rest, key) == Filtered([line] + rest, key); }
  }

  lemma WithoutCons(first: Section, rest: seq<Section>, key: string)
    ensures Lines(Without([first] + rest, key)) ==
            (if Mentions(first, key) then [] else Lines([first])) + Lines(Without(rest, key))
    ensures Lines([first]) == match first case Outside(line) => [line] case Peer(block) => block
  {
    assert ([first] + rest)[1..] == rest;
    assert [first][1..] == [];
    var w := Without(rest, key);
    assert [] + w == w && ([first] + w)[1..] == w;
  }

  lemma PeerOpens(line: string, rest: seq<string>, key: string)
    requires PeerHeader(line)
    ensures Filtered([line] + rest, key) == Pending([line], rest, key)
  {
    var n := BodyLength(rest);
    var lines := [line] + rest;
    assert lines[1..] == rest;
    assert lines[..1 + n] == [line] + rest[..n] && lines[1 + n..] == rest[n..];
    var block := Peer([line] + rest[..n]);
    assert Sections(lines) == [block] + Sections(rest[n..]);
    WithoutCons(block, Sections(rest[n..]), key);
  }

  lemma BlockCloses(block: seq<string>, line: string, rest: seq<string>, key: string)
    requires Header(line)
    ensures Pending(block, [line] + rest, key) == Flushed(block, key) + Filtered([line] + rest, key)
  {
    assert block + ([line] + rest)[..0] == block;
    assert ([line] + rest)[0..] == [line] + rest;
  }

  lemma BlockGrows(block: seq<string>, line: string, rest: seq<string>, key: string)
    requires !Header(line)
    ensures Pending(block, [line] + rest, key) == Pending(block + [line], rest, key)
  {
    var n := BodyLength(rest);
    BodyLengthGrows(line, rest);
    CutGrows(block, line, rest, n);
    SettledAlike(block + ([line] + rest)[..1 + n], block + [line] + rest[..n], ([line] + rest)[1 + n..], rest[n..],
                 key);
  }

  lemma SettledAlike(whole: seq<string>, whole': seq<string>, rest: seq<string>, rest': seq<string>, key: string)
    requires whole == whole' && rest == rest'
    ensures Settled(whole, rest, key) == Settled(whole', rest', key)
  {
  }

  lemma BodyLengthGrows(line: string, rest: seq<string>)
    requires !Header(line)
    ensures BodyLength([line] + rest) == 1 + BodyLength(rest)
  {
    assert ([line] + rest)[1..] == rest;
  }

  lemma CutGrows<T>(block: seq<T>, line: T, rest: seq<T>, n: nat)
    requires n <= |rest|
    ensures block + ([line] + rest)[..1 + n] == block + [line] + rest[..n]
    ensures ([line] + rest)[1 + n..] == rest[n..]
  {
  }

  lemma LineOutside(line: string, rest: seq<string>, key: string)
    requires !PeerHeader(line)
    ensures Filtered([line] + rest, key) == [line] + Filtered(rest, key)
  {
    assert ([line] + rest)[1..] == rest;
    WithoutCons(Outside(line), Sections(rest), key);
  }

  // ------------------------------------------------------------- sections and lines

  function FirstLines(s: Section): seq<string> {
    match s case Outside(line) => [line] case Peer(block) => block
  }

  /** A section as the reader of a configuration would cut it: outside lines open no
      peer, a block starts with its only header. */
  predicate Proper(s: Section) {
    match s
    case Outside(line) => !PeerHeader(line)
    case Peer(block) => block != [] && PeerHeader(block[0]) && forall l <- block[1..] :: !Header(l)
  }

  predicate StartsWithHeader(sections: seq<Section>) {
    sections == [] || (FirstLines(sections[0]) != [] && Header(FirstLines(sections[0])[0]))
  }

  /** Proper sections, each block reaching up to the next header. */
  predicate WellFormed(sections: seq<Section>) {
    sections == [] ||
    (Proper(sections[0]) && WellFormed(sections[1..]) && (sections[0].Peer? ==> StartsWithHeader(sections[1..])))
  }

  /** Where the first section of some lines ends. */
  function FirstEnd(lines: seq<string>): (n: nat)
    requires lines != []
    ensures 0 < n <= |lines|
  {
    if PeerHeader(lines[0]) then 1 + BodyLength(lines[1..]) else 1
  }

  function FirstSection(lines: seq<string>): Section
    requires lines != []
  {
    if PeerHeader(lines[0]) then Peer(lines[..FirstEnd(lines)]) else Outside(lines[0])
  }

  lemma SectionsUnfold(lines: seq<string>)
    requires lines != []
    ensures Sections(lines) == [FirstSection(lines)] + Sections(lines[FirstEnd(lines)..])
  {
  }

  lemma FirstSectionProper(lines: seq<string>)
    requires lines != []
    ensures var (n, s) := (FirstEnd(lines), FirstSection(lines));
            && Proper(s) && FirstLines(s) == lines[..n]
            && (s.Peer? && n < |lines| ==> Header(lines[n]))
  {
    if PeerHeader(lines[0]) {
      var n := FirstEnd(lines);
      assert lines[..n][1..] == lines[1..][..n - 1];
      if n < |lines| { assert lines[n] == lines[1..][n - 1]; }
    }
  }

  lemma ConsWellFormed(first: Section, rest: seq<Section>)
    requires Proper(first) && WellFormed(rest) && (first.Peer? ==> StartsWithHeader(rest))
    ensures WellFormed([first] + rest) && Lines([first] + rest) == FirstLines(first) + Lines(rest)
  {
    assert ([first] + rest)[1..] == rest;
  }

  /** A peer block ends where the next section has its header. */
  lemma RestStarts(lines: seq<string>)
    requires lines != [] && FirstSection(lines).Peer?
    ensures StartsWithHeader(Sections(lines[FirstEnd(lines)..]))
  {
    var n := FirstEnd(lines);
    var rest := lines[n..];
    FirstSectionProper(lines);
    if rest != [] {
      SectionsUnfold(rest);
      FirstSectionProper(rest);
      assert FirstLines(FirstSection(rest))[0] == rest[0] == lines[n];
    }
  }

  lemma {:induction false} SectionsWellFormed(lines: seq<string>)
    ensures Lines(Sections(lines)) == lines
    ensures WellFormed(Sections(lines))
    decreases |lines|
  {
    if lines != [] {
      var n := FirstEnd(lines);
      SectionsWellFormed(lines[n..]);
      SectionsUnfold(lines);
      FirstSectionProper(lines);
      if FirstSection(lines).Peer? { RestStarts(lines); }
      ConsWellFormed(FirstSection(lines), Sections(lines[n..]));
      CutJoins(lines, n);
    }
  }

  lemma CutJoins(lines: seq<string>, n: nat)
    requires n <= |lines|
    ensures lines[..n] + lines[n..] == lines
  {
  }

  lemma {:induction false} BodyLengthIs(body: seq<string>, rest: seq<string>)
    requires forall l <- body :: !Header(l)
    requires rest == [] || Header(rest[0])
    ensures BodyLength(body + rest) == |body|
  {
    if body == [] {
      assert body + rest == rest;
    } else {
      assert (body + rest)[1..] == body[1..] + rest;
      BodyLengthIs(body[1..], rest);
    }
  }

  lemma FirstOfLines(sections: seq<Section>)
    requires WellFormed(sections) && sections != []
    ensures FirstLines(sections[0]) != [] && Lines(sections) != [] && Lines(sections)[0] == FirstLines(sections[0])[0]
  {
  }

  /** Well-formed sections are read back from their lines. */
  lemma {:induction false} SectionsOfLines(sections: seq<Section>)
    requires WellFormed(sections)
    ensures Sections(Lines(sections)) == sections
  {
    if sections != [] {
      var first, rest := sections[0], Lines(sections[1..]);
      SectionsOfLines(sections[1..]);
      if first.Peer? {
        if sections[1..] != [] { FirstOfLines(sections[1..]); }
        PeerReadBack(first.block, rest);
      } else {
        assert ([first.line] + rest)[1..] == rest;
      }
    }
  }

  lemma PeerReadBack(block: seq<string>, rest: seq<string>)
    requires block != [] && PeerHeader(block[0]) && (forall l <- block[1..] :: !Header(l))
    requires rest != [] ==> Header(rest[0])
    ensures Sections(block + rest) == [Peer(block)] + Sections(rest)
  {
    assert (block + rest)[1..] == block[1..] + rest;
    BodyLengthIs(block[1..], rest);
    assert (block + rest)[..|block|] == block && (block + rest)[|block|..] == rest;
  }

  lemma {:induction false} WithoutWellFormed(sections: seq<Section>, key: string)
    requires WellFormed(sections)
    ensures WellFormed(Without(sections, key))
    ensures StartsWithHeader(sections) ==> StartsWithHeader(Without(sections, key))
    ensures Without(Without(sections, key), key) == Without(sections, key)
    ensures forall s <- Without(sections, key) :: s in sections && !Mentions(s, key)
  {
    if sections != [] {
      WithoutWellFormed(sections[1..], key);
      var w := Without(sections[1..], key);
      assert [] + w == w && ([sections[0]] + w)[1..] == w;
      assert sections[0] in sections && forall s <- sections[1..] :: s in sections;
    }
  }

  // ------------------------------------------------------------------ main theorems

  /** Exactness: read back, the filtered lines are the sections of the input, in order,
      minus exactly the peer blocks that mention the key. */
  lemma FilterIsExact(lines: seq<string>, key: string)
    ensures Lines(Sections(lines)) == lines
    ensures Sections(Filtered(lines, key)) == Without(Sections(lines), key)
    ensures forall s <- Sections(Filtered(lines, key)) :: s in Sections(lines) && !Mentions(s, key)
  {
    SectionsWellFormed(lines);
    WithoutWellFormed(Sections(lines), key);
    SectionsOfLines(Without(Sections(lines), key));
  }

  /** ...so a second pass changes nothing, */
  lemma FilterIsIdempotent(lines: seq<string>, key: string)
    ensures Filtered(Filtered(lines, key), key) == Filtered(lines, key)
  {
    SectionsWellFormed(lines);
    WithoutWellFormed(Sections(lines), key);
    SectionsOfLines(Without(Sections(lines), key));
  }

  lemma {:induction false} LinesOneLine(lines: seq<string>, key: string)
    requires AllOneLine(lines)
    ensures AllOneLine(Filtered(lines, key))
  {
    FilterIsExact(lines, key);
    SectionsWellFormed(lines);
    SublistOneLine(Sections(lines), key);
  }

  lemma {:induction false} SublistOneLine(sections: seq<Section>, key: string)
    requires AllOneLine(Lines(sections))
    ensures AllOneLine(Lines(Without(sections, key)))
  {
    if sections != [] {
      var first, rest := FirstLines(sections[0]), sections[1..];
      assert Lines(sections) == first + Lines(rest);
      assert forall l <- first :: l in Lines(sections);
      assert forall l <- Lines(rest) :: l in Lines(sections);
      SublistOneLine(rest, key);
      var w := Without(rest, key);
      assert [] + w == w && ([sections[0]] + w)[1..] == w;
    }
  }

  /** nor does removing the peer from the file a second time. */
  lemma RemoveIsIdempotent(text: string, key: string)
    ensures Removed(Removed(text, key), key) == Removed(text, key)
  {
    if key != "" && Contains(text, key) {
      var lines := Filtered(Split(text), key);
      SplitIsOneLine(text);
      LinesOneLine(Split(text), key);
      FilterIsIdempotent(Split(text), key);
      if lines != [] { SplitJoin(lines); }
    }
  }

  /** A key no line contains removes nothing. */
  lemma {:induction false} NothingMentioned(sections: seq<Section>, key: string)
    requires forall l <- Lines(sections) :: !Contains(l, key)
    ensures Without(sections, key) == sections
  {
    if sections != [] {
      var first, rest := FirstLines(sections[0]), sections[1..];
      assert Lines(sections) == first + Lines(rest);
      assert forall l <- first :: l in Lines(sections);
      assert forall l <- Lines(rest) :: l in Lines(sections);
      NothingMentioned(rest, key);
    }
  }

  lemma UnmentionedKept(lines: seq<string>, key: string)
    requires forall l <- lines :: !Contains(l, key)
    ensures Filtered(lines, key) == lines
  {
    SectionsWellFormed(lines);
    NothingMentioned(Sections(lines), key);
  }

  lemma AbsentFromLines(text: string, key: string)
    requires !Contains(text, key)
    ensures forall l <- Split(text) :: !Contains(l, key)
  {
    forall l | l in Split(text) ensures !Contains(l, key) {
      var k :| 0 <= k < |Split(text)| && Split(text)[k] == l;
      if Contains(l, key) { LineInText(text, k, key); }
    }
  }

  lemma {:induction false} LinesAppend(s: seq<Section>, t: seq<Section>)
    ensures Lines(s + t) == Lines(s) + Lines(t)
  {
    if s == [] {
      assert s + t == t;
    } else {
      assert (s + t)[1..] == s[1..] + t;
      LinesAppend(s[1..], t);
    }
  }

  lemma {:induction false} WithoutAppend(s: seq<Section>, t: seq<Section>, key: string)
    ensures Without(s + t, key) == Without(s, key) + Without(t, key)
  {
    if s == [] {
      assert s + t == t;
    } else {
      assert (s + t)[1..] == s[1..] + t;
      WithoutAppend(s[1..], t, key);
    }
  }

  lemma BodyLengthAppend(a: seq<string>, b: seq<string>)
    requires b != [] && Header(b[0])
    ensures BodyLength(a + b) == BodyLength(a)
  {
    var n := BodyLength(a);
    CutAppend(a, b, n);
    assert a + b == (a + b)[..n] + (a + b)[n..];
    BodyLengthIs(a[..n], a[n..] + b);
  }

  lemma FirstAppend(a: seq<string>, b: seq<string>)
    requires a != [] && b != [] && Header(b[0])
    ensures FirstEnd(a + b) == FirstEnd(a) && FirstSection(a + b) == FirstSection(a)
    ensures (a + b)[FirstEnd(a)..] == a[FirstEnd(a)..] + b
  {
    BodyLengthAppend(a[1..], b);
    CutAppend(a, b, 1);
    CutAppend(a, b, FirstEnd(a));
  }

  lemma CutAppend(a: seq<string>, b: seq<string>, n: nat)
    requires n <= |a|
    ensures (a + b)[..n] == a[..n] && (a + b)[n..] == a[n..] + b
  {
  }

  /** A peer header cuts the file into its sections. */
  lemma {:induction false} SectionsAppend(a: seq<string>, b: seq<string>)
    requires b != [] && Header(b[0])
    ensures Sections(a + b) == Sections(a) + Sections(b)
    decreases |a|
  {
    if a == [] {
      assert a + b == b;
    } else {
      FirstAppend(a, b);
      SectionsUnfold(a);
      SectionsUnfold(a + b);
      SectionsAppend(a[FirstEnd(a)..], b);
      ConsAppend(FirstSection(a), Sections(a[FirstEnd(a)..]), Sections(b));
    }
  }

  lemma ConsAppend(first: Section, s: seq<Section>, t: seq<Section>)
    ensures [first] + (s + t) == [first] + s + t
  {
  }

  /** Hence the lines before it and from it on are filtered apart. */
  lemma FilterSplits(a: seq<string>, b: seq<string>, key: string)
    requires b != [] && PeerHeader(b[0])
    ensures Filtered(a + b, key) == Filtered(a, key) + Filtered(b, key)
  {
    SectionsAppend(a, b);
    WithoutAppend(Sections(a), Sections(b), key);
    LinesAppend(Without(Sections(a), key), Without(Sections(b), key));
  }

  lemma PeerTextOpens(key: string, ip: string, endpoint: string)
    ensures var tail := "PublicKey = " + key + "\n" + AllowedText(ip, endpoint);
            Split(PeerText(key, ip, endpoint)) == ["[Peer]"] + Split(tail)
    ensures PeerHeader("[Peer]")
  {
    SplitOneLine("[Peer]");
    SplitAppend("[Peer]", "PublicKey = " + key + "\n" + AllowedText(ip, endpoint));
    assert TrimSpace("[Peer]") == "[Peer]";
  }

  lemma {:induction false} NothingLeft(sections: seq<Section>, key: string)
    requires WellFormed(sections)
    ensures Lines(Without(sections, key)) == [] <==> forall s <- sections :: Mentions(s, key)
  {
    if sections != [] {
      assert sections[0] in sections && forall s <- sections[1..] :: s in sections;
      assert sections == [sections[0]] + sections[1..];
      NothingLeft(sections[1..], key);
      WithoutCons(sections[0], sections[1..], key);
      FirstOfLines(sections);
    }
  }

  lemma NothingLeftOfLines(lines: seq<string>, key: string)
    ensures Filtered(lines, key) == [] <==> forall s <- Sections(lines) :: Mentions(s, key)
  {
    SectionsWellFormed(lines);
    NothingLeft(Sections(lines), key);
  }

  lemma RestoredIff(text: string, key: string, ip: string, endpoint: string)
    requires key != "" && ip != "" && !Contains(text, key)
    ensures var rest := Filtered(Split(PeerText(key, ip, endpoint)), key);
            Removed(Added(text, key, ip, endpoint), key) == (if rest == [] then text else text + "\n" + Join(rest))
  {
    var body := PeerText(key, ip, endpoint);
    var (a, b) := (Split(text), Split(body));
    AddedContainsKey(text, key, ip, endpoint);
    SplitAppend(text, body);
    PeerTextOpens(key, ip, endpoint);
    FilterSplits(a, b, key);
    AbsentFromLines(text, key);
    UnmentionedKept(a, key);
    JoinSplit(text);
    var rest := Filtered(b, key);
    if rest == [] {
      assert a + rest == a;
    } else {
      JoinAppend(a, rest);
    }
  }

  /** Round trip: when the key is not in the text yet, removing the peer after adding it
      restores the text, whatever the text, exactly when the appended block, read as a
      configuration, is nothing but peers that mention the key. */
  lemma RoundTripIff(text: string, key: string, ip: string, endpoint: string)
    requires key != "" && ip != "" && !Contains(text, key)
    ensures Removed(Added(text, key, ip, endpoint), key) == text <==>
            forall s <- Sections(Split(PeerText(key, ip, endpoint))) :: Mentions(s, key)
  {
    var b := Split(PeerText(key, ip, endpoint));
    RestoredIff(text, key, ip, endpoint);
    NothingLeftOfLines(b, key);
    assert Filtered(b, key) != [] ==> |text + "\n" + Join(Filtered(b, key))| > |text|;
  }

  lemma AddedContainsKey(text: string, key: string, ip: string, endpoint: string)
    ensures Contains(text + "\n" + PeerText(key, ip, endpoint), key)
  {
    DeepInside(text, "\n", "[Peer]", "PublicKey = ", key, AllowedText(ip, endpoint));
  }

  lemma DeepInside(text: string, n: string, p: string, k: string, key: string, rest: string)
    ensures Contains(text + n + (p + n + (k + key + n + rest)), key)
  {
    assert text + n + (p + n + (k + key + n + rest)) == (text + n + (p + n) + k) + key + (n + rest);
    ContainsInside(text + n + (p + n) + k, key, n + rest);
  }

  // -------------------------------------------------------- peers with one-line fields

  function KeyLine(key: string): string { "PublicKey = " + key }

  /** The lines of a block whose fields hold no newline. */
  function PeerLines(key: string, ip: string, endpoint: string): seq<string> {
    ["[Peer]", KeyLine(key)] + RestLines(ip, endpoint)
  }

  function RestLines(ip: string, endpoint: string): seq<string> {
    ["AllowedIPs = " + ip + "/32"] + EndpointLines(endpoint)
  }

  function EndpointLines(endpoint: string): seq<string> {
    (if endpoint != "" then ["Endpoint = " + endpoint] else []) + ["PersistentKeepalive = 25", ""]
  }

  /** One more line in front. */
  lemma SplitFirst(prefix: string, field: string, suffix: string, rest: string)
    requires OneLine(prefix) && OneLine(field) && OneLine(suffix)
    ensures Split(prefix + field + suffix + "\n" + rest) == [prefix + field + suffix] + Split(rest)
  {
    SplitOneLine(prefix + field + suffix);
    SplitAppend(prefix + field + suffix, rest);
  }

  lemma LastLineSplits(s: string)
    requires OneLine(s)
    ensures Split(s + "\n") == [s, ""]
  {
    SplitOneLine(s);
    SplitAppend(s, "");
    assert s + "\n" + "" == s + "\n";
  }

  lemma EndpointSplits(endpoint: string)
    requires OneLine(endpoint)
    ensures Split(EndpointText(endpoint)) == EndpointLines(endpoint)
  {
    LastLineSplits("PersistentKeepalive = 25");
    if endpoint != "" {
      SplitFirst("Endpoint = ", endpoint, "", KeepaliveText());
      assert "Endpoint = " + endpoint + "" == "Endpoint = " + endpoint;
    }
  }

  lemma RestSplits(ip: string, endpoint: string)
    requires OneLine(ip) && OneLine(endpoint)
    ensures Split(AllowedText(ip, endpoint)) == RestLines(ip, endpoint)
  {
    EndpointSplits(endpoint);
    SplitFirst("AllowedIPs = ", ip, "/32", EndpointText(endpoint));
  }

  lemma PeerSplits(key: string, ip: string, endpoint: string)
    requires OneLine(key) && OneLine(ip) && OneLine(endpoint)
    ensures Split(PeerText(key, ip, endpoint)) == PeerLines(key, ip, endpoint)
  {
    PeerTextOpens(key, ip, endpoint);
    SplitOneLine(KeyLine(key));
    SplitAppend(KeyLine(key), AllowedText(ip, endpoint));
    RestSplits(ip, endpoint);
  }

  lemma NotHeader(line: string)
    requires line == "" || line[0] in "PAE"
    ensures !Header(line)
  {
    NoTrimmedPrefix(line, "[Peer]");
    NoTrimmedPrefix(line, "[Interface]");
  }

  /** A header and a body without headers are one peer. */
  lemma OneBlock(header: string, body: seq<string>)
    requires PeerHeader(header) && Body(body)
    ensures Sections([header] + body) == [Peer([header] + body)]
  {
    var block := [header] + body;
    BodyLengthIs(body, []);
    assert body + [] == body && block[1..] == body;
    assert block[..|block|] == block && block[|block|..] == [];
  }

  predicate Body(lines: seq<string>) { forall l <- lines :: !Header(l) }

  lemma BodyCons(line: string, rest: seq<string>)
    requires Body(rest) && (line == "" || line[0] in "PAE")
    ensures Body([line] + rest)
  {
    NotHeader(line);
  }

  lemma RestIsBody(ip: string, endpoint: string)
    ensures Body(RestLines(ip, endpoint))
  {
    BodyCons("", []);
    assert [""] + [] == [""];
    BodyCons("PersistentKeepalive = 25", [""]);
    var last := ["PersistentKeepalive = 25", ""];
    assert ["PersistentKeepalive = 25"] + [""] == last;
    BodyCons("Endpoint = " + endpoint, last);
    assert [] + last == last;
    BodyCons("AllowedIPs = " + ip + "/32", EndpointLines(endpoint));
  }

  lemma OnePeer(key: string, ip: string, endpoint: string)
    ensures Filtered(PeerLines(key, ip, endpoint), key) == []
  {
    var rest := RestLines(ip, endpoint);
    RestIsBody(ip, endpoint);
    BodyCons(KeyLine(key), rest);
    PeerTextOpens(key, ip, endpoint);
    OneBlock("[Peer]", [KeyLine(key)] + rest);
    assert PeerLines(key, ip, endpoint) == ["[Peer]"] + ([KeyLine(key)] + rest);
    KeyInKeyLine(key);
    assert KeyLine(key) in PeerLines(key, ip, endpoint);
    NothingLeftOfLines(PeerLines(key, ip, endpoint), key);
  }

  lemma KeyInKeyLine(key: string)
    ensures Contains(KeyLine(key), key)
  {
    ContainsInside("PublicKey = ", key, "");
    assert KeyLine(key) == "PublicKey = " + key + "";
  }

  /** With a one-line address and endpoint the round trip works for every text that does
      not hold the key, if and only if the key itself is one line: a key with a newline
      is found in the text by Contains, but in no line of it. */
  lemma RoundTrip(text: string, key: string, ip: string, endpoint: string)
    requires key != "" && ip != "" && !Contains(text, key)
    requires OneLine(ip) && OneLine(endpoint)
    ensures Removed(Added(text, key, ip, endpoint), key) == text <==> OneLine(key)
  {
    var b := Split(PeerText(key, ip, endpoint));
    RestoredIff(text, key, ip, endpoint);
    if OneLine(key) {
      PeerSplits(key, ip, endpoint);
      OnePeer(key, ip, endpoint);
    } else {
      SplitIsOneLine(PeerText(key, ip, endpoint));
      forall l | l in b ensures !Contains(l, key) { NotInOneLine(l, key); }
      UnmentionedKept(b, key);
      assert |text + "\n" + Join(b)| > |text|;
    }
  }

  lemma ContainsLonger(s: string, tail: string, t: string)
    requires Contains(s, t)
    ensures Contains(s + tail, t)
  {
    var i :| 0 <= i <= |s| && OccursAt(s, t, i);
    assert (s + tail)[i..i + |t|] == s[i..i + |t|];
    assert OccursAt(s + tail, t, i);
  }

  /** Peers do not disturb each other: adding two and removing the first leaves the text
      as if only the second had been added. */
  lemma RemovesOnlyItsPeer(text: string, key: string, ip: string, endpoint: string,
                           key': string, ip': string, endpoint': string)
    requires key != "" && ip != "" && key' != "" && ip' != ""
    requires OneLine(key) && OneLine(ip) && OneLine(endpoint)
    requires !Contains(text, key) && !Contains(Added(text, key, ip, endpoint), key')
    requires !Contains(PeerText(key', ip', endpoint'), key)
    ensures Removed(Added(Added(text, key, ip, endpoint), key', ip', endpoint'), key) ==
            Added(text, key', ip', endpoint')
  {
    var first := text + "\n" + PeerText(key, ip, endpoint);
    if Contains(text, key') {
      ContainsLonger(text, "\n" + PeerText(key, ip, endpoint), key');
      Regroup(text, "\n", PeerText(key, ip, endpoint));
    }
    AddedContainsKey(text, key, ip, endpoint);
    FirstPeerGoes(text, key, ip, endpoint);
    PeerTextOpens(key', ip', endpoint');
    SecondPeerStays(text, first, PeerText(key', ip', endpoint'), key);
  }

  lemma SecondPeerStays(text: string, first: string, second: string, key: string)
    requires Contains(first, key) && !Contains(second, key) && key != ""
    requires PeerHeader(Split(second)[0])
    requires Filtered(Split(first), key) == Split(text)
    ensures Removed(first + "\n" + second, key) == text + "\n" + second
  {
    ContainsLonger(first, "\n" + second, key);
    Regroup(first, "\n", second);
    SplitAppend(first, second);
    FilterSplits(Split(first), Split(second), key);
    AbsentFromLines(second, key);
    UnmentionedKept(Split(second), key);
    JoinAppend(Split(text), Split(second));
    JoinSplit(text);
    JoinSplit(second);
  }

  lemma FirstPeerGoes(text: string, key: string, ip: string, endpoint: string)
    requires OneLine(key) && OneLine(ip) && OneLine(endpoint) && !Contains(text, key)
    ensures Filtered(Split(text + "\n" + PeerText(key, ip, endpoint)), key) == Split(text)
  {
    var b := Split(PeerText(key, ip, endpoint));
    SplitAppend(text, PeerText(key, ip, endpoint));
    PeerTextOpens(key, ip, endpoint);
    FilterSplits(Split(text), b, key);
    AbsentFromLines(text, key);
    UnmentionedKept(Split(text), key);
    PeerSplits(key, ip, endpoint);
    OnePeer(key, ip, endpoint);
    assert Split(text) + [] == Split(text);
  }

  // -------------------------------------------------- the editor in the file's own lines

  /** What adding a peer with one-line fields does to the lines of the file. */
  lemma AddedLines(text: string, key: string, ip: string, endpoint: string)
    requires OneLine(key) && OneLine(ip) && OneLine(endpoint)
    ensures if key == "" || ip == "" || Surrounds(text, key) then Added(text, key, ip, endpoint) == text
            else (
              Split(Added(text, key, ip, endpoint)) ==
              Split(text) + ["[Peer]", "PublicKey = " + key, "AllowedIPs = " + ip + "/32"] +
              (if endpoint != "" then ["Endpoint = " + endpoint] else []) + ["PersistentKeepalive = 25", ""])
  {
    ContainsIff(text, key);
    if key != "" && ip != "" && !Contains(text, key) {
      PeerSplits(key, ip, endpoint);
      SplitAppend(text, PeerText(key, ip, endpoint));
      InOrder(Split(text), "[Peer]", KeyLine(key), "AllowedIPs = " + ip + "/32",
              if endpoint != "" then ["Endpoint = " + endpoint] else [], ["PersistentKeepalive = 25", ""]);
    }
  }

  lemma InOrder(text: seq<string>, a: string, b: string, c: string, d: seq<string>, e: seq<string>)
    ensures text + ([a, b] + ([c] + (d + e))) == text + [a, b, c] + d + e
  {
  }

  /** Without a key, or with one that is nowhere in the file, nothing is removed. */
  lemma NothingToRemove(text: string, key: string)
    requires key == "" || !Surrounds(text, key)
    ensures Removed(text, key) == text
  {
    ContainsIff(text, key);
  }

  /** The filter, from the front of a file: a line that is no peer header stays... */
  lemma OutsideStays(line: string, rest: seq<string>, key: string)
    requires !Starts(line, "[Peer]")
    ensures Filtered([line] + rest, key) == [line] + Filtered(rest, key)
  {
    HeaderStarts(line);
    LineOutside(line, rest, key);
  }

  /** ...and a peer header with the lines up to the next header goes, as a whole, exactly if the
      key occurs in one of them. */
  lemma BlockGoesIff(block: seq<string>, rest: seq<string>, key: string)
    requires block != [] && Starts(block[0], "[Peer]")
    requires forall l <- block[1..] :: !Starts(l, "[Peer]") && !Starts(l, "[Interface]")
    requires rest != [] ==> Starts(rest[0], "[Peer]") || Starts(rest[0], "[Interface]")
    ensures Filtered(block + rest, key) ==
            (if exists l <- block :: Surrounds(l, key) then [] else block) + Filtered(rest, key)
  {
    HeaderStarts(block[0]);
    forall l | l in block[1..] ensures !Header(l) { HeaderStarts(l); }
    if rest != [] { HeaderStarts(rest[0]); }
    forall l | l in block ensures Surrounds(l, key) <==> Contains(l, key) { ContainsIff(l, key); }
    PeerReadBack(block, rest);
    FirstFiltered(block, Sections(rest), key);
  }

  lemma FirstFiltered(block: seq<string>, rest: seq<Section>, key: string)
    ensures Lines(Without([Peer(block)] + rest, key)) ==
            (if BlockContains(block, key) then [] else block) + Lines(Without(rest, key))
  {
    assert ([Peer(block)] + rest)[1..] == rest;
    var w := Without(rest, key);
    if BlockContains(block, key) {
      assert [] + w == w && [] + Lines(w) == Lines(w);
    } else {
      assert ([Peer(block)] + w)[1..] == w;
    }
  }

  /** A header is a line that starts with its name, after white space. */
  lemma HeaderStarts(line: string)
    ensures PeerHeader(line) <==> Starts(line, "[Peer]")
    ensures InterfaceHeader(line) <==> Starts(line, "[Interface]")
  {
    TrimmedStarts(line, "[Peer]");
    TrimmedStarts(line, "[Interface]");
  }

  /** s is white space, then t, then a text. */
  ghost predicate Starts(s: string, t: string) { exists i: nat :: StartsAt(s, t, i) }

  predicate StartsAt(s: string, t: string, i: nat) {
    i + |t| <= |s| && s[i..i + |t|] == t && forall k :: 0 <= k < i ==> IsSpace(s[k])
  }

  lemma TrimmedStarts(line: string, name: string)
    requires name != "" && !IsSpace(name[0]) && !IsSpace(name[|name| - 1])
    ensures HasPrefix(TrimSpace(line), name) <==> Starts(line, name)
  {
    TrimRightKeeps(TrimLeft(line), name);
    TrimLeftStarts(line, name);
  }

  lemma {:induction false} TrimRightKeeps(s: string, t: string)
    requires t != "" && !IsSpace(t[|t| - 1])
    ensures HasPrefix(TrimRight(s), t) <==> HasPrefix(s, t)
  {
    if s != "" && IsSpace(s[|s| - 1]) {
      TrimRightKeeps(s[..|s| - 1], t);
      if HasPrefix(s, t) { assert s[|t| - 1] == s[..|t|][|t| - 1] == t[|t| - 1]; }
      if |t| < |s| { assert s[..|s| - 1][..|t|] == s[..|t|]; }
    }
  }

  lemma {:induction false} TrimLeftStarts(s: string, t: string)
    requires t != "" && !IsSpace(t[0])
    ensures HasPrefix(TrimLeft(s), t) <==> Starts(s, t)
  {
    if s != "" && IsSpace(s[0]) {
      TrimLeftStarts(s[1..], t);
      if Starts(s[1..], t) { var i: nat :| StartsAt(s[1..], t, i); StartsLater(s, t, i); }
      if Starts(s, t) {
        var i: nat :| StartsAt(s, t, i);
        assert s[i] == s[i..i + |t|][0] == t[0];
        StartsLater(s, t, i - 1);
      }
    } else {
      assert HasPrefix(s, t) <==> StartsAt(s, t, 0);
      if Starts(s, t) { var i: nat :| StartsAt(s, t, i); assert i == 0; }
    }
  }

  lemma StartsLater(s: string, t: string, i: nat)
    requires s != "" && IsSpace(s[0])
    ensures StartsAt(s[1..], t, i) <==> StartsAt(s, t, i + 1)
  {
    if i + 1 + |t| <= |s| { assert s[1..][i..i + |t|] == s[i + 1..i + 1 + |t|]; }
    if StartsAt(s, t, i + 1) {
      forall k | 0 <= k < i ensures IsSpace(s[1..][k]) { assert s[1..][k] == s[k + 1]; }
    }
    if StartsAt(s[1..], t, i) {
      forall k | 0 <= k < i + 1 ensures IsSpace(s[k]) { assert k > 0 ==> s[k] == s[1..][k - 1]; }
    }
  }
}
