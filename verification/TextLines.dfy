/** The string operations of Go the configuration editor uses, on sequences of code
    points: Split and Join on newlines, Contains, TrimSpace and HasPrefix. */
module TextLines {

  /** strings.Split(s, "\n") */
  function Split(s: string): (lines: seq<string>)
    ensures |lines| >= 1
  {
    if s == "" then [""]
    else
      var rest := Split(s[1..]);
      if s[0] == '\n' then [""] + rest else [[s[0]] + rest[0]] + rest[1..]
  }

  /** strings.Join(lines, "\n") */
  function Join(lines: seq<string>): string {
    if lines == [] then ""
    else if |lines| == 1 then lines[0]
    else lines[0] + "\n" + Join(lines[1..])
  }

  predicate OccursAt(s: string, t: string, i: nat) {
    i + |t| <= |s| && s[i..i + |t|] == t
  }

  predicate Contains(s: string, t: string) {
    exists i :: 0 <= i <= |s| && OccursAt(s, t, i)
  }

  predicate HasPrefix(s: string, t: string) {
    |t| <= |s| && s[..|t|] == t
  }

  /** unicode.IsSpace */
  predicate IsSpace(c: char) {
    || '\t' <= c <= '\r' || c == ' ' || c == '\U{85}' || c == '\U{A0}' || c == '\U{1680}'
    || '\U{2000}' <= c <= '\U{200A}' || c == '\U{2028}' || c == '\U{2029}' || c == '\U{202F}'
    || c == '\U{205F}' || c == '\U{3000}'
  }

  function TrimLeft(s: string): string {
    if s != "" && IsSpace(s[0]) then TrimLeft(s[1..]) else s
  }

  function TrimRight(s: string): string {
    if s != "" && IsSpace(s[|s| - 1]) then TrimRight(s[..|s| - 1]) else s
  }

  function TrimSpace(s: string): string { TrimRight(TrimLeft(s)) }

  predicate OneLine(s: string) { '\n' !in s }

  predicate AllOneLine(lines: seq<string>) { forall l <- lines :: OneLine(l) }

  // ------------------------------------------------------------------ split and join

  lemma {:induction false} SplitIsOneLine(s: string)
    ensures AllOneLine(Split(s))
  {
    if s != "" {
      SplitIsOneLine(s[1..]);
      var rest := Split(s[1..]);
      assert rest[0] in rest && forall l <- rest[1..] :: l in rest;
    }
  }

  lemma {:induction false} JoinSplit(s: string)
    ensures Join(Split(s)) == s
  {
    if s != "" {
      JoinSplit(s[1..]);
      var rest := Split(s[1..]);
      if s[0] == '\n' {
        assert ([""] + rest)[1..] == rest;
      } else {
        JoinGrows(s[0], rest);
      }
    }
  }

  lemma JoinGrows(c: char, lines: seq<string>)
    requires lines != []
    ensures Join([[c] + lines[0]] + lines[1..]) == [c] + Join(lines)
  {
    JoinFirst([c], lines[0], lines[1..]);
    assert [lines[0]] + lines[1..] == lines;
  }

  lemma JoinFirst(c: string, line: string, rest: seq<string>)
    ensures Join([c + line] + rest) == c + Join([line] + rest)
  {
    assert ([c + line] + rest)[1..] == rest && ([line] + rest)[1..] == rest;
    assert c + line + "\n" + Join(rest) == c + (line + "\n" + Join(rest));
  }

  lemma {:induction false} SplitOneLine(s: string)
    requires OneLine(s)
    ensures Split(s) == [s]
  {
    if s != "" {
      assert s[0] in s;
      assert forall c <- s[1..] :: c in s;
      SplitOneLine(s[1..]);
      assert [s[0]] + s[1..] == s;
    }
  }

  /** A newline between two texts separates their lines. */
  lemma {:induction false} SplitAppend(a: string, b: string)
    ensures Split(a + "\n" + b) == Split(a) + Split(b)
  {
    var s := a + "\n" + b;
    if a == "" {
      assert s[1..] == b;
    } else {
      assert s[1..] == a[1..] + "\n" + b;
      SplitAppend(a[1..], b);
    }
  }

  lemma {:induction false} SplitJoin(lines: seq<string>)
    requires lines != [] && AllOneLine(lines)
    ensures Split(Join(lines)) == lines
  {
    SplitOneLine(lines[0]);
    if |lines| > 1 {
      SplitJoin(lines[1..]);
      SplitAppend(lines[0], Join(lines[1..]));
    }
  }

  lemma {:induction false} JoinAppend(a: seq<string>, b: seq<string>)
    requires a != [] && b != []
    ensures Join(a + b) == Join(a) + "\n" + Join(b)
  {
    if |a| > 1 {
      JoinAppend(a[1..], b);
      assert (a + b)[1..] == a[1..] + b;
    } else {
      assert (a + b)[1..] == b;
    }
  }

  // ------------------------------------------------------------------------ contains

  lemma ContainsShifted(s: string, t: string)
    requires s != "" && Contains(s[1..], t)
    ensures Contains(s, t)
  {
    var i :| 0 <= i <= |s[1..]| && OccursAt(s[1..], t, i);
    assert s[1..][i..i + |t|] == s[i + 1..i + 1 + |t|];
    assert OccursAt(s, t, i + 1);
  }

  lemma OccursInPrefix(s: string, n: nat, t: string, i: nat)
    requires n <= |s| && OccursAt(s[..n], t, i)
    ensures OccursAt(s, t, i)
  {
    assert s[..n][i..i + |t|] == s[i..i + |t|];
  }

  lemma {:induction false} FirstLineIsPrefix(s: string)
    ensures |Split(s)[0]| <= |s| && Split(s)[0] == s[..|Split(s)[0]|]
  {
    if s != "" { FirstLineIsPrefix(s[1..]); }
  }

  /** What a line contains, the text contains. */
  lemma {:induction false} LineInText(s: string, k: nat, t: string)
    requires k < |Split(s)| && Contains(Split(s)[k], t)
    ensures Contains(s, t)
  {
    var line := Split(s)[k];
    if k == 0 {
      FirstLineIsPrefix(s);
      var i :| 0 <= i <= |line| && OccursAt(line, t, i);
      OccursInPrefix(s, |line|, t, i);
    } else {
      LineInText(s[1..], if s[0] == '\n' then k - 1 else k, t);
      ContainsShifted(s, t);
    }
  }

  lemma ContainsInside(a: string, t: string, b: string)
    ensures Contains(a + t + b, t)
  {
    assert OccursAt(a + t + b, t, |a|);
  }

  /** s is a text, then t, then a text. */
  ghost predicate Surrounds(s: string, t: string) { exists a: string, b: string :: s == a + t + b }

  lemma ContainsIff(s: string, t: string)
    ensures Contains(s, t) <==> Surrounds(s, t)
  {
    if Contains(s, t) {
      var i :| 0 <= i <= |s| && OccursAt(s, t, i);
      assert s == s[..i] + t + s[i + |t|..];
    }
    if Surrounds(s, t) {
      var a: string, b: string :| s == a + t + b;
      ContainsInside(a, t, b);
    }
  }

  lemma NotInOneLine(s: string, t: string)
    requires OneLine(s) && !OneLine(t)
    ensures !Contains(s, t)
  {
    forall i | 0 <= i <= |s| ensures !OccursAt(s, t, i) {
      if i + |t| <= |s| { assert forall c <- s[i..i + |t|] :: c in s; }
    }
  }

  // ------------------------------------------------------------------------ trimming

  /** White space, by code point. */
  lemma WhiteSpace(c: char)
    ensures IsSpace(c) <==>
            c as int in {9, 10, 11, 12, 13, 32, 0x85, 0xA0, 0x1680, 0x2028, 0x2029, 0x202F, 0x205F, 0x3000} ||
            0x2000 <= c as int <= 0x200A
  {
  }

  predicate AllSpace(s: string) { forall c <- s :: IsSpace(c) }

  /** Trimming takes white space off both ends, and all of it. */
  lemma TrimmedIs(s: string) returns (a: string, b: string)
    ensures s == a + TrimSpace(s) + b && AllSpace(a) && AllSpace(b)
    ensures var t := TrimSpace(s); t != "" ==> !IsSpace(t[0]) && !IsSpace(t[|t| - 1])
  {
    a := TrimmedLeft(s);
    b := TrimmedRight(TrimLeft(s));
    assert a + (TrimSpace(s) + b) == a + TrimSpace(s) + b;
  }

  lemma {:induction false} TrimmedLeft(s: string) returns (a: string)
    ensures s == a + TrimLeft(s) && AllSpace(a)
    ensures TrimLeft(s) != "" ==> !IsSpace(TrimLeft(s)[0])
  {
    a := "";
    if s != "" && IsSpace(s[0]) {
      var a' := TrimmedLeft(s[1..]);
      a := [s[0]] + a';
      assert s == [s[0]] + s[1..];
    }
  }

  lemma {:induction false} TrimmedRight(s: string) returns (b: string)
    ensures s == TrimRight(s) + b && AllSpace(b)
    ensures TrimRight(s) != "" ==> !IsSpace(TrimRight(s)[|TrimRight(s)| - 1]) && TrimRight(s)[0] == s[0]
  {
    b := "";
    if s != "" && IsSpace(s[|s| - 1]) {
      var b' := TrimmedRight(s[..|s| - 1]);
      b := b' + [s[|s| - 1]];
      assert s == s[..|s| - 1] + [s[|s| - 1]];
      assert TrimRight(s) + b == TrimRight(s) + b' + [s[|s| - 1]];
    }
  }

  lemma {:induction false} TrimRightKeepsHead(s: string)
    requires s != "" && !IsSpace(s[0])
    ensures TrimRight(s) != "" && TrimRight(s)[0] == s[0]
  {
    if IsSpace(s[|s| - 1]) { TrimRightKeepsHead(s[..|s| - 1]); }
  }

  /** A line that starts with something other than space or `t`'s first character does
      not have prefix `t` after trimming. */
  lemma NoTrimmedPrefix(s: string, t: string)
    requires t != "" && (s == "" || (!IsSpace(s[0]) && s[0] != t[0]))
    ensures !HasPrefix(TrimSpace(s), t)
  {
    if s != "" {
      TrimRightKeepsHead(s);
      assert TrimSpace(s)[0] != t[0];
      assert |t| <= |TrimSpace(s)| ==> TrimSpace(s)[..|t|][0] == TrimSpace(s)[0];
    }
  }
}
