/**
  The rule parser, which reads tokens one ahead from the lexer, and the validation of a rule.
 */
module AbacParser {
  import opened Wrappers
  import opened AbacLexer
  import G = AbacGrammar

  /** Two parses that agree on success and on what they leave over. */
  predicate SameOutcome<S, T>(a: G.Parse<S>, b: G.Parse<T>) {
    (a.Some? <==> b.Some?) && (a.Some? ==> a.value.1 == b.value.1)
  }

  /** The parse succeeds and leaves `rest`, or fails. */
  predicate Outcome<T>(ok: bool, parse: G.Parse<T>, rest: seq<G.Token>) {
    ok == parse.Some? && (ok ==> parse.value.1 == rest)
  }

  /** Two tokens already read, and the ones to come. */
  function Window(cur: G.Token, next: G.Token, ahead: seq<G.Token>): seq<G.Token> {
    if cur == G.EOF then [] else [cur] + if next == G.EOF then [] else [next] + ahead
  }

  /** The current token is the first of those left; EOF when none is. */
  predicate Sees(left: seq<G.Token>, cur: G.Token) {
    cur == if left == [] then G.EOF else left[0]
  }

  /** The first two tokens of a text, and the ones after them. */
  lemma FirstTwo(s: string)
    ensures var (t1, n1) := Next(s);
      var (t2, n2) := Next(s[n1..]);
      var ahead := Lex(s[n1..][n2..]);
      && Lex(s) == Window(t1, t2, ahead) && Sees(Lex(s), t1)
      && (t2 == G.EOF ==> ahead == [])
      && (t1 == G.EOF ==> t2 == G.EOF)
  {
    hide Scan;
  }

  class RuleParser {
    const lexer: Lexer
    var cur: G.Token
    var next: G.Token

    ghost var left: seq<G.Token>      // the tokens from the current one on

    ghost predicate Valid()
      reads this, lexer
    {
      && lexer.Valid()
      && Sees(left, cur)
      && left == Window(cur, next, Lex(lexer.Rest()))
      && (next == G.EOF ==> Lex(lexer.Rest()) == [])
      && (cur == G.EOF ==> next == G.EOF)
    }

    constructor (input: string)
      ensures Valid() && fresh(lexer) && left == Lex(input)
    {
      hide Lex, Next, Window;
      lexer := new Lexer(input);
      cur, next, left := G.EOF, G.EOF, [];
      new;
      assert lexer.Rest() == input;
      Shift();
      Shift();
      left := Lex(input);
      FirstTwo(input);
    }

    method Shift()
      requires lexer.Valid()
      modifies `cur, `next, lexer
      ensures lexer.Valid() && cur == old(next)
      ensures next == Next(old(lexer.Rest())).0 && lexer.Rest() == old(lexer.Rest())[Next(old(lexer.Rest())).1..]
    {
      cur := next;
      next := lexer.NextToken();
    }

    method Advance()
      requires Valid()
      modifies this, lexer
      ensures Valid() && left == if old(left) == [] then [] else old(left)[1..]
      ensures Sees(left, cur)
    {
      Shift();
      left := if left == [] then [] else left[1..];
    }

    method Eof() returns (eof: bool)
      requires Valid()
      ensures eof <==> left == []
    {
      eof := cur == G.EOF;
    }

    method Expect(t: G.Token) returns (ok: bool)
      requires Valid() && t != G.EOF
      modifies this, lexer
      ensures Valid() && ok == G.StartsWith(old(left), t)
      ensures left == if ok then old(left)[1..] else old(left)
    {
      hide Lex, Next, Window;
      if cur != t {
        return false;
      }
      Advance();
      return true;
    }

    method ExpectIdent() returns (text: Option<string>)
      requires Valid()
      modifies this, lexer
      ensures Valid() && text.Some? == (old(left) != [] && old(left)[0].Ident?)
      ensures text.Some? ==> text.value == old(left)[0].text
      ensures left == if text.Some? then old(left)[1..] else old(left)
    {
      hide Lex, Next, Window;
      if !cur.Ident? {
        return None;
      }
      var t := cur.text;
      Advance();
      return Some(t);
    }

    method ParseExpr() returns (ok: bool)
      requires Valid()
      modifies this, lexer
      ensures Valid() && Outcome(ok, G.ParseExpr(old(left)), left)
      decreases |left|, 2
    {
      hide Lex, Next, Window;
      if cur == G.LParen {
        Advance();
        ok := ParseExpr();
        if !ok {
          return false;
        }
        ok := Expect(G.RParen);
        return;
      }
      ok := ParsePrimary();
      if !ok {
        return false;
      }
      if cur == G.Eq || cur == G.Ne || cur == G.In {
        Advance();
        ok := ParsePrimary();
        return;
      }
      return false;
    }

    method ParsePrimary() returns (ok: bool)
      requires Valid()
      modifies this, lexer
      ensures Valid() && Outcome(ok, G.ParsePrimary(old(left)), left)
      decreases |left|, 1
    {
      hide Lex, Next, Window;
      match cur {
        case Ident(text) =>
          if text == "r" {
            ok := ParseAttr();
            return;
          }
          return false;
        case Str(_) => Advance(); return true;
        case Number(_) => Advance(); return true;
        case Bool(_) => Advance(); return true;
        case LBracket =>
          ok := ParseArray();
        case LParen =>
          Advance();
          ok := ParseExpr();
          if !ok {
            return false;
          }
          ok := Expect(G.RParen);
        case _ => return false;
      }
    }

    /** A dot and an identifier. */
    method ExpectDotIdent() returns (text: Option<string>)
      requires Valid()
      modifies this, lexer
      ensures Valid() && text.Some? == (|old(left)| >= 2 && old(left)[0] == G.Dot && old(left)[1].Ident?)
      ensures text.Some? ==> text.value == old(left)[1].text && left == old(left)[2..]
    {
      hide Lex, Next, Window;
      var ok := Expect(G.Dot);
      if !ok {
        return None;
      }
      text := ExpectIdent();
    }

    method ParseAttr() returns (ok: bool)
      requires Valid()
      modifies this, lexer
      ensures Valid() && Outcome(ok, G.ParseAttr(old(left)), left)
    {
      hide Lex, Next, Window;
      ghost var ts := left;
      var r := ExpectIdent();
      if r.None? {
        return false;
      }
      var target := ExpectDotIdent();
      if target.None? || (target.value != "sub" && target.value != "obj") {
        return false;
      }
      assert left == ts[3..];
      var field := ExpectDotIdent();
      if field.None? || field.value !in {"ID", "Owner", "Name", "Roles", "Attrs"} {
        return false;
      }
      assert left == ts[5..];
      if field.value == "Attrs" {
        var name := ExpectDotIdent();
        return name.Some?;
      }
      return true;
    }

    method ParseArray() returns (ok: bool)
      requires Valid() && cur == G.LBracket
      modifies this, lexer
      ensures Valid() && Outcome(ok, G.ParsePrimary(old(left)), left)
      decreases |left|, 0
    {
      hide Lex, Next, Window;
      ok := Expect(G.LBracket);
      if cur == G.RBracket {
        Advance();
        return true;
      }
      ok := ParseItems();
    }

    /** Items up to and with the closing bracket. */
    method ParseItems() returns (ok: bool)
      requires Valid()
      modifies this, lexer
      ensures Valid() && Outcome(ok, G.ParseItems(old(left)), left)
      decreases |left|, 2
    {
      hide Lex, Next, Window;
      while true
        invariant Valid() && |left| <= |old(left)|
        invariant SameOutcome(G.ParseItems(old(left)), G.ParseItems(left))
        decreases |left|
      {
        ok := ParsePrimary();
        if !ok {
          return false;
        }
        if cur == G.RBracket {
          Advance();
          return true;
        }
        ok := Expect(G.Comma);
        if !ok {
          return false;
        }
      }
    }
  }

  // ---------- validation ----------

  predicate IsAsciiSpace(c: char) {
    c == ' ' || '\t' <= c <= '\r'
  }

  /** The UTF-8 bytes of one rune of white space. */
  predicate IsSpaceRune(s: string) {
    || (|s| == 1 && IsAsciiSpace(s[0]))
    || (|s| == 2 && s[0] == '\U{C2}' && (s[1] == '\U{85}' || s[1] == '\U{A0}'))
    || (|s| == 3 && s[0] == '\U{E1}' && s[1] == '\U{9A}' && s[2] == '\U{80}')
    || (|s| == 3 && s[0] == '\U{E2}' && s[1] == '\U{80}' && ('\U{80}' <= s[2] <= '\U{8A}' || s[2] in "\U{A8}\U{A9}\U{AF}"))
    || (|s| == 3 && s[0] == '\U{E2}' && s[1] == '\U{81}' && s[2] == '\U{9F}')
    || (|s| == 3 && s[0] == '\U{E3}' && s[1] == '\U{80}' && s[2] == '\U{80}')
  }

  /** The number of bytes of the white space that starts a text, one rune of it. */
  function SpaceBefore(s: string): (n: nat)
    ensures n <= |s|
  {
    if |s| >= 1 && IsSpaceRune(s[..1]) then 1
    else if |s| >= 2 && IsSpaceRune(s[..2]) then 2
    else if |s| >= 3 && IsSpaceRune(s[..3]) then 3
    else 0
  }

  function SpaceAfter(s: string): (n: nat)
    ensures n <= |s|
  {
    if |s| >= 1 && IsSpaceRune(s[|s| - 1..]) then 1
    else if |s| >= 2 && IsSpaceRune(s[|s| - 2..]) then 2
    else if |s| >= 3 && IsSpaceRune(s[|s| - 3..]) then 3
    else 0
  }

  function TrimLeft(s: string): string {
    if SpaceBefore(s) > 0 then TrimLeft(s[SpaceBefore(s)..]) else s
  }

  function TrimRight(s: string): string {
    if SpaceAfter(s) > 0 then TrimRight(s[..|s| - SpaceAfter(s)]) else s
  }

  /** `strings.TrimSpace`, on the bytes of a text. */
  function TrimSpace(s: string): string {
    TrimRight(TrimLeft(s))
  }

  // ---------- what is trimmed ----------

  function Join(runes: seq<string>): string {
    if runes == [] then "" else runes[0] + Join(runes[1..])
  }

  predicate AllSpaceRunes(runes: seq<string>) {
    forall i :: 0 <= i < |runes| ==> IsSpaceRune(runes[i])
  }

  /** The code points that are white space, below 2^16. */
  predicate IsSpaceCodePoint(c: nat) {
    || 9 <= c <= 13 || c == 32 || c == 0x85 || c == 0xA0 || c == 0x1680
    || 0x2000 <= c <= 0x200A || c == 0x2028 || c == 0x2029 || c == 0x202F || c == 0x205F || c == 0x3000
  }

  /** The UTF-8 bytes of a code point below 2^16. */
  function Utf8(c: nat): string
    requires c < 0x1_0000
  {
    if c < 0x80 then [c as char]
    else if c < 0x800 then [(0xC0 + c / 64) as char, (0x80 + c % 64) as char]
    else [(0xE0 + c / 4096) as char, (0x80 + c / 64 % 64) as char, (0x80 + c % 64) as char]
  }

  function Decoded(s: string): nat
    requires IsSpaceRune(s)
  {
    if |s| == 1 then s[0] as nat
    else if |s| == 2 then (s[0] as nat - 0xC0) * 64 + (s[1] as nat - 0x80)
    else (s[0] as nat - 0xE0) * 4096 + (s[1] as nat - 0x80) * 64 + (s[2] as nat - 0x80)
  }

  lemma DecodedIsSpace(s: string)
    requires IsSpaceRune(s)
    ensures IsSpaceCodePoint(Decoded(s)) && s == Utf8(Decoded(s))
  {
    var c := Decoded(s);
    if |s| == 2 {
      assert c / 64 == s[0] as nat - 0xC0 && c % 64 == s[1] as nat - 0x80;
    } else if |s| == 3 {
      assert c / 64 == (s[0] as nat - 0xE0) * 64 + (s[1] as nat - 0x80) && c % 64 == s[2] as nat - 0x80;
      assert c / 64 % 64 == s[1] as nat - 0x80 && c / 4096 == s[0] as nat - 0xE0;
    }
  }

  lemma EncodedIsSpace(c: nat)
    requires IsSpaceCodePoint(c)
    ensures IsSpaceRune(Utf8(c))
  {
    if 0x2000 <= c <= 0x200A {
      assert c / 4096 == 2 && c / 64 == 0x80 && c % 64 == c - 0x2000;
    }
  }

  /** The byte sequences trimmed are the encodings of the white-space code points. */
  lemma SpaceRunes(s: string)
    ensures IsSpaceRune(s) <==> exists c: nat :: IsSpaceCodePoint(c) && c < 0x1_0000 && s == Utf8(c)
  {
    hide IsSpaceRune, Utf8, IsSpaceCodePoint;
    if IsSpaceRune(s) { DecodedIsSpace(s); }
    if c: nat :| IsSpaceCodePoint(c) && c < 0x1_0000 && s == Utf8(c) { EncodedIsSpace(c); }
  }

  /** `text` is what is left of `rule` when all white space around it is gone. */
  ghost predicate Trims(rule: string, text: string) {
    exists before, after :: TrimsTo(rule, before, text, after)
  }

  ghost predicate TrimsTo(rule: string, before: seq<string>, text: string, after: seq<string>) {
    && AllSpaceRunes(before) && AllSpaceRunes(after) && rule == Join(before) + (text + Join(after))
    && forall r :: IsSpaceRune(r) ==> !(r <= text) && !EndsWith(text, r)
  }

  predicate EndsWith(s: string, r: string) {
    |r| <= |s| && s[|s| - |r|..] == r
  }

  lemma NoSpaceAtStart(s: string)
    ensures SpaceBefore(s) == 0 <==> forall r :: IsSpaceRune(r) ==> !(r <= s)
  {
    if SpaceBefore(s) > 0 { assert s[..SpaceBefore(s)] <= s; }
    if r :| IsSpaceRune(r) && r <= s { assert r == s[..|r|]; }
  }

  lemma SpaceRuneLength(r: string)
    requires IsSpaceRune(r)
    ensures 1 <= |r| <= 3
  {
  }

  lemma SpaceAtEnd(s: string)
    requires SpaceAfter(s) > 0
    ensures IsSpaceRune(s[|s| - SpaceAfter(s)..])
  {
  }

  lemma SpaceIsSeen(s: string, r: string)
    requires IsSpaceRune(r) && EndsWith(s, r)
    ensures SpaceAfter(s) > 0
  {
    SpaceRuneLength(r);
    hide IsSpaceRune;
  }

  lemma NoSpaceAtEnd(s: string)
    ensures SpaceAfter(s) == 0 <==> forall r :: IsSpaceRune(r) ==> !EndsWith(s, r)
  {
    hide IsSpaceRune, SpaceAfter;
    if SpaceAfter(s) > 0 {
      SpaceAtEnd(s);
      assert EndsWith(s, s[|s| - SpaceAfter(s)..]);
    }
    if r :| IsSpaceRune(r) && EndsWith(s, r) { SpaceIsSeen(s, r); }
  }

  lemma NoSpaceAtEdges(s: string)
    ensures SpaceBefore(s) == 0 <==> forall r :: IsSpaceRune(r) ==> !(r <= s)
    ensures SpaceAfter(s) == 0 <==> forall r :: IsSpaceRune(r) ==> !EndsWith(s, r)
  {
    hide IsSpaceRune, SpaceBefore, SpaceAfter, EndsWith;
    NoSpaceAtStart(s);
    NoSpaceAtEnd(s);
  }

  lemma SpaceRuneStarts(r: string, rest: string)
    requires IsSpaceRune(r)
    ensures SpaceBefore(r + rest) == |r| > 0
  {
    var s := r + rest;
    assert s[..|r|] == r;
    assert s[..1] == r[..1];
    assert |r| > 1 ==> s[..2] == r[..2];
  }

  lemma SpaceRuneEnds(front: string, r: string)
    requires IsSpaceRune(r)
    ensures SpaceAfter(front + r) == |r| > 0
  {
    var s := front + r;
    assert s[|s| - |r|..] == r;
    assert s[|s| - 1..] == r[|r| - 1..];
    assert |r| > 1 ==> s[|s| - 2..] == r[|r| - 2..];
  }

  /** White space behind a text does not become part of a rune the text begins. */
  lemma SpaceBehind(text: string, after: seq<string>)
    requires text != "" && SpaceBefore(text) == 0 && AllSpaceRunes(after)
    ensures SpaceBefore(text + Join(after)) == 0
  {
    var s := text + Join(after);
    if after != [] {
      assert Join(after)[0] == after[0][0];
      assert s[|text|] == after[0][0];
    } else {
      assert s == text;
    }
    assert s[..1] == text[..1];
    assert |text| >= 2 ==> s[..2] == text[..2];
    assert |text| >= 3 ==> s[..3] == text[..3];
  }

  lemma {:induction false} TrimLeftPad(runes: seq<string>, s: string)
    requires AllSpaceRunes(runes) && SpaceBefore(s) == 0
    ensures TrimLeft(Join(runes) + s) == s
  {
    hide IsSpaceRune, SpaceBefore;
    if runes == [] {
      assert Join(runes) + s == s;
    } else {
      var r, rest := runes[0], Join(runes[1..]) + s;
      TrimLeftPad(runes[1..], s);
      assert Join(runes) + s == r + rest;
      SpaceRuneStarts(r, rest);
      assert (r + rest)[|r|..] == rest;
    }
  }

  lemma {:induction false} JoinLast(runes: seq<string>, r: string)
    ensures Join(runes + [r]) == Join(runes) + r
  {
    if runes == [] {
      assert Join([r]) == r + Join([]);
    } else {
      JoinLast(runes[1..], r);
      assert (runes + [r])[1..] == runes[1..] + [r];
    }
  }

  lemma {:induction false} TrimRightPad(s: string, runes: seq<string>)
    requires AllSpaceRunes(runes) && SpaceAfter(s) == 0
    ensures TrimRight(s + Join(runes)) == s
  {
    hide IsSpaceRune, SpaceAfter;
    if runes == [] {
      assert s + Join(runes) == s;
    } else {
      var front, r := runes[..|runes| - 1], runes[|runes| - 1];
      assert runes == front + [r];
      JoinLast(front, r);
      TrimRightPad(s, front);
      var t := s + Join(front);
      assert s + Join(runes) == t + r;
      SpaceRuneEnds(t, r);
      assert (t + r)[..|t + r| - |r|] == t;
    }
  }

  /** Padding is trimmed away again. */
  lemma TrimmedText(before: seq<string>, text: string, after: seq<string>)
    requires AllSpaceRunes(before) && AllSpaceRunes(after)
    requires SpaceBefore(text) == 0 && SpaceAfter(text) == 0
    ensures TrimSpace(Join(before) + (text + Join(after))) == text
  {
    if text == "" {
      TrimmedBlank(before, after);
    } else {
      SpaceBehind(text, after);
      hide IsSpaceRune, SpaceBefore, SpaceAfter, TrimLeft, TrimRight, Join, AllSpaceRunes;
      TrimLeftPad(before, text + Join(after));
      TrimRightPad(text, after);
    }
  }

  lemma TrimmedBlank(before: seq<string>, after: seq<string>)
    requires AllSpaceRunes(before) && AllSpaceRunes(after)
    ensures TrimSpace(Join(before) + ("" + Join(after))) == ""
  {
    hide IsSpaceRune, Join, TrimLeft;
    TrimLeftOnly(before + after);
    JoinAppends(before, after);
    assert Join(before) + ("" + Join(after)) == Join(before + after);
  }

  lemma JoinFirst(runes: seq<string>)
    requires runes != []
    ensures Join(runes) == runes[0] + Join(runes[1..])
  {
  }

  lemma {:induction false} JoinAppends(a: seq<string>, b: seq<string>)
    ensures Join(a + b) == Join(a) + Join(b)
  {
    hide Join;
    if a == [] {
      assert a + b == b;
      JoinNone();
    } else {
      JoinAppends(a[1..], b);
      assert (a + b)[1..] == a[1..] + b && (a + b)[0] == a[0];
      JoinFirst(a);
      JoinFirst(a + b);
      Regrouped(a[0], Join(a[1..]), Join(b));
    }
  }

  lemma TrimLeftOnly(runes: seq<string>)
    requires AllSpaceRunes(runes)
    ensures TrimLeft(Join(runes)) == ""
  {
    TrimLeftPad(runes, "");
    assert Join(runes) + "" == Join(runes);
  }

  /** What the trimming cut off, rune by rune. */
  lemma TrimLeftStep(s: string)
    ensures TrimLeft(s) == if SpaceBefore(s) > 0 then TrimLeft(s[SpaceBefore(s)..]) else s
    ensures SpaceBefore(s) > 0 ==> IsSpaceRune(s[..SpaceBefore(s)])
  {
  }

  lemma {:induction false} CutLeft(s: string) returns (runes: seq<string>)
    ensures AllSpaceRunes(runes) && s == Join(runes) + TrimLeft(s) && SpaceBefore(TrimLeft(s)) == 0
    decreases |s|
  {
    hide IsSpaceRune, SpaceBefore, TrimLeft;
    runes := [];
    TrimLeftStep(s);
    var n := SpaceBefore(s);
    if n > 0 {
      var rest := CutLeft(s[n..]);
      runes := [s[..n]] + rest;
      assert Join(runes) == s[..n] + Join(rest);
      Regrouped(s[..n], Join(rest), TrimLeft(s));
      assert s == s[..n] + s[n..];
    }
  }

  lemma TrimRightStep(s: string)
    ensures TrimRight(s) == if SpaceAfter(s) > 0 then TrimRight(s[..|s| - SpaceAfter(s)]) else s
  {
  }

  lemma Regrouped(a: string, b: string, c: string)
    ensures (a + b) + c == a + (b + c)
  {
  }

  lemma {:induction false} CutRight(s: string) returns (runes: seq<string>)
    ensures AllSpaceRunes(runes) && s == TrimRight(s) + Join(runes) && SpaceAfter(TrimRight(s)) == 0
    ensures TrimRight(s) <= s
    decreases |s|
  {
    hide IsSpaceRune, SpaceAfter, TrimRight, Join;
    runes := [];
    TrimRightStep(s);
    var n := SpaceAfter(s);
    if n > 0 {
      SpaceAtEnd(s);
      var front, cut := s[..|s| - n], s[|s| - n..];
      var rest := CutRight(front);
      runes := rest + [cut];
      JoinLast(rest, cut);
      Regrouped(TrimRight(s), Join(rest), cut);
      assert s == front + cut;
    } else {
      JoinNone();
    }
  }

  lemma JoinNone()
    ensures Join([]) == ""
  {
  }

  /** A rune of white space at the start of a text's front is at the start of the text. */
  lemma SpaceBeforeFront(front: string, s: string)
    requires front <= s && SpaceBefore(s) == 0
    ensures SpaceBefore(front) == 0
  {
    NoSpaceAtEdges(s);
    NoSpaceAtEdges(front);
    forall r | IsSpaceRune(r) ensures !(r <= front) { assert r <= front ==> r <= s; }
  }

  /** Trimming leaves the text without the white space around it, and nothing else is that text. */
  lemma TrimSpaceMeans(rule: string, text: string)
    ensures Trims(rule, text) <==> text == TrimSpace(rule)
  {
    hide IsSpaceRune, SpaceBefore, SpaceAfter;
    if before, after :| TrimsTo(rule, before, text, after) {
      NoSpaceAtEdges(text);
      TrimmedText(before, text, after);
    }
    if text == TrimSpace(rule) {
      var left := TrimLeft(rule);
      var before := CutLeft(rule);
      var after := CutRight(left);
      SpaceBeforeFront(text, left);
      NoSpaceAtEdges(text);
      assert TrimsTo(rule, before, text, after);
    }
  }

  // ---------- constant truths ----------

  function LowerChar(c: char): char {
    if 'A' <= c <= 'Z' then c - 'A' + 'a' else c
  }

  /**
    Lower case and case folding of a text, as far as ASCII letters come of it: the capital letters, and the
    three other runes that become one, the long s, the dotted capital I and the Kelvin sign.
   */
  function Fold(s: string): string {
    if s == "" then ""
    else if "\U{C5}\U{BF}" <= s then "s" + Fold(s[2..])
    else if "\U{C4}\U{B0}" <= s then "i" + Fold(s[2..])
    else if "\U{E2}\U{84}\U{AA}" <= s then "k" + Fold(s[3..])
    else [LowerChar(s[0])] + Fold(s[1..])
  }

  /** The text is, ignoring case, one of the listed constant truths. */
  predicate IsConstantTruth(rule: string, prefix: string) {
    Fold(TrimSpace(rule)) in {"true", "1==1", "1 == 1", Fold("r." + prefix + " == r." + prefix)}
  }

  /** The two texts differ at most in the case of ASCII letters. */
  predicate SameIgnoringCase(a: string, b: string) {
    |a| == |b| && forall i :: 0 <= i < |a| ==> SameLetter(a[i], b[i])
  }

  predicate SameLetter(x: char, y: char) {
    || x == y
    || ('A' <= x <= 'Z' && 'a' <= y <= 'z' && x as int + 32 == y as int)
    || ('A' <= y <= 'Z' && 'a' <= x <= 'z' && y as int + 32 == x as int)
  }

  predicate Ascii(s: string) {
    forall i :: 0 <= i < |s| ==> s[i] < '\U{80}'
  }

  lemma {:induction false} FoldOfAscii(a: string)
    requires Ascii(a)
    ensures |Fold(a)| == |a| && forall i :: 0 <= i < |a| ==> Fold(a)[i] == LowerChar(a[i])
  {
    if a != "" {
      assert a[0] < '\U{80}';
      FoldOfAscii(a[1..]);
    }
  }

  lemma SameFold(a: string, b: string)
    requires Ascii(a) && Ascii(b)
    ensures Fold(a) == Fold(b) <==> SameIgnoringCase(a, b)
  {
    hide Fold;
    FoldOfAscii(a);
    FoldOfAscii(b);
    if SameIgnoringCase(a, b) {
      assert Fold(a) == Fold(b);
    }
    if Fold(a) == Fold(b) {
      forall i | 0 <= i < |a| ensures SameLetter(a[i], b[i]) { assert Fold(a)[i] == Fold(b)[i]; }
    }
  }

  /** The rule is one of the four listed constant truths, up to the case of ASCII letters. */
  predicate Listed(text: string, prefix: string) {
    || SameIgnoringCase(text, "true")
    || SameIgnoringCase(text, "1==1")
    || SameIgnoringCase(text, "1 == 1")
    || SameIgnoringCase(text, "r." + prefix + " == r." + prefix)
  }

  lemma FoldOfLower(a: string)
    requires Ascii(a) && forall i :: 0 <= i < |a| ==> !('A' <= a[i] <= 'Z')
    ensures Fold(a) == a
  {
    FoldOfAscii(a);
    hide Fold;
  }

  lemma ListedTextsFold()
    ensures Fold("true") == "true" && Fold("1==1") == "1==1" && Fold("1 == 1") == "1 == 1"
  {
    hide Fold;
    FoldOfLower("true");
    FoldOfLower("1==1");
    FoldOfLower("1 == 1");
  }

  lemma ConstantTruthsAreListed(text: string, prefix: string)
    requires Ascii(prefix) && TrimSpace(text) == text
    ensures Listed(text, prefix) ==> IsConstantTruth(text, prefix)
    ensures Ascii(text) ==> (IsConstantTruth(text, prefix) <==> Listed(text, prefix))
  {
    hide Fold, TrimSpace, SameIgnoringCase;
    var own := "r." + prefix + " == r." + prefix;
    assert Ascii(own) && Ascii("true") && Ascii("1==1") && Ascii("1 == 1");
    if Listed(text, prefix) { ListedIsAscii(text, prefix, own); }
    ListedTextsFold();
    if Ascii(text) {
      SameFold(text, "true");
      SameFold(text, "1==1");
      SameFold(text, "1 == 1");
      SameFold(text, own);
    }
  }

  lemma ListedIsAscii(text: string, prefix: string, own: string)
    requires Listed(text, prefix) && own == "r." + prefix + " == r." + prefix && Ascii(own)
    ensures Ascii(text)
  {
    forall i | 0 <= i < |text| ensures text[i] < '\U{80}' {
      if SameIgnoringCase(text, own) { assert SameLetter(text[i], own[i]); }
    }
  }

  /** Some derivable expression has exactly these tokens. */
  ghost predicate Derivable(ts: seq<G.Token>) {
    exists e :: G.WellFormed(e) && ts == G.Yield(e)
  }

  /** The rule may be stored: it is blank, or a derivable expression that is not a listed constant truth. */
  ghost predicate Acceptable(rule: string, prefix: string) {
    var trimmed := TrimSpace(rule);
    trimmed == "" || (!IsConstantTruth(trimmed, prefix) && Derivable(Lex(trimmed)))
  }

  lemma DerivableIffParses(ts: seq<G.Token>)
    ensures Derivable(ts) <==> G.ParseExpr(ts).Some? && G.ParseExpr(ts).value.1 == []
  {
    if e :| G.WellFormed(e) && ts == G.Yield(e) {
      G.CompleteExpr(e, []);
    }
    if G.ParseExpr(ts).Some? && G.ParseExpr(ts).value.1 == [] {
      G.SoundExpr(ts);
      assert ts == G.Yield(G.ParseExpr(ts).value.0);
    }
  }

  method Recognise(text: string) returns (ok: bool)
    ensures ok <==> G.ParseExpr(Lex(text)).Some? && G.ParseExpr(Lex(text)).value.1 == []
  {
    var p := new RuleParser(text);
    ok := p.ParseExpr();
    if ok {
      ok := p.Eof();
    }
  }

  /** The verdict is right for the text without the white space around it. */
  ghost predicate RightVerdict(ok: bool, text: string, prefix: string) {
    && (text == "" ==> ok)
    && (text != "" && Listed(text, prefix) ==> !ok)
    && (text != "" && ok ==> Derivable(Lex(text)))
    && (Ascii(text) && Derivable(Lex(text)) && !Listed(text, prefix) ==> ok)
  }

  /** What is left after trimming has nothing more to trim. */
  lemma TrimsItself(rule: string, text: string)
    requires Trims(rule, text)
    ensures Trims(text, text)
  {
    hide IsSpaceRune, EndsWith;
    var before, after :| TrimsTo(rule, before, text, after);
    JoinNone();
    assert text == Join([]) + (text + Join([]));
    assert TrimsTo(text, [], text, []);
  }

  lemma AcceptableIsRight(rule: string, prefix: string)
    requires Ascii(prefix)
    ensures Trims(rule, TrimSpace(rule)) && RightVerdict(Acceptable(rule, prefix), TrimSpace(rule), prefix)
  {
    hide TrimSpace, IsConstantTruth, Listed, Derivable, Lex, Ascii, Trims;
    var text := TrimSpace(rule);
    TrimSpaceMeans(rule, text);
    TrimsItself(rule, text);
    TrimSpaceMeans(text, text);
    ConstantTruthsAreListed(text, prefix);
  }

  /** The prefix is "sub" or "obj". */
  method ValidateABACRule(rule: string, prefix: string) returns (ok: bool)
    requires Ascii(prefix)
    ensures ok <==> Acceptable(rule, prefix)
    ensures forall text :: Trims(rule, text) ==> RightVerdict(ok, text, prefix)
  {
    hide RightVerdict, IsConstantTruth, Trims;
    AcceptableIsRight(rule, prefix);
    forall text | Trims(rule, text) ensures text == TrimSpace(rule) { TrimSpaceMeans(rule, text); }
    var trimmed := TrimSpace(rule);
    if trimmed == "" {
      return true;
    }
    if IsConstantTruth(trimmed, prefix) {
      return false;
    }
    DerivableIffParses(Lex(trimmed));
    ok := Recognise(trimmed);
  }
}
