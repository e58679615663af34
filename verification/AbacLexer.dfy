/**
  The lexer of ABAC rules, byte by byte: what the next token of a text is, the stateful lexer
  that reads it, and printing as its inverse. Characters stand for bytes, classified as Latin-1.
 */
module AbacLexer {
  import opened Wrappers
  import opened AbacGrammar
  import D = Decimal

  predicate IsSpace(c: char) {
    c == ' ' || '\t' <= c <= '\r' || c == '\U{85}' || c == '\U{A0}'
  }

  predicate IsLetter(c: char) {
    || 'a' <= c <= 'z' || 'A' <= c <= 'Z'
    || c == '\U{AA}' || c == '\U{B5}' || c == '\U{BA}'
    || ('\U{C0}' <= c <= '\U{FF}' && c != '\U{D7}' && c != '\U{F7}')
  }

  predicate IsWordChar(c: char) {
    IsLetter(c) || D.IsDigit(c) || c == '_'
  }

  // ---------- what comes next in a text ----------

  function SpaceLength(s: string): (n: nat)
    ensures n <= |s|
  {
    if s != "" && IsSpace(s[0]) then 1 + SpaceLength(s[1..]) else 0
  }

  function WordLength(s: string): (n: nat)
    ensures n <= |s|
  {
    if s != "" && IsWordChar(s[0]) then 1 + WordLength(s[1..]) else 0
  }

  predicate IsNumberChar(c: char) {
    D.IsDigit(c) || c == '.'
  }

  function NumberLength(s: string): (n: nat)
    ensures n <= |s|
  {
    if s != "" && IsNumberChar(s[0]) then 1 + NumberLength(s[1..]) else 0
  }

  /**
    The length of a string's remainder after its opening quote: through the closing quote, or up
    to a newline or the end when there is none. A backslash takes the next byte with it.
   */
  function StringLength(s: string, quote: char): (n: nat)
    ensures n <= |s|
  {
    if s == "" then 0
    else if s[0] == '\\' && |s| >= 2 then 2 + StringLength(s[2..], quote)
    else if s[0] == quote then 1
    else if s[0] == '\n' then 0
    else 1 + StringLength(s[1..], quote)
  }

  lemma StringLengthStep(s: string, quote: char)
    requires s != ""
    ensures StringLength(s, quote) ==
      if s[0] == '\\' && |s| >= 2 then 2 + StringLength(s[2..], quote)
      else if s[0] == quote then 1
      else if s[0] == '\n' then 0
      else 1 + StringLength(s[1..], quote)
  {
  }

  /** The text starts with the word w, and not with a longer one. */
  predicate StartsWithWord(s: string, w: string) {
    |s| >= |w| && s[..|w|] == w && (|s| > |w| ==> !IsWordChar(s[|w|]))
  }

  /** The text goes on with w; for "in" only if no longer word starts there. */
  predicate Continues(s: string, w: string) {
    |s| >= |w| && s[..|w|] == w && (w == "in" && |s| > 2 ==> !IsWordChar(s[2]))
  }

  /** The symbol at the start of a text, if there is one. */
  function Symbol(s: string): (r: Option<Token>)
    requires s != ""
    ensures r.Some? ==> r.value != EOF && SymbolLength(r.value) <= |s|
  {
    var c := s[0];
    if c == '(' then Some(LParen)
    else if c == ')' then Some(RParen)
    else if c == '[' then Some(LBracket)
    else if c == ']' then Some(RBracket)
    else if c == ',' then Some(Comma)
    else if c == '.' then Some(Dot)
    else if Continues(s, "!=") then Some(Ne)
    else if Continues(s, "==") then Some(Eq)
    else None
  }

  function SymbolLength(t: Token): nat {
    if t == Ne || t == Eq then 2 else 1
  }

  /** The token at the start of a text, and its length. The token of `false` carries its last four bytes. */
  function Scan(s: string): (r: (Token, nat))
    requires s != "" && !IsSpace(s[0])
    ensures 0 < r.1 <= |s| && r.0 != EOF
  {
    var symbol := Symbol(s);
    if symbol.Some? then (symbol.value, SymbolLength(symbol.value)) else ScanWord(s)
  }

  function ScanWord(s: string): (r: (Token, nat))
    requires s != ""
    ensures 0 < r.1 <= |s| && r.0 != EOF
  {
    var c := s[0];
    if StartsWithWord(s, "in") then (In, 2)
    else if StartsWithWord(s, "true") then (Bool(s[..4]), 4)
    else if StartsWithWord(s, "false") then (Bool(s[1..5]), 5)
    else if c == '"' || c == '\'' then var n := 1 + StringLength(s[1..], c); (Str(s[..n]), n)
    else if StartsNumber(s) then var n := NumberSpan(s); (Number(s[..n]), n)
    else if IsLetter(c) || c == '_' then var n := WordLength(s); (Ident(s[..n]), n)
    else (Ident([c]), 1)
  }

  predicate StartsNumber(s: string)
    requires s != ""
  {
    D.IsDigit(s[0]) || (s[0] == '-' && |s| >= 2 && D.IsDigit(s[1]))
  }

  /** The length of a number with its sign. */
  function NumberSpan(s: string): (n: nat)
    requires s != ""
    ensures n <= |s|
    ensures StartsNumber(s) ==> n > 0
  {
    if s[0] == '-' then 1 + NumberLength(s[1..]) else NumberLength(s)
  }

  lemma {:induction false} AfterSpace(s: string)
    ensures SpaceLength(s) < |s| ==> !IsSpace(s[SpaceLength(s)])
    ensures forall k :: 0 <= k < SpaceLength(s) ==> IsSpace(s[k])
  {
    if s != "" && IsSpace(s[0]) {
      AfterSpace(s[1..]);
    }
  }

  /** The next token and how much of the text it and the space before it take; EOF at the end. */
  function Next(s: string): (r: (Token, nat))
    ensures r.1 <= |s|
    ensures r.0 == EOF <==> SpaceLength(s) == |s|
    ensures r.0 != EOF ==> r.1 > SpaceLength(s)
    ensures r.0 == EOF ==> r.1 == |s|
  {
    var n := SpaceLength(s);
    if n == |s| then (EOF, n)
    else
      AfterSpace(s);
      var (t, len) := Scan(s[n..]);
      (t, n + len)
  }

  /** All tokens of a text. */
  function Lex(s: string): (ts: seq<Token>)
    ensures forall i :: 0 <= i < |ts| ==> ts[i] != EOF
  {
    var (t, n) := Next(s);
    if t == EOF then [] else [t] + Lex(s[n..])
  }

  // ---------- the lexer ----------

  lemma TailOfTail(s: string, i: nat, k: nat)
    requires i + k <= |s|
    ensures s[i..][k..] == s[i + k..]
  {
  }

  lemma PartOfRest(s: string, start: nat, i: nat, j: nat)
    requires i <= j && start + j <= |s|
    ensures s[start + i..start + j] == s[start..][i..j]
  {
  }

  class Lexer {
    const input: string
    var pos: nat

    ghost predicate Valid()
      reads this
    {
      pos <= |input|
    }

    /** What is still to be read. */
    function Rest(): string
      reads this
      requires Valid()
    {
      input[pos..]
    }

    constructor (input: string)
      ensures Valid() && this.input == input && pos == 0
    {
      this.input, pos := input, 0;
    }

    method SkipSpace()
      requires Valid()
      modifies this
      ensures Valid() && pos == old(pos) + SpaceLength(old(Rest()))
    {
      while pos < |input| && IsSpace(input[pos])
        invariant Valid() && old(pos) <= pos
        invariant SpaceLength(old(Rest())) == pos - old(pos) + SpaceLength(Rest())
      {
        assert Rest()[1..] == input[pos + 1..];
        pos := pos + 1;
      }
    }

    /** Consumes s if the text continues with it - for "in", only if no longer word starts there. */
    method Match(s: string) returns (ok: bool)
      requires Valid()
      modifies this
      ensures Valid()
      ensures ok <==> Continues(old(Rest()), s)
      ensures pos == old(pos) + if ok then |s| else 0
    {
      if pos + |s| > |input| {
        return false;
      }
      if input[pos..pos + |s|] != s {
        return false;
      }
      if s == "in" && pos + |s| < |input| {
        var next := input[pos + |s|];
        if IsWordChar(next) {
          return false;
        }
      }
      pos := pos + |s|;
      return true;
    }

    method MatchWord(s: string) returns (ok: bool)
      requires Valid() && s != ""
      modifies this
      ensures Valid()
      ensures ok <==> StartsWithWord(old(Rest()), s)
      ensures pos == old(pos) + if ok then |s| else 0
    {
      var start := pos;
      ok := Match(s);
      if !ok {
        return false;
      }
      if start + |s| < |input| {
        var next := input[start + |s|];
        if IsWordChar(next) {
          pos := start;
          return false;
        }
      }
      return true;
    }

    /** Reads on to the closing quote, past any byte behind a backslash; a newline or the end of the text ends it too. */
    method ReadString(quote: char) returns (t: Token)
      requires Valid() && Rest() != "" && Rest()[0] == quote
      modifies this
      ensures Valid()
      ensures var n := 1 + StringLength(old(Rest())[1..], quote); pos == old(pos) + n && t == Str(old(Rest())[..n])
    {
      hide StringLength;
      var start := pos;
      pos := pos + 1;
      ghost var n := 1 + StringLength(input[start + 1..], quote);
      while pos < |input|
        invariant Valid() && start < pos
        invariant n == pos - start + StringLength(input[pos..], quote)
        decreases |input| - pos
      {
        var ch := input[pos];
        StringLengthStep(input[pos..], quote);
        if ch == '\\' && pos + 1 < |input| {
          TailOfTail(input, pos, 2);
          pos := pos + 2;
          continue;
        }
        if ch == quote {
          pos := pos + 1;
          assert pos - start == n;
          return Str(input[start..pos]);
        }
        if ch == '\n' {
          assert pos - start == n;
          return Str(input[start..pos]);
        }
        TailOfTail(input, pos, 1);
        pos := pos + 1;
      }
      assert input[pos..] == "";
      return Str(input[start..pos]);
    }

    method ReadNumber() returns (t: Token)
      requires Valid() && Rest() != ""
      modifies this
      ensures Valid()
      ensures var n := NumberSpan(old(Rest())); pos == old(pos) + n && t == Number(old(Rest())[..n])
    {
      var start := pos;
      if input[pos] == '-' {
        pos := pos + 1;
      }
      ghost var from, digits := pos, input[pos..];
      while pos < |input| && (D.IsDigit(input[pos]) || input[pos] == '.')
        invariant Valid() && from <= pos
        invariant NumberLength(digits) == pos - from + NumberLength(Rest())
      {
        assert Rest()[1..] == input[pos + 1..];
        pos := pos + 1;
      }
      return Number(input[start..pos]);
    }

    method ReadIdent() returns (t: Token)
      requires Valid()
      modifies this
      ensures Valid()
      ensures var n := WordLength(old(Rest())); pos == old(pos) + n && t == Ident(old(Rest())[..n])
    {
      var start := pos;
      while pos < |input| && IsWordChar(input[pos])
        invariant Valid() && start <= pos
        invariant WordLength(old(Rest())) == pos - start + WordLength(Rest())
      {
        assert Rest()[1..] == input[pos + 1..];
        pos := pos + 1;
      }
      return Ident(input[start..pos]);
    }

    /** One token; EOF, again and again, at the end. Before the end every call advances. */
    method NextToken() returns (t: Token)
      requires Valid()
      modifies this
      ensures Valid()
      ensures (t, pos - old(pos)) == Next(old(Rest()))
      ensures t != EOF ==> pos > old(pos)
      ensures Rest() == old(Rest())[pos - old(pos)..]
    {
      hide Scan, IsSpace;
      SkipSpace();
      if pos >= |input| {
        return EOF;
      }
      AfterSpace(old(Rest()));
      ghost var s := Rest();
      assert s == old(Rest())[pos - old(pos)..];
      t := TokenHere();
    }

    method SymbolHere() returns (t: Option<Token>)
      requires Valid() && Rest() != ""
      modifies this
      ensures Valid() && t == Symbol(old(Rest()))
      ensures pos == old(pos) + if t.Some? then SymbolLength(t.value) else 0
    {
      match input[pos] {
        case '(' => pos := pos + 1; return Some(LParen);
        case ')' => pos := pos + 1; return Some(RParen);
        case '[' => pos := pos + 1; return Some(LBracket);
        case ']' => pos := pos + 1; return Some(RBracket);
        case ',' => pos := pos + 1; return Some(Comma);
        case '.' => pos := pos + 1; return Some(Dot);
        case _ =>
      }
      var ne := Match("!=");
      if ne { return Some(Ne); }
      var eq := Match("==");
      if eq { return Some(Eq); }
      return None;
    }

    /** The token at the current position, which is not a space. */
    method TokenHere() returns (t: Token)
      requires Valid() && Rest() != "" && !IsSpace(Rest()[0])
      modifies this
      ensures Valid() && (t, pos - old(pos)) == Scan(old(Rest()))
    {
      var symbol := SymbolHere();
      if symbol.Some? {
        return symbol.value;
      }
      t := WordHere();
    }

    method WordHere() returns (t: Token)
      requires Valid() && Rest() != ""
      modifies this
      ensures Valid() && (t, pos - old(pos)) == ScanWord(old(Rest()))
    {
      hide StringLength, NumberLength, WordLength;
      ghost var start := pos;
      var ch := input[pos];
      var isIn := MatchWord("in");
      if isIn { return In; }
      var isTrue := MatchWord("true");
      if isTrue {
        PartOfRest(input, start, 0, 4);
        return Bool(input[pos - 4..pos]);
      }
      var isFalse := MatchWord("false");
      if isFalse {
        PartOfRest(input, start, 1, 5);
        return Bool(input[pos - 4..pos]);
      }
      if ch == '"' || ch == '\'' {
        t := ReadString(ch);
        return;
      }
      if D.IsDigit(ch) || (ch == '-' && pos + 1 < |input| && D.IsDigit(input[pos + 1])) {
        t := ReadNumber();
        return;
      }
      if IsLetter(ch) || ch == '_' {
        t := ReadIdent();
        return;
      }
      pos := pos + 1;
      return Ident([ch]);
    }
  }

  // ---------- the consumed ranges ----------

  /** A token's share of the text: the space before it, and its own bytes. */
  datatype Lexeme = Lexeme(gap: string, raw: string, token: Token)

  function Lexemes(s: string): seq<Lexeme> {
    var (t, n) := Next(s);
    if t == EOF then []
    else [Lexeme(s[..SpaceLength(s)], s[SpaceLength(s)..n], t)] + Lexemes(s[n..])
  }

  /** The lexemes' bytes in order, followed by `end`. */
  function Concat(ls: seq<Lexeme>, end: string): string {
    if ls == [] then end else ls[0].gap + (ls[0].raw + Concat(ls[1..], end))
  }

  predicate AllSpace(s: string) {
    forall i :: 0 <= i < |s| ==> IsSpace(s[i])
  }

  /** The space after the last token. */
  function Trailing(s: string): string {
    var (t, n) := Next(s);
    if t == EOF then s else Trailing(s[n..])
  }

  lemma FirstLexeme(s: string)
    ensures var (t, n) := Next(s);
      if t == EOF then Lexemes(s) == [] && Lex(s) == [] && AllSpace(Trailing(s))
      else
        var l := Lexeme(s[..SpaceLength(s)], s[SpaceLength(s)..n], t);
        && Lexemes(s) == [l] + Lexemes(s[n..]) && AllSpace(l.gap) && l.raw != ""
        && Lex(s) == [t] + Lex(s[n..]) && Trailing(s) == Trailing(s[n..])
  {
    AfterSpace(s);
    hide Scan, IsSpace;
  }

  lemma {:induction false} LexemesAreTokens(s: string)
    ensures |Lexemes(s)| == |Lex(s)| && forall i :: 0 <= i < |Lex(s)| ==> Lexemes(s)[i].token == Lex(s)[i]
    ensures forall i :: 0 <= i < |Lexemes(s)| ==> AllSpace(Lexemes(s)[i].gap) && Lexemes(s)[i].raw != ""
    ensures AllSpace(Trailing(s))
  {
    hide Lexemes, Lex, Trailing, AllSpace;
    FirstLexeme(s);
    var (t, n) := Next(s);
    if t != EOF {
      hide Next, SpaceLength;
      LexemesAreTokens(s[n..]);
    }
  }

  /** The tokens' bytes and the spaces between them, in order, are the whole text; no token is empty. */
  lemma {:induction false} TokensPartitionText(s: string)
    ensures s == Concat(Lexemes(s), Trailing(s))
  {
    var (t, n) := Next(s);
    if t != EOF {
      TokensPartitionText(s[n..]);
      assert Lexemes(s)[1..] == Lexemes(s[n..]);
      Cut(s, SpaceLength(s), n);
    }
  }

  lemma Cut(s: string, m: nat, n: nat)
    requires m <= n <= |s|
    ensures s == s[..m] + (s[m..n] + s[n..])
  {
  }
}
