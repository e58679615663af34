/**
  Printing rules: any tree of the grammar, written out with any spacing that keeps its words
  apart, lexes back to its tokens, and so is accepted unless it is a listed constant truth.
 */
module AbacPrint {
  import opened AbacLexer
  import opened AbacParser
  import G = AbacGrammar

  /** The bytes a token stands for. */
  function Source(t: G.Token): string {
    match t
    case EOF => ""
    case Ident(x) => x
    case Str(x) => x
    case Number(x) => x
    case Bool(x) => if x == "alse" then "false" else x
    case Dot => "."
    case LParen => "("
    case RParen => ")"
    case LBracket => "["
    case RBracket => "]"
    case Comma => ","
    case Eq => "=="
    case Ne => "!="
    case In => "in"
  }

  predicate AllWord(s: string) {
    forall i :: 0 <= i < |s| ==> IsWordChar(s[i])
  }

  /** The rest of a string after its opening quote: closed by its last byte and by no earlier one. */
  predicate Closed(s: string, quote: char) {
    if s == "" then false
    else if s[0] == '\\' && |s| >= 2 then Closed(s[2..], quote)
    else if s[0] == quote then |s| == 1
    else s[0] != '\n' && Closed(s[1..], quote)
  }

  /** A token that can be written down: a plain identifier, a closed string, a number, a truth value, a symbol. */
  predicate Printable(t: G.Token) {
    match t
    case EOF => false
    case Ident(x) => x != "" && (IsLetter(x[0]) || x[0] == '_') && AllWord(x) && x !in {"in", "true", "false"}
    case Str(x) => x != "" && (x[0] == '"' || x[0] == '\'') && Closed(x[1..], x[0])
    case Number(x) => x != "" && StartsNumber(x) && NumberSpan(x) == |x|
    case Bool(x) => x in {"true", "alse"}
    case _ => true
  }

  /** A byte that cannot follow the token directly, because it would become part of it. */
  predicate Extends(t: G.Token, c: char) {
    match t
    case Ident(_) => IsWordChar(c)
    case Bool(_) => IsWordChar(c)
    case In => IsWordChar(c)
    case Number(_) => IsNumberChar(c)
    case _ => false
  }

  predicate MayFollow(t: G.Token, rest: string) {
    rest == "" || !Extends(t, rest[0])
  }

  // ---------- strings can hold anything ----------

  /** Every quote, backslash and newline behind a backslash. */
  function Escape(s: string, quote: char): string {
    if s == "" then ""
    else if s[0] == quote || s[0] == '\\' || s[0] == '\n' then ['\\', s[0]] + Escape(s[1..], quote)
    else [s[0]] + Escape(s[1..], quote)
  }

  lemma {:induction false} EscapedIsClosed(s: string, quote: char)
    requires quote == '"' || quote == '\''
    ensures Closed(Escape(s, quote) + [quote], quote)
  {
    if s != "" {
      EscapedIsClosed(s[1..], quote);
      var e, tail := Escape(s, quote) + [quote], Escape(s[1..], quote) + [quote];
      if s[0] == quote || s[0] == '\\' || s[0] == '\n' {
        assert e[2..] == tail;
      } else {
        assert e[1..] == tail;
      }
    }
  }

  /** Any text, escaped and quoted, is a printable string token. */
  lemma QuotedIsPrintable(s: string, quote: char)
    requires quote == '"' || quote == '\''
    ensures Printable(G.Str([quote] + (Escape(s, quote) + [quote])))
  {
    EscapedIsClosed(s, quote);
    assert ([quote] + (Escape(s, quote) + [quote]))[1..] == Escape(s, quote) + [quote];
  }

  // ---------- one token ----------

  lemma {:induction false} WordLengthIs(x: string, rest: string)
    requires AllWord(x) && (rest == "" || !IsWordChar(rest[0]))
    ensures WordLength(x + rest) == |x|
  {
    if x == "" {
      assert x + rest == rest;
    } else {
      assert (x + rest)[1..] == x[1..] + rest;
      WordLengthIs(x[1..], rest);
    }
  }

  lemma {:induction false} NumberLengthIs(x: string, rest: string)
    requires NumberLength(x) == |x| && (rest == "" || !IsNumberChar(rest[0]))
    ensures NumberLength(x + rest) == |x|
  {
    if x == "" {
      assert x + rest == rest;
    } else {
      assert (x + rest)[1..] == x[1..] + rest;
      NumberLengthIs(x[1..], rest);
    }
  }

  lemma {:induction false} StringLengthIs(x: string, quote: char, rest: string)
    requires Closed(x, quote) && quote != '\\'
    ensures StringLength(x + rest, quote) == |x|
  {
    if x[0] == '\\' && |x| >= 2 {
      assert (x + rest)[2..] == x[2..] + rest;
      StringLengthIs(x[2..], quote, rest);
    } else if x[0] != quote {
      assert x[1..] != "" && (x + rest)[1..] == x[1..] + rest;
      StringLengthIs(x[1..], quote, rest);
    }
  }

  /** A text starting with a whole word x starts with the keyword w only if x is w. */
  lemma KeywordIsWholeWord(x: string, rest: string, w: string)
    requires AllWord(x) && x != "" && (rest == "" || !IsWordChar(rest[0])) && AllWord(w)
    ensures StartsWithWord(x + rest, w) <==> x == w
  {
    var s := x + rest;
    WordLengthIs(x, rest);
    if StartsWithWord(s, w) {
      assert s == w + s[|w|..];
      WordLengthIs(w, s[|w|..]);
      assert s[..|x|] == x;
    }
    if x == w {
      assert s[..|w|] == w;
    }
  }

  lemma WordIsNoSymbol(s: string)
    requires s != "" && IsWordChar(s[0])
    ensures Symbol(s).None? && !IsSpace(s[0])
  {
  }

  lemma ScanIdent(x: string, rest: string)
    requires Printable(G.Ident(x)) && MayFollow(G.Ident(x), rest)
    ensures var s := x + rest; !IsSpace(s[0]) && Scan(s) == (G.Ident(x), |x|)
  {
    KeywordIsWholeWord(x, rest, "in");
    KeywordIsWholeWord(x, rest, "true");
    KeywordIsWholeWord(x, rest, "false");
    WordLengthIs(x, rest);
    assert (x + rest)[..|x|] == x;
    WordIsNoSymbol(x + rest);
    hide StartsWithWord, WordLength, AllWord, Symbol;
  }

  lemma ScanKeyword(t: G.Token, rest: string)
    requires (t.In? || t.Bool?) && Printable(t) && MayFollow(t, rest)
    ensures var s := Source(t) + rest; !IsSpace(s[0]) && Scan(s) == (t, |Source(t)|)
  {
    var x := Source(t);
    KeywordIsWholeWord(x, rest, "in");
    KeywordIsWholeWord(x, rest, "true");
    KeywordIsWholeWord(x, rest, "false");
    assert t.Bool? && x == "true" ==> (x + rest)[..4] == "true";
    assert t.Bool? && x == "false" ==> (x + rest)[1..5] == "alse";
    WordIsNoSymbol(x + rest);
    hide StartsWithWord, Symbol, AllWord;
  }

  lemma ScanString(x: string, rest: string)
    requires Printable(G.Str(x))
    ensures var s := x + rest; !IsSpace(s[0]) && Scan(s) == (G.Str(x), |x|)
  {
    assert (x + rest)[1..] == x[1..] + rest;
    StringLengthIs(x[1..], x[0], rest);
    assert (x + rest)[..|x|] == x;
    NotTheWord(x + rest, "in");
    NotTheWord(x + rest, "true");
    NotTheWord(x + rest, "false");
    hide StartsWithWord, Closed, StringLength;
  }

  lemma ScanNumber(x: string, rest: string)
    requires Printable(G.Number(x)) && MayFollow(G.Number(x), rest)
    ensures var s := x + rest; !IsSpace(s[0]) && Scan(s) == (G.Number(x), |x|)
  {
    var s := x + rest;
    NumberSpanIs(x, rest);
    assert s[..|x|] == x;
    NotTheWord(s, "in");
    NotTheWord(s, "true");
    NotTheWord(s, "false");
    hide StartsWithWord, NumberSpan, NumberLength;
  }

  lemma NumberSpanIs(x: string, rest: string)
    requires x != "" && NumberSpan(x) == |x| && (rest == "" || !IsNumberChar(rest[0]))
    ensures NumberSpan(x + rest) == |x|
  {
    if x[0] == '-' {
      assert (x + rest)[1..] == x[1..] + rest;
      NumberLengthIs(x[1..], rest);
    } else {
      NumberLengthIs(x, rest);
    }
  }

  lemma NotTheWord(s: string, w: string)
    requires s != "" && w != "" && s[0] != w[0]
    ensures !StartsWithWord(s, w)
  {
    if |s| >= |w| { assert s[..|w|][0] == s[0]; }
  }

  /** A printable token, followed by nothing that would extend it, is scanned back. */
  lemma ScanPrinted(t: G.Token, rest: string)
    requires Printable(t) && MayFollow(t, rest)
    ensures var s := Source(t) + rest; s != "" && !IsSpace(s[0]) && Scan(s) == (t, |Source(t)|)
  {
    match t {
      case Ident(x) => ScanIdent(x, rest);
      case Str(x) => ScanString(x, rest);
      case Number(x) => ScanNumber(x, rest);
      case Bool(_) => ScanKeyword(t, rest);
      case In => ScanKeyword(t, rest);
      case Eq => assert (Source(t) + rest)[..2] == "==";
      case Ne => assert (Source(t) + rest)[..2] == "!=";
      case _ =>
    }
  }

  // ---------- a whole rule ----------

  /** Tokens written out with the given space before each, and `end` after the last. */
  function Render(ts: seq<G.Token>, gaps: seq<string>, end: string): string
    requires |gaps| == |ts|
  {
    if ts == [] then end else gaps[0] + (Source(ts[0]) + Render(ts[1..], gaps[1..], end))
  }

  /** The spacing is space, and keeps apart what would run together. */
  predicate Separated(ts: seq<G.Token>, gaps: seq<string>, end: string)
    requires |gaps| == |ts|
  {
    && AllSpace(end)
    && (forall i :: 0 <= i < |gaps| ==> AllSpace(gaps[i]))
    && (forall i :: 0 <= i < |ts| - 1 ==> gaps[i + 1] != "" || MayFollow(ts[i], Source(ts[i + 1])))
  }

  lemma SpaceExtendsNothing(t: G.Token, c: char)
    requires IsSpace(c)
    ensures !Extends(t, c)
  {
  }

  lemma {:induction false} SpaceLengthIs(gap: string, rest: string)
    requires AllSpace(gap) && (rest == "" || !IsSpace(rest[0]))
    ensures SpaceLength(gap + rest) == |gap|
  {
    if gap == "" {
      assert gap + rest == rest;
    } else {
      assert (gap + rest)[1..] == gap[1..] + rest;
      SpaceLengthIs(gap[1..], rest);
    }
  }

  lemma RestMayFollow(t: G.Token, ts: seq<G.Token>, gaps: seq<string>, end: string)
    requires |gaps| == |ts| && AllSpace(end) && (forall i :: 0 <= i < |gaps| ==> AllSpace(gaps[i]))
    requires forall x :: x in ts ==> Printable(x)
    requires ts != [] ==> gaps[0] != "" || MayFollow(t, Source(ts[0]))
    ensures MayFollow(t, Render(ts, gaps, end))
  {
    var rest := Render(ts, gaps, end);
    if rest != "" {
      if ts == [] {
        SpaceExtendsNothing(t, rest[0]);
      } else if gaps[0] != "" {
        SpaceExtendsNothing(t, gaps[0][0]);
      } else {
        ScanPrinted(ts[0], "");
        assert rest[0] == Source(ts[0])[0];
      }
    }
  }

  lemma LexOne(gap: string, t: G.Token, rest: string)
    requires AllSpace(gap) && Printable(t) && MayFollow(t, rest)
    ensures Lex(gap + (Source(t) + rest)) == [t] + Lex(rest)
  {
    hide Scan, Printable, Source, MayFollow, AllSpace;
    var body := Source(t) + rest;
    var s := gap + body;
    ScanPrinted(t, rest);
    SpaceLengthIs(gap, body);
    assert s[|gap|..] == body;
    assert s[|gap| + |Source(t)|..] == rest;
  }

  /** Lexing what was printed gives the tokens back. */
  lemma {:induction false} LexRender(ts: seq<G.Token>, gaps: seq<string>, end: string)
    requires |gaps| == |ts| && Separated(ts, gaps, end)
    requires forall t :: t in ts ==> Printable(t)
    ensures Lex(Render(ts, gaps, end)) == ts
  {
    hide Next, Printable, Source, MayFollow, AllSpace;
    if ts == [] {
      SpaceLengthIs(end, "");
      assert end + "" == end;
    } else {
      var rest := Render(ts[1..], gaps[1..], end);
      RestMayFollow(ts[0], ts[1..], gaps[1..], end);
      LexOne(gaps[0], ts[0], rest);
      LexRender(ts[1..], gaps[1..], end);
    }
  }

  // ---------- acceptance ----------

  /** A byte with which no rune of white space ends. */
  predicate Solid(c: char) {
    IsWordChar(c) || (c < '\U{80}' && !IsAsciiSpace(c))
  }

  lemma SourceEnd(t: G.Token)
    requires Printable(t)
    ensures var x := Source(t); x != "" && Solid(x[|x| - 1])
  {
    match t {
      case Str(x) => ClosedEndsInQuote(x[1..], x[0]);
      case Number(x) => NumberEndsInDigit(x);
      case _ =>
    }
  }

  lemma {:induction false} ClosedEndsInQuote(x: string, quote: char)
    requires Closed(x, quote)
    ensures x[|x| - 1] == quote
  {
    if x[0] == '\\' && |x| >= 2 {
      ClosedEndsInQuote(x[2..], quote);
    } else if x[0] != quote {
      ClosedEndsInQuote(x[1..], quote);
    }
  }

  lemma {:induction false} NumberChars(x: string)
    requires NumberLength(x) == |x|
    ensures forall i :: 0 <= i < |x| ==> IsNumberChar(x[i])
  {
    if x != "" {
      NumberChars(x[1..]);
    }
  }

  lemma NumberEndsInDigit(x: string)
    requires Printable(G.Number(x))
    ensures IsNumberChar(x[|x| - 1])
  {
    if x[0] == '-' { NumberChars(x[1..]); } else { NumberChars(x); }
  }

  /** A printed rule ends in a solid byte. */
  lemma {:induction false} RenderEnd(ts: seq<G.Token>, gaps: seq<string>)
    requires ts != [] && |gaps| == |ts| && forall t :: t in ts ==> Printable(t)
    ensures var s := Render(ts, gaps, ""); s != "" && Solid(s[|s| - 1])
  {
    hide Printable, Solid, Source;
    SourceEnd(ts[0]);
    var s, rest := Render(ts, gaps, ""), Render(ts[1..], gaps[1..], "");
    assert s == gaps[0] + (Source(ts[0]) + rest);
    if |ts| > 1 {
      RenderEnd(ts[1..], gaps[1..]);
      assert s[|s| - 1] == rest[|rest| - 1];
    } else {
      assert rest == "";
      assert s[|s| - 1] == Source(ts[0])[|Source(ts[0])| - 1];
    }
  }

  /** An expression starts with a byte that no rune of white space starts with. */
  lemma ExprStart(e: G.Expr, gaps: seq<string>)
    requires G.WellFormed(e) && PrintableExpr(e)
    requires |gaps| == |G.Yield(e)| && |gaps| > 0 && gaps[0] == ""
    ensures var s := Render(G.Yield(e), gaps, ""); s != "" && s[0] < '\U{80}' && !IsAsciiSpace(s[0])
  {
    var x := Source(G.Yield(e)[0]);
    assert x != "" && x[0] < '\U{80}' && !IsAsciiSpace(x[0]) by {
      if e.Compare? { assert G.Yield(e) == G.ThenPrim(e.left, [e.op] + G.ThenPrim(e.right, [])); }
    }
    assert Render(G.Yield(e), gaps, "") == gaps[0] + (x + Render(G.Yield(e)[1..], gaps[1..], ""));
  }

  lemma PlainEdges(s: string)
    requires s != "" && s[0] < '\U{80}' && !IsAsciiSpace(s[0]) && Solid(s[|s| - 1])
    ensures SpaceBefore(s) == 0 && SpaceAfter(s) == 0
  {
  }

  // ---------- printable trees ----------

  /** The leaves of the tree can be written down: its literals, and the names after Attrs. */
  predicate PrintableExpr(e: G.Expr) {
    match e
    case Group(inner) => PrintableExpr(inner)
    case Compare(left, _, right) => PrintablePrim(left) && PrintablePrim(right)
  }

  predicate PrintablePrim(p: G.Prim) {
    match p
    case NamedAttr(_, name) => Printable(G.Ident(name))
    case Literal(t) => Printable(t)
    case Array(items) => PrintableItems(items)
    case Paren(e) => PrintableExpr(e)
    case _ => true
  }

  predicate PrintableItems(items: G.Items) {
    match items
    case Last(p) => PrintablePrim(p)
    case More(p, more) => PrintablePrim(p) && PrintableItems(more)
  }

  predicate AllPrintable(ts: seq<G.Token>) {
    forall t :: t in ts ==> Printable(t)
  }

  lemma FixedTokensPrintable(target: string, field: string)
    requires target in G.TARGETS && (field in G.FIELDS || field == "Attrs")
    ensures Printable(G.Ident("r")) && Printable(G.Ident(target)) && Printable(G.Ident(field))
  {
  }

  lemma {:induction false} ExprTokensPrintable(e: G.Expr, rest: seq<G.Token>)
    requires G.WellFormed(e) && PrintableExpr(e) && AllPrintable(rest)
    ensures AllPrintable(G.Then(e, rest))
    decreases e
  {
    match e {
      case Group(inner) => ExprTokensPrintable(inner, [G.RParen] + rest);
      case Compare(left, op, right) =>
        PrimTokensPrintable(right, rest);
        PrimTokensPrintable(left, [op] + G.ThenPrim(right, rest));
    }
  }

  lemma {:induction false} PrimTokensPrintable(p: G.Prim, rest: seq<G.Token>)
    requires G.WellFormedPrim(p) && PrintablePrim(p) && AllPrintable(rest)
    ensures AllPrintable(G.ThenPrim(p, rest))
    decreases p
  {
    match p {
      case Array(items) => ItemTokensPrintable(items, rest);
      case Paren(e) => ExprTokensPrintable(e, [G.RParen] + rest);
      case Attr(target, field) => FixedTokensPrintable(target, field);
      case NamedAttr(target, _) => FixedTokensPrintable(target, "Attrs");
      case _ =>
    }
    assert Printable(G.Dot) && Printable(G.LBracket) && Printable(G.RBracket) && Printable(G.LParen);
    hide Printable;
  }

  lemma {:induction false} ItemTokensPrintable(items: G.Items, rest: seq<G.Token>)
    requires G.WellFormedItems(items) && PrintableItems(items) && AllPrintable(rest)
    ensures AllPrintable(G.ThenItems(items, rest))
    decreases items
  {
    match items {
      case Last(p) => PrimTokensPrintable(p, [G.RBracket] + rest);
      case More(p, more) =>
        ItemTokensPrintable(more, rest);
        PrimTokensPrintable(p, [G.Comma] + G.ThenItems(more, rest));
    }
  }

  /**
    A tree of the grammar with printable leaves, written with any separating space between the
    tokens and any white space around them, is acceptable exactly unless it reads as a listed
    constant truth.
   */
  lemma PrintedRuleAccepted(e: G.Expr, gaps: seq<string>, before: seq<string>, after: seq<string>, prefix: string)
    requires G.WellFormed(e) && PrintableExpr(e)
    requires |gaps| == |G.Yield(e)| && |gaps| > 0 && gaps[0] == "" && Separated(G.Yield(e), gaps, "")
    requires forall r :: r in before || r in after ==> IsSpaceRune(r)
    ensures var text := Render(G.Yield(e), gaps, "");
      Acceptable(Join(before) + (text + Join(after)), prefix) <==> !IsConstantTruth(text, prefix)
    ensures var text := Render(G.Yield(e), gaps, "");
      Ascii(text) && Ascii(prefix) ==> (Acceptable(Join(before) + (text + Join(after)), prefix) <==> !Listed(text, prefix))
  {
    var text := Render(G.Yield(e), gaps, "");
    PrintedRuleTrims(e, gaps, before, after);
    PrintedRuleLexes(e, gaps);
    hide Render, Lex, TrimSpace, IsConstantTruth, Listed, Join, G.Yield, G.WellFormed, IsSpaceRune, Separated, PrintableExpr, Ascii;
    if Ascii(prefix) { ConstantTruthsAreListed(text, prefix); }
  }

  /** Around a printed rule there is only what was put there to trim. */
  lemma PrintedRuleTrims(e: G.Expr, gaps: seq<string>, before: seq<string>, after: seq<string>)
    requires G.WellFormed(e) && PrintableExpr(e)
    requires |gaps| == |G.Yield(e)| && |gaps| > 0 && gaps[0] == ""
    requires forall r :: r in before || r in after ==> IsSpaceRune(r)
    ensures var text := Render(G.Yield(e), gaps, "");
      text != "" && TrimSpace(Join(before) + (text + Join(after))) == text && TrimSpace(text) == text
  {
    hide Printable, IsSpaceRune, Solid, Render, G.Then, PrintableExpr, IsAsciiSpace, TrimSpace, SpaceBefore, SpaceAfter;
    var ts := G.Yield(e);
    var text := Render(ts, gaps, "");
    ExprTokensPrintable(e, []);
    RenderEnd(ts, gaps);
    ExprStart(e, gaps);
    PlainEdges(text);
    TrimmedText(before, text, after);
    NoPadding(text);
  }

  lemma NoPadding(text: string)
    requires SpaceBefore(text) == 0 && SpaceAfter(text) == 0
    ensures TrimSpace(text) == text
  {
    hide SpaceBefore, SpaceAfter;
    TrimLeftStep(text);
    TrimRightStep(text);
  }

  lemma PrintedRuleLexes(e: G.Expr, gaps: seq<string>)
    requires G.WellFormed(e) && PrintableExpr(e)
    requires |gaps| == |G.Yield(e)| && |gaps| > 0 && Separated(G.Yield(e), gaps, "")
    ensures Lex(Render(G.Yield(e), gaps, "")) == G.Yield(e)
    ensures Derivable(G.Yield(e))
  {
    hide Printable, Render, G.Then, PrintableExpr, Separated, Lex;
    ExprTokensPrintable(e, []);
    LexRender(G.Yield(e), gaps, "");
  }

  // ---------- what single tokens look like ----------

  /** A printable token on its own. */
  lemma LexAlone(t: G.Token)
    requires Printable(t)
    ensures Lex(Source(t)) == [t]
  {
    hide Printable, Source;
    LexRender([t], [""], "");
    assert Render([t], [""], "") == "" + (Source(t) + Render([], [], ""));
    assert "" + (Source(t) + "") == Source(t);
  }

  lemma PrintableSymbols()
    ensures forall t: G.Token :: t.Dot? || t.LParen? || t.RParen? || t.LBracket? || t.RBracket? || t.Comma? || t.Eq? || t.Ne? || t.In? ==> Printable(t)
    ensures Printable(G.Bool("true")) && Printable(G.Bool("alse"))
  {
  }

  lemma SymbolTexts()
    ensures Lex("(") == [G.LParen] && Lex(")") == [G.RParen] && Lex("[") == [G.LBracket] && Lex("]") == [G.RBracket]
    ensures Lex(",") == [G.Comma] && Lex(".") == [G.Dot] && Lex("==") == [G.Eq] && Lex("!=") == [G.Ne] && Lex("in") == [G.In]
    ensures Lex("true") == [G.Bool("true")] && Lex("false") == [G.Bool("alse")]
  {
    hide Lex, Printable;
    PrintableSymbols();
    LexAlone(G.LParen);
    LexAlone(G.RParen);
    LexAlone(G.LBracket);
    LexAlone(G.RBracket);
    LexAlone(G.Comma);
    LexAlone(G.Dot);
    LexAlone(G.Eq);
    LexAlone(G.Ne);
    LexAlone(G.In);
    LexAlone(G.Bool("true"));
    LexAlone(G.Bool("alse"));
  }

  predicate IsAsciiLetter(c: char) {
    'a' <= c <= 'z' || 'A' <= c <= 'Z'
  }

  /** An ASCII name that is no keyword is one identifier. */
  lemma NamesAreIdentifiers(x: string)
    requires x != "" && (IsAsciiLetter(x[0]) || x[0] == '_') && x !in {"in", "true", "false"}
    requires forall i :: 0 <= i < |x| ==> IsAsciiLetter(x[i]) || '0' <= x[i] <= '9' || x[i] == '_'
    ensures Lex(x) == [G.Ident(x)]
  {
    LexAlone(G.Ident(x));
  }

  /** Digits and dots after a digit, with or without a minus sign, are one number. */
  lemma DigitsAreNumbers(x: string)
    requires x != "" && '0' <= x[0] <= '9' && forall i :: 0 <= i < |x| ==> '0' <= x[i] <= '9' || x[i] == '.'
    ensures Lex(x) == [G.Number(x)] && Lex("-" + x) == [G.Number("-" + x)]
  {
    NumberOfDigits(x);
    assert ("-" + x)[1..] == x;
    LexAlone(G.Number(x));
    LexAlone(G.Number("-" + x));
  }

  lemma {:induction false} NumberOfDigits(x: string)
    requires forall i :: 0 <= i < |x| ==> '0' <= x[i] <= '9' || x[i] == '.'
    ensures NumberLength(x) == |x|
  {
    if x != "" { NumberOfDigits(x[1..]); }
  }

  /** Any text, escaped and quoted, is one string; a quote that is never closed takes the rest of the line. */
  lemma QuotedIsString(s: string, quote: char)
    requires quote == '"' || quote == '\''
    ensures Lex([quote] + (Escape(s, quote) + [quote])) == [G.Str([quote] + (Escape(s, quote) + [quote]))]
  {
    QuotedIsPrintable(s, quote);
    hide Lex;
    LexAlone(G.Str([quote] + (Escape(s, quote) + [quote])));
  }

  lemma ScanQuote(s: string)
    requires s != "" && (s[0] == '"' || s[0] == '\'')
    ensures var n := 1 + StringLength(s[1..], s[0]); !IsSpace(s[0]) && Scan(s) == (G.Str(s[..n]), n)
  {
    hide StringLength;
    NotTheWord(s, "in");
    NotTheWord(s, "true");
    NotTheWord(s, "false");
    assert Symbol(s).None?;
    hide StartsWithWord, Symbol;
  }

  lemma UnclosedIsString(x: string, quote: char)
    requires (quote == '"' || quote == '\'') && forall i :: 0 <= i < |x| ==> x[i] != quote && x[i] != '\\' && x[i] != '\n'
    ensures Lex([quote] + x) == [G.Str([quote] + x)]
  {
    hide Scan, Lex, StringLength, IsSpace;
    UnclosedLength(x, quote);
    var s := [quote] + x;
    assert s[1..] == x && s[..|s|] == s;
    ScanQuote(s);
    OneToken(s, G.Str(s));
  }

  lemma OneToken(s: string, t: G.Token)
    requires s != "" && !IsSpace(s[0]) && Scan(s) == (t, |s|) && t != G.EOF
    ensures Lex(s) == [t]
  {
    hide Scan, IsSpace;
    assert SpaceLength(s) == 0 && s[0..] == s && s[|s|..] == "";
    assert Lex("") == [];
  }

  lemma {:induction false} UnclosedLength(x: string, quote: char)
    requires forall i :: 0 <= i < |x| ==> x[i] != quote && x[i] != '\\' && x[i] != '\n'
    ensures StringLength(x, quote) == |x|
  {
    if x != "" { UnclosedLength(x[1..], quote); }
  }

  /** Any other ASCII byte is an identifier of its own, which no rule can use; white space is nothing. */
  lemma OtherBytes(c: char)
    requires '!' <= c <= '~' && !IsAsciiLetter(c) && !('0' <= c <= '9') && c != '_'
    requires c != '"' && c != '\'' && c != '(' && c != ')' && c != '[' && c != ']' && c != ',' && c != '.'
    ensures Lex([c]) == [G.Ident([c])]
  {
    var s := [c];
    assert Symbol(s).None?;
    assert !StartsWithWord(s, "in") && !StartsWithWord(s, "true") && !StartsWithWord(s, "false");
    assert !IsLetter(c) && !IsSpace(c) && !StartsNumber(s);
    hide Symbol, StartsWithWord, IsLetter, IsSpace, StartsNumber, Lex;
    OneToken(s, G.Ident(s));
  }

  lemma WhiteSpaceIsNothing(c: char)
    requires c in " \t\n\r"
    ensures Lex([c]) == []
  {
    assert [c][1..] == "";
  }

  /** One space between any two tokens always separates them. */
  lemma SingleSpacesSeparate(ts: seq<G.Token>, gaps: seq<string>)
    requires |gaps| == |ts| > 0 && gaps[0] == "" && forall i :: 0 < i < |gaps| ==> gaps[i] == " "
    ensures Separated(ts, gaps, "")
  {
  }
}
