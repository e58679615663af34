/**
  The language of ABAC rules, over tokens:

    Expr  ::= "(" Expr ")" | Left Op Prim          Left: a Prim that does not start with "("
    Op    ::= "==" | "!=" | "in"
    Prim  ::= Attr | string | number | bool | "[" "]" | "[" Prim { "," Prim } "]" | "(" Expr ")"
    Attr  ::= r "." Target "." Field | r "." Target "." Attrs "." ident

  and the recursive-descent recogniser as a function on token sequences, proved sound and
  complete for it.
 */
module AbacGrammar {
  import opened Wrappers

  datatype Token =
    | EOF
    | Ident(text: string) | Str(text: string) | Number(text: string) | Bool(text: string)
    | Dot | LParen | RParen | LBracket | RBracket | Comma | Eq | Ne | In

  datatype Prim =
    | Attr(target: string, field: string)
    | NamedAttr(target: string, name: string)
    | Literal(token: Token)
    | EmptyArray
    | Array(items: Items)
    | Paren(inner: Expr)

  datatype Items = Last(p: Prim) | More(p: Prim, rest: Items)

  datatype Expr = Group(e: Expr) | Compare(left: Prim, op: Token, right: Prim)

  const TARGETS := {"sub", "obj"}
  const FIELDS := {"ID", "Owner", "Name", "Roles"}

  // ---------- derivations ----------

  predicate WellFormed(e: Expr) {
    match e
    case Group(inner) => WellFormed(inner)
    case Compare(left, op, right) =>
      !left.Paren? && (op == Eq || op == Ne || op == In) && WellFormedPrim(left) && WellFormedPrim(right)
  }

  predicate WellFormedPrim(p: Prim) {
    match p
    case Attr(target, field) => target in TARGETS && field in FIELDS
    case NamedAttr(target, _) => target in TARGETS
    case Literal(t) => t.Str? || t.Number? || t.Bool?
    case EmptyArray => true
    case Array(items) => WellFormedItems(items)
    case Paren(e) => WellFormed(e)
  }

  predicate WellFormedItems(items: Items) {
    match items
    case Last(p) => WellFormedPrim(p)
    case More(p, rest) => WellFormedPrim(p) && WellFormedItems(rest)
  }

  /** The tokens a tree derives, followed by `rest`. */
  function Then(e: Expr, rest: seq<Token>): seq<Token> {
    match e
    case Group(inner) => [LParen] + Then(inner, [RParen] + rest)
    case Compare(left, op, right) => ThenPrim(left, [op] + ThenPrim(right, rest))
  }

  function ThenPrim(p: Prim, rest: seq<Token>): (ts: seq<Token>)
    ensures ts != []
  {
    match p
    case Attr(target, field) => [Ident("r"), Dot, Ident(target), Dot, Ident(field)] + rest
    case NamedAttr(target, name) => [Ident("r"), Dot, Ident(target), Dot, Ident("Attrs"), Dot, Ident(name)] + rest
    case Literal(t) => [t] + rest
    case EmptyArray => [LBracket] + ([RBracket] + rest)
    case Array(items) => [LBracket] + ThenItems(items, rest)
    case Paren(e) => [LParen] + Then(e, [RParen] + rest)
  }

  function ThenItems(items: Items, rest: seq<Token>): seq<Token> {
    match items
    case Last(p) => ThenPrim(p, [RBracket] + rest)
    case More(p, more) => ThenPrim(p, [Comma] + ThenItems(more, rest))
  }

  /** The tokens a tree derives. */
  function Yield(e: Expr): seq<Token> {
    Then(e, [])
  }

  // ---------- the recogniser ----------

  /** A parse: the tree and the tokens left over. */
  type Parse<T> = Option<(T, seq<Token>)>

  predicate StartsWith(ts: seq<Token>, t: Token) {
    ts != [] && ts[0] == t
  }

  predicate IsOp(t: Token) {
    t == Eq || t == Ne || t == In
  }

  function ParseExpr(ts: seq<Token>): (r: Parse<Expr>)
    ensures r.Some? ==> |r.value.1| < |ts|
    decreases |ts|, 2
  {
    if StartsWith(ts, LParen) then
      match ParseExpr(ts[1..])
      case Some((e, rest)) => if StartsWith(rest, RParen) then Some((Group(e), rest[1..])) else None
      case None => None
    else
      match ParsePrimary(ts)
      case Some((left, rest)) =>
        if rest != [] && IsOp(rest[0]) then
          match ParsePrimary(rest[1..])
          case Some((right, rest')) => Some((Compare(left, rest[0], right), rest'))
          case None => None
        else None
      case None => None
  }

  function ParsePrimary(ts: seq<Token>): (r: Parse<Prim>)
    ensures r.Some? ==> |r.value.1| < |ts|
    decreases |ts|, 1
  {
    if ts == [] then None
    else
      match ts[0]
      case Ident(text) => if text == "r" then ParseAttr(ts) else None
      case Str(_) => Some((Literal(ts[0]), ts[1..]))
      case Number(_) => Some((Literal(ts[0]), ts[1..]))
      case Bool(_) => Some((Literal(ts[0]), ts[1..]))
      case LBracket =>
        if StartsWith(ts[1..], RBracket) then Some((EmptyArray, ts[2..]))
        else
          (match ParseItems(ts[1..])
           case Some((items, rest)) => Some((Array(items), rest))
           case None => None)
      case LParen =>
        (match ParseExpr(ts[1..])
         case Some((e, rest)) => if StartsWith(rest, RParen) then Some((Paren(e), rest[1..])) else None
         case None => None)
      case _ => None
  }

  function ParseAttr(ts: seq<Token>): (r: Parse<Prim>)
    ensures r.Some? ==> |r.value.1| < |ts|
  {
    if |ts| >= 5 && ts[0].Ident? && ts[1] == Dot && ts[2].Ident? && ts[2].text in TARGETS && ts[3] == Dot && ts[4].Ident? then
      if ts[4].text in FIELDS then Some((Attr(ts[2].text, ts[4].text), ts[5..]))
      else if ts[4].text == "Attrs" && |ts| >= 7 && ts[5] == Dot && ts[6].Ident? then
        Some((NamedAttr(ts[2].text, ts[6].text), ts[7..]))
      else None
    else None
  }

  /** The items of a non-empty array, up to and with the closing bracket. */
  function ParseItems(ts: seq<Token>): (r: Parse<Items>)
    ensures r.Some? ==> |r.value.1| < |ts|
    decreases |ts|, 2
  {
    match ParsePrimary(ts)
    case Some((p, rest)) =>
      if StartsWith(rest, RBracket) then Some((Last(p), rest[1..]))
      else if StartsWith(rest, Comma) then
        match ParseItems(rest[1..])
        case Some((more, rest')) => Some((More(p, more), rest'))
        case None => None
      else None
    case None => None
  }

  // ---------- soundness ----------

  lemma Cons(ts: seq<Token>, t: Token, tail: seq<Token>)
    requires ts != [] && ts[0] == t && ts[1..] == tail
    ensures ts == [t] + tail
  {
  }

  lemma OnlyParenOpens(p: Prim, rest: seq<Token>)
    requires WellFormedPrim(p)
    ensures ThenPrim(p, rest)[0] == LParen <==> p.Paren?
    ensures ThenPrim(p, rest)[0] != RBracket
  {
  }

  lemma {:induction false} SoundExpr(ts: seq<Token>)
    requires ParseExpr(ts).Some?
    ensures var (e, rest) := ParseExpr(ts).value; WellFormed(e) && ts == Then(e, rest)
    decreases |ts|, 2
  {
    if StartsWith(ts, LParen) {
      SoundExpr(ts[1..]);
      var (e, rest) := ParseExpr(ts[1..]).value;
      Cons(rest, RParen, rest[1..]);
      Cons(ts, LParen, Then(e, rest));
    } else {
      SoundPrimary(ts);
      var (left, rest) := ParsePrimary(ts).value;
      OnlyParenOpens(left, rest);
      SoundPrimary(rest[1..]);
      var (right, rest') := ParsePrimary(rest[1..]).value;
      Cons(rest, rest[0], ThenPrim(right, rest'));
    }
  }

  lemma {:induction false} SoundPrimary(ts: seq<Token>)
    requires ParsePrimary(ts).Some?
    ensures var (p, rest) := ParsePrimary(ts).value; WellFormedPrim(p) && ts == ThenPrim(p, rest)
    decreases |ts|, 1
  {
    if ts[0].Ident? {
      SoundAttr(ts);
    } else if ts[0].LParen? {
      SoundExpr(ts[1..]);
      var (e, rest) := ParseExpr(ts[1..]).value;
      Cons(rest, RParen, rest[1..]);
      Cons(ts, LParen, Then(e, rest));
    } else if ts[0].LBracket? && !StartsWith(ts[1..], RBracket) {
      SoundItems(ts[1..]);
      var (items, rest) := ParseItems(ts[1..]).value;
      Cons(ts, LBracket, ThenItems(items, rest));
    } else {
      Cons(ts, ts[0], ts[1..]);
    }
  }

  lemma SoundAttr(ts: seq<Token>)
    requires ts != [] && ts[0] == Ident("r") && ParseAttr(ts).Some?
    ensures var (p, rest) := ParseAttr(ts).value; WellFormedPrim(p) && ts == ThenPrim(p, rest)
  {
  }

  lemma {:induction false} SoundItems(ts: seq<Token>)
    requires ParseItems(ts).Some?
    ensures var (items, rest) := ParseItems(ts).value; WellFormedItems(items) && ts == ThenItems(items, rest)
    decreases |ts|, 2
  {
    SoundPrimary(ts);
    var (p, rest) := ParsePrimary(ts).value;
    if StartsWith(rest, RBracket) {
      Cons(rest, RBracket, rest[1..]);
    } else {
      SoundItems(rest[1..]);
      var (more, rest') := ParseItems(rest[1..]).value;
      Cons(rest, Comma, ThenItems(more, rest'));
    }
  }

  // ---------- completeness ----------

  lemma {:induction false} CompleteExpr(e: Expr, rest: seq<Token>)
    requires WellFormed(e)
    ensures ParseExpr(Then(e, rest)) == Some((e, rest))
    decreases e
  {
    match e {
      case Group(inner) =>
        CompleteExpr(inner, [RParen] + rest);
        assert Then(e, rest)[1..] == Then(inner, [RParen] + rest);
      case Compare(left, op, right) =>
        var rest1 := [op] + ThenPrim(right, rest);
        OnlyParenOpens(left, rest1);
        CompletePrimary(left, rest1);
        CompletePrimary(right, rest);
        assert rest1[1..] == ThenPrim(right, rest);
    }
  }

  lemma {:induction false} CompletePrimary(p: Prim, rest: seq<Token>)
    requires WellFormedPrim(p)
    ensures ParsePrimary(ThenPrim(p, rest)) == Some((p, rest))
    decreases p
  {
    var ts := ThenPrim(p, rest);
    match p {
      case Attr(_, _) => assert ts[5..] == rest;
      case NamedAttr(_, _) => assert ts[7..] == rest;
      case Literal(_) => assert ts[1..] == rest;
      case EmptyArray => assert ts[2..] == rest;
      case Array(items) =>
        assert ts[1..] == ThenItems(items, rest);
        CompleteItems(items, rest);
      case Paren(e) =>
        assert ts[1..] == Then(e, [RParen] + rest);
        CompleteExpr(e, [RParen] + rest);
    }
  }

  lemma {:induction false} CompleteItems(items: Items, rest: seq<Token>)
    requires WellFormedItems(items)
    ensures ParseItems(ThenItems(items, rest)) == Some((items, rest))
    ensures !StartsWith(ThenItems(items, rest), RBracket)
    decreases items
  {
    match items {
      case Last(p) =>
        CompletePrimary(p, [RBracket] + rest);
        OnlyParenOpens(p, [RBracket] + rest);
      case More(p, more) =>
        var rest1 := [Comma] + ThenItems(more, rest);
        CompletePrimary(p, rest1);
        OnlyParenOpens(p, rest1);
        CompleteItems(more, rest);
        assert rest1[1..] == ThenItems(more, rest);
    }
  }

  // ---------- the theorems ----------

  /** The recogniser succeeds exactly on the token sequences with a derivable prefix, and leaves what follows it. */
  lemma RecogniserIsExact(ts: seq<Token>, rest: seq<Token>)
    ensures (ParseExpr(ts).Some? && ParseExpr(ts).value.1 == rest)
      <==> exists e :: WellFormed(e) && ts == Then(e, rest)
  {
    if ParseExpr(ts).Some? && ParseExpr(ts).value.1 == rest {
      SoundExpr(ts);
    }
    if e :| WellFormed(e) && ts == Then(e, rest) {
      CompleteExpr(e, rest);
    }
  }

  /** A token sequence has at most one derivable prefix, with one derivation. */
  lemma DerivablePrefixUnique(e1: Expr, rest1: seq<Token>, e2: Expr, rest2: seq<Token>)
    requires WellFormed(e1) && WellFormed(e2) && Then(e1, rest1) == Then(e2, rest2)
    ensures e1 == e2 && rest1 == rest2
  {
    CompleteExpr(e1, rest1);
    CompleteExpr(e2, rest2);
  }

  // ---------- what the grammar admits, token by token ----------

  /** Attributes: of sub or obj, the four fields, and any name after Attrs. */
  lemma AttributesAllowed(target: string, field: string, name: string)
    ensures ParsePrimary([Ident("r"), Dot, Ident(target), Dot, Ident(field)]).Some? <==>
      (target == "sub" || target == "obj") && (field == "ID" || field == "Owner" || field == "Name" || field == "Roles")
    ensures var r := ParsePrimary([Ident("r"), Dot, Ident(target), Dot, Ident("Attrs"), Dot, Ident(name)]);
      r.Some? && r.value.1 == [] <==> target == "sub" || target == "obj"
  {
  }

  /** Nothing but r starts an attribute; strings, numbers and truth values stand for themselves. */
  lemma SinglesAllowed(t: Token)
    ensures ParsePrimary([t]).Some? <==> t.Str? || t.Number? || t.Bool?
    ensures forall text, rest :: text != "r" ==> ParsePrimary([Ident(text)] + rest).None?
  {
  }

  /** Three comparisons, and nothing else between two values; not even a value alone is a rule. */
  lemma ComparisonsAllowed(a: string, op: Token, b: string)
    ensures ParseExpr([Number(a), op, Str(b)]).Some? <==> op == Eq || op == Ne || op == In
    ensures ParseExpr([Number(a)]).None? && ParseExpr([]).None?
  {
    var ts := [Number(a), op, Str(b)];
    assert ts[1..] == [op, Str(b)] && ts[1..][1..] == [Str(b)];
  }

  /** Brackets hold nothing, one value, or values with commas between. */
  lemma ArraysAllowed(a: string, b: string)
    ensures ParsePrimary([LBracket, RBracket]) == Some((EmptyArray, []))
    ensures ParsePrimary([LBracket, Str(a), RBracket]).Some? && ParsePrimary([LBracket, Str(a), Comma, Number(b), RBracket]).Some?
  {
    var one, two := Last(Literal(Str(a))), More(Literal(Str(a)), Last(Literal(Number(b))));
    assert WellFormedPrim(Literal(Str(a))) && WellFormedItems(Last(Literal(Number(b))));
    var tail := ThenItems(Last(Literal(Number(b))), []);
    var end: seq<Token> := [];
    assert [RBracket] + end == [RBracket];
    assert tail == [Number(b), RBracket] by { assert ThenPrim(Literal(Number(b)), [RBracket]) == [Number(b)] + [RBracket]; }
    assert ThenItems(one, []) == [Str(a), RBracket] by { assert ThenPrim(Literal(Str(a)), [RBracket]) == [Str(a)] + [RBracket]; }
    assert ThenItems(two, []) == [Str(a), Comma, Number(b), RBracket] by {
      assert ThenPrim(Literal(Str(a)), [Comma] + tail) == [Str(a)] + ([Comma] + tail);
    }
    CompletePrimary(EmptyArray, []);
    CompletePrimary(Array(one), []);
    CompletePrimary(Array(two), []);
    assert ThenPrim(Array(one), []) == [LBracket, Str(a), RBracket];
    assert ThenPrim(Array(two), []) == [LBracket, Str(a), Comma, Number(b), RBracket];
    assert ThenPrim(EmptyArray, []) == [LBracket, RBracket];
    hide ParsePrimary;
  }

  /** `Then` is the tree's own tokens with `rest` behind them. */
  lemma {:induction false} ThenAppends(e: Expr, rest: seq<Token>)
    ensures Then(e, rest) == Yield(e) + rest
    decreases e
  {
    match e {
      case Group(inner) =>
        ThenAppends(inner, [RParen] + rest);
        ThenAppends(inner, [RParen] + []);
      case Compare(left, op, right) =>
        ThenPrimAppends(left, [op] + ThenPrim(right, rest));
        ThenPrimAppends(left, [op] + ThenPrim(right, []));
        ThenPrimAppends(right, rest);
    }
  }

  lemma {:induction false} ThenPrimAppends(p: Prim, rest: seq<Token>)
    ensures ThenPrim(p, rest) == ThenPrim(p, []) + rest
    decreases p
  {
    match p {
      case Array(items) => ThenItemsAppends(items, rest);
      case Paren(e) =>
        ThenAppends(e, [RParen] + rest);
        ThenAppends(e, [RParen] + []);
      case _ =>
    }
  }

  lemma {:induction false} ThenItemsAppends(items: Items, rest: seq<Token>)
    ensures ThenItems(items, rest) == ThenItems(items, []) + rest
    decreases items
  {
    match items {
      case Last(p) =>
        ThenPrimAppends(p, [RBracket] + rest);
        ThenPrimAppends(p, [RBracket] + []);
      case More(p, more) =>
        ThenPrimAppends(p, [Comma] + ThenItems(more, rest));
        ThenPrimAppends(p, [Comma] + ThenItems(more, []));
        ThenItemsAppends(more, rest);
    }
  }
}
