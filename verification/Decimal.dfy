/** Decimal text of integers: Go's `%d` / `strconv.FormatInt` and `strconv.ParseInt(s, 10, 64)`. */
module Decimal {
  import opened GoInt

  datatype Parsed = Number(value: int) | SyntaxError | RangeError(clamped: int)

  predicate IsDigit(c: char) {
    '0' <= c <= '9'
  }

  function DigitOf(d: nat): (c: char)
    requires d < 10
    ensures IsDigit(c) && c as int == '0' as int + d
  {
    '0' + d as char
  }

  function FormatNat(n: nat): (s: string)
    ensures s != "" && forall i :: 0 <= i < |s| ==> IsDigit(s[i])
  {
    if n < 10 then [DigitOf(n)] else FormatNat(n / 10) + [DigitOf(n % 10)]
  }

  function FormatInt(x: int): string {
    if x < 0 then "-" + FormatNat(-x) else FormatNat(x)
  }

  /** The digits of an unsigned 64-bit number, left to right; the first offence decides the error. */
  function ScanDigits(s: string, acc: nat): Parsed {
    if s == "" then Number(acc)
    else if !IsDigit(s[0]) then SyntaxError
    else
      var next: nat := 10 * acc + (s[0] as int - '0' as int);
      if next >= TWO_64 then RangeError(TWO_64 - 1) else ScanDigits(s[1..], next)
  }

  function ParseInt(s: string): Parsed {
    if s == "" then SyntaxError
    else
      var negative := s[0] == '-';
      var digits := if negative || s[0] == '+' then s[1..] else s;
      if digits == "" then SyntaxError
      else
        match ScanDigits(digits, 0)
        case SyntaxError => SyntaxError
        case Number(u) =>
          if !negative && u >= TWO_63 then RangeError(TWO_63 - 1)
          else if negative && u > TWO_63 then RangeError(-TWO_63)
          else Number(if negative then -u else u)
        case RangeError(_) => RangeError(if negative then -TWO_63 else TWO_63 - 1)
  }

  lemma {:induction false} ScanAppend(a: string, b: string, acc: nat)
    requires ScanDigits(a, acc).Number? && ScanDigits(a, acc).value >= 0
    ensures ScanDigits(a + b, acc) == ScanDigits(b, ScanDigits(a, acc).value)
  {
    if a == "" {
      assert a + b == b;
    } else {
      assert (a + b)[1..] == a[1..] + b;
      ScanAppend(a[1..], b, 10 * acc + (a[0] as int - '0' as int));
    }
  }

  lemma {:induction false} ScanFormat(n: nat)
    requires n < TWO_64
    ensures ScanDigits(FormatNat(n), 0) == Number(n)
  {
    if n < 10 {
      assert FormatNat(n)[1..] == "";
    } else {
      ScanFormat(n / 10);
      ScanAppend(FormatNat(n / 10), [DigitOf(n % 10)], 0);
      assert [DigitOf(n % 10)][1..] == "";
    }
  }

  lemma {:induction false} ScanIsNatural(s: string, acc: nat)
    ensures ScanDigits(s, acc).Number? ==> ScanDigits(s, acc).value >= 0
  {
    if s != "" && IsDigit(s[0]) && 10 * acc + (s[0] as int - '0' as int) < TWO_64 {
      ScanIsNatural(s[1..], 10 * acc + (s[0] as int - '0' as int));
    }
  }

  /** Only int64 numbers are parsed. */
  lemma ParsesToInt64(s: string)
    ensures ParseInt(s).Number? ==> IsInt64(ParseInt(s).value)
  {
    if s != "" {
      ScanIsNatural(if s[0] == '-' || s[0] == '+' then s[1..] else s, 0);
    }
  }

  /** Printing and parsing an int64 gives it back. */
  lemma ParseFormat(x: int)
    requires IsInt64(x)
    ensures ParseInt(FormatInt(x)) == Number(x)
  {
    ScanFormat(if x < 0 then -x else x);
    if x < 0 {
      assert FormatInt(x)[1..] == FormatNat(-x);
    }
  }

  /** Decimal text is built digit by digit. */
  lemma FormatPlaces(m: nat, d: nat)
    requires d < 10
    ensures FormatNat(d) == ["0123456789"[d]]
    ensures m > 0 ==> FormatNat(10 * m + d) == FormatNat(m) + ["0123456789"[d]]
    ensures FormatInt(m) == FormatNat(m)
    ensures m > 0 ==> FormatInt(0 - m) == "-" + FormatNat(m)
  {
    assert "0123456789"[d] == DigitOf(d);
  }

  predicate AllDigits(s: string) {
    forall i :: 0 <= i < |s| ==> IsDigit(s[i])
  }

  /** The number a run of digits stands for, read on from `acc`. */
  function ValueFrom(acc: nat, s: string): nat
    requires AllDigits(s)
    decreases |s|
  {
    if s == "" then acc else ValueFrom(10 * acc + (s[0] as int - '0' as int), s[1..])
  }

  lemma {:induction false} ScanValue(s: string, acc: nat)
    requires AllDigits(s) && acc < TWO_64
    ensures ValueFrom(acc, s) >= acc
    ensures ScanDigits(s, acc) == if ValueFrom(acc, s) < TWO_64 then Number(ValueFrom(acc, s)) else RangeError(TWO_64 - 1)
  {
    if s != "" {
      var next: nat := 10 * acc + (s[0] as int - '0' as int);
      if next < TWO_64 { ScanValue(s[1..], next); } else { GrowsFrom(s[1..], next); }
    }
  }

  lemma {:induction false} GrowsFrom(s: string, acc: nat)
    requires AllDigits(s)
    ensures ValueFrom(acc, s) >= acc
  {
    if s != "" { GrowsFrom(s[1..], 10 * acc + (s[0] as int - '0' as int)); }
  }

  /** Digits, with or without a sign, are parsed to the number they stand for, or to a range error with the nearest int64. */
  lemma ParseDigits(s: string)
    requires s != "" && AllDigits(s)
    ensures var v: int := ValueFrom(0, s);
      && ParseInt(s) == ParseInt("+" + s) == (if v < TWO_63 then Number(v) else RangeError(TWO_63 - 1))
      && ParseInt("-" + s) == if v <= TWO_63 then Number(-v) else RangeError(-TWO_63)
  {
    ScanValue(s, 0);
    assert ("+" + s)[1..] == s && ("-" + s)[1..] == s;
  }

  lemma {:induction false} ScanOther(s: string, acc: nat)
    requires !AllDigits(s)
    ensures !ScanDigits(s, acc).Number?
  {
    if IsDigit(s[0]) && 10 * acc + (s[0] as int - '0' as int) < TWO_64 {
      ScanOther(s[1..], 10 * acc + (s[0] as int - '0' as int));
    }
  }

  /** Nothing else is a number. */
  lemma ParseOther(s: string)
    ensures var digits := if s != "" && (s[0] == '-' || s[0] == '+') then s[1..] else s;
      (digits == "" || !AllDigits(digits)) ==> !ParseInt(s).Number?
  {
    var digits := if s != "" && (s[0] == '-' || s[0] == '+') then s[1..] else s;
    if digits != "" && !AllDigits(digits) { ScanOther(digits, 0); }
  }

  lemma FormatHasNoSeparator(x: int, c: char)
    requires c == ',' || c == '='
    ensures c !in FormatInt(x)
  {
  }
}
