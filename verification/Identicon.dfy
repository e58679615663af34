/**
  The identicon's hash mixer on 64-bit words, which loses nothing, and the symmetric pattern
  drawn from it. A word is a natural number below 2^64.
 */
module Identicon {
  import opened GoInt

  type Word = x: nat | x < TWO_64

  const MULTIPLIER_1 := 0xff51afd7ed558ccd
  const MULTIPLIER_2 := 0xc4ceb9fe1a85ec53
  // their inverses modulo 2^64
  const INVERSE_1 := 0x4f74430c22a54005
  const INVERSE_2 := 0x9cb4b2f8129337db

  // ---------- words ----------

  function XorBit(a: nat, b: nat): (bit: nat)
    ensures bit < 2
  {
    if a % 2 == b % 2 then 0 else 1
  }

  /** Bitwise exclusive or. */
  function Xor(a: nat, b: nat): nat {
    if a == 0 && b == 0 then 0 else XorBit(a, b) + 2 * Xor(a / 2, b / 2)
  }

  lemma Halves(bit: nat, t: nat)
    requires bit < 2
    ensures (bit + 2 * t) % 2 == bit && (bit + 2 * t) / 2 == t
  {
  }

  lemma XorHalves(a: nat, b: nat)
    ensures Xor(a, b) % 2 == XorBit(a, b) && Xor(a, b) / 2 == Xor(a / 2, b / 2)
  {
    Halves(XorBit(a, b), Xor(a / 2, b / 2));
  }

  lemma {:induction false} XorUndone(a: nat, b: nat)
    ensures Xor(Xor(a, b), b) == a
    decreases a + b
  {
    if a != 0 || b != 0 {
      XorUndone(a / 2, b / 2);
      XorHalves(a, b);
      XorHalves(Xor(a, b), b);
      BitUndone(a, b, Xor(a, b));
      SameHalves(Xor(Xor(a, b), b), a);
      hide Xor;
    }
  }

  lemma BitUndone(a: nat, b: nat, x: nat)
    requires x % 2 == XorBit(a, b)
    ensures XorBit(x, b) == a % 2
  {
  }

  lemma SameHalves(a: nat, b: nat)
    requires a / 2 == b / 2 && a % 2 == b % 2
    ensures a == b
  {
  }

  lemma {:induction false} XorZero(a: nat)
    ensures Xor(a, 0) == a
  {
    if a != 0 {
      XorZero(a / 2);
    }
  }

  lemma {:induction false} XorBelow(a: nat, b: nat, n: nat)
    requires a < Pow2(n) && b < Pow2(n)
    ensures Xor(a, b) < Pow2(n)
    decreases n
  {
    if n > 0 {
      XorBelow(a / 2, b / 2, n - 1);
    }
  }

  /** `x >> k` */
  function ShiftRight(x: nat, k: nat): nat {
    if k == 0 then x else ShiftRight(x / 2, k - 1)
  }

  lemma {:induction false} ShiftOfXor(a: nat, b: nat, k: nat)
    ensures ShiftRight(Xor(a, b), k) == Xor(ShiftRight(a, k), ShiftRight(b, k))
    decreases k
  {
    if k > 0 {
      XorHalves(a, b);
      ShiftOfXor(a / 2, b / 2, k - 1);
    }
  }

  lemma {:induction false} ShiftBelow(x: nat, k: nat, n: nat)
    requires x < Pow2(k + n)
    ensures ShiftRight(x, k) < Pow2(n)
    decreases k
  {
    if k > 0 {
      ShiftBelow(x / 2, k - 1, n);
    }
  }

  lemma WordBound()
    ensures Pow2(64) == TWO_64
  {
    Pow2Values();
    assert Pow2(40) == 0x100_0000_0000;
    assert Pow2(48) == 0x1_0000_0000_0000;
    assert Pow2(56) == 0x100_0000_0000_0000;
  }

  // ---------- the mixer ----------

  /** `x ^= x >> 33` */
  function XorShift(x: Word): (y: Word) {
    WordBound();
    ShiftWithin(x, 33);
    XorBelow(x, ShiftRight(x, 33), 64);
    Xor(x, ShiftRight(x, 33))
  }

  lemma {:induction false} ShiftWithin(x: nat, k: nat)
    ensures ShiftRight(x, k) <= x
  {
    if k > 0 {
      ShiftWithin(x / 2, k - 1);
    }
  }

  /** `x *= c`, modulo 2^64 */
  function Times(x: Word, c: nat): Word {
    (x * c) % TWO_64
  }

  /** `uint64(id)` */
  function ToWord(id: int): Word
    requires IsInt64(id)
  {
    if id < 0 then id + TWO_64 else id
  }

  function Mix(x: Word): Word {
    XorShift(Times(XorShift(Times(XorShift(x), MULTIPLIER_1)), MULTIPLIER_2))
  }

  function Unmix(h: Word): Word {
    XorShift(Times(XorShift(Times(XorShift(h), INVERSE_2)), INVERSE_1))
  }

  function HashID(id: int): Word
    requires IsInt64(id)
  {
    Mix(ToWord(id))
  }

  // ---------- the mixer, bit by bit ----------

  /** Bit i of a word. */
  function Bit(x: nat, i: nat): nat {
    x / Pow2(i) % 2
  }

  lemma DoubleProduct(b: nat, q: nat)
    ensures q * (2 * b) == 2 * (q * b)
  {
  }

  /** A shift by k leaves the number of whole 2^k in x. */
  lemma {:induction false} ShiftBounds(x: nat, k: nat)
    ensures ShiftRight(x, k) * Pow2(k) <= x < ShiftRight(x, k) * Pow2(k) + Pow2(k)
    decreases k
  {
    if k > 0 {
      ShiftBounds(x / 2, k - 1);
      DoubleProduct(Pow2(k - 1), ShiftRight(x / 2, k - 1));
    }
  }

  lemma ShiftDivides(x: nat, k: nat)
    ensures ShiftRight(x, k) == x / Pow2(k)
  {
    hide ShiftRight, Pow2;
    ShiftBounds(x, k);
    QuotientIs(x, Pow2(k), ShiftRight(x, k));
  }

  lemma {:induction false} ShiftTwice(x: nat, k: nat, i: nat)
    ensures ShiftRight(ShiftRight(x, k), i) == ShiftRight(x, k + i)
    decreases k
  {
    if k > 0 { ShiftTwice(x / 2, k - 1, i); }
  }

  lemma QuotientIs(x: nat, m: nat, q: nat)
    requires m > 0 && q * m <= x < q * m + m
    ensures x / m == q
  {
    var q' := x / m;
    assert q' * m <= x < q' * m + m;
    NextMultiple(m, q, q');
    NextMultiple(m, q', q);
  }

  lemma {:induction false} NextMultiple(m: nat, i: nat, j: nat)
    ensures i < j ==> i * m + m <= j * m
    decreases j
  {
    if i + 1 < j {
      NextMultiple(m, i, j - 1);
      assert j * m == (j - 1) * m + m;
    }
  }

  lemma BitIsShifted(x: nat, i: nat)
    ensures Bit(x, i) == ShiftRight(x, i) % 2
  {
    ShiftDivides(x, i);
  }

  lemma XorOfBits(a: nat, b: nat, i: nat)
    ensures Bit(Xor(a, b), i) == (Bit(a, i) + Bit(b, i)) % 2
  {
    hide Xor, ShiftRight, Bit;
    ShiftOfXor(a, b, i);
    BitIsShifted(Xor(a, b), i);
    BitIsShifted(a, i);
    BitIsShifted(b, i);
    XorHalves(ShiftRight(a, i), ShiftRight(b, i));
  }

  /** Every bit of `x ^ x >> 33` is the exclusive or of that bit and the one 33 places up. */
  lemma XorShiftBits(x: Word, i: nat)
    ensures Bit(XorShift(x), i) == (Bit(x, i) + Bit(x, i + 33)) % 2
  {
    hide Xor, ShiftRight, Bit;
    XorOfBits(x, ShiftRight(x, 33), i);
    BitIsShifted(ShiftRight(x, 33), i);
    BitIsShifted(x, 33 + i);
    ShiftTwice(x, 33, i);
  }

  /** The five steps of the hash, from the id as an unsigned word. */
  lemma HashSteps(id: int)
    requires IsInt64(id)
    ensures var x := if id >= 0 then id else id + TWO_64;
      var a := XorShift(x);
      var b := (a * 0xff51afd7ed558ccd) % TWO_64;
      var c := XorShift(b);
      var d := (c * 0xc4ceb9fe1a85ec53) % TWO_64;
      HashID(id) == XorShift(d)
  {
    hide XorShift;
  }

  lemma XorShiftUndone(x: Word)
    ensures XorShift(XorShift(x)) == x
  {
    var s := ShiftRight(x, 33);
    WordBound();
    ShiftBelow(x, 33, 31);
    Pow2Monotone(31, 33);
    ShiftBelow(s, 33, 0);
    ShiftOfXor(x, s, 33);
    XorZero(s);
    XorUndone(x, s);
  }

  lemma Regroup(x: nat, c: nat, d: nat, q: nat, r: nat, k: nat, m: nat)
    requires x * c == q * m + r && c * d == k * m + 1
    ensures r * d + (q * d) * m == x + (x * k) * m
  {
    assert (q * m + r) * d == (x * c) * d;
    assert (x * c) * d == x * (c * d);
    assert x * (k * m + 1) == x + (x * k) * m;
    assert (q * m + r) * d == r * d + (q * d) * m;
  }

  lemma SplitWord(p: nat) returns (q: nat, r: nat)
    ensures p == q * TWO_64 + r && r == p % TWO_64
  {
    q, r := p / TWO_64, p % TWO_64;
  }

  lemma SameRemainder(p: nat, i: nat, x: Word, j: nat)
    requires p + i * TWO_64 == x + j * TWO_64
    ensures p % TWO_64 == x
  {
  }

  /** Multiplying by c and then by its inverse changes nothing. */
  lemma TimesUndone(x: Word, c: nat, d: nat)
    requires c * d % TWO_64 == 1
    ensures Times(Times(x, c), d) == x
  {
    var q, r := SplitWord(x * c);
    var k, one := SplitWord(c * d);
    Regroup(x, c, d, q, r, k, TWO_64);
    SameRemainder(r * d, q * d, x, x * k);
  }

  lemma InversePairs()
    ensures MULTIPLIER_1 * INVERSE_1 % TWO_64 == 1 && MULTIPLIER_2 * INVERSE_2 % TWO_64 == 1
    ensures INVERSE_1 * MULTIPLIER_1 % TWO_64 == 1 && INVERSE_2 * MULTIPLIER_2 % TWO_64 == 1
  {
  }

  lemma MixUndone(x: Word)
    ensures Unmix(Mix(x)) == x && Mix(Unmix(x)) == x
  {
    hide XorShift, Times;
    InversePairs();
    var a := XorShift(x);
    var b := Times(a, MULTIPLIER_1);
    var c := XorShift(b);
    var d := Times(c, MULTIPLIER_2);
    XorShiftUndone(d);
    TimesUndone(c, MULTIPLIER_2, INVERSE_2);
    XorShiftUndone(b);
    TimesUndone(a, MULTIPLIER_1, INVERSE_1);
    XorShiftUndone(x);
    var b' := Times(a, INVERSE_2);
    var c' := XorShift(b');
    var d' := Times(c', INVERSE_1);
    XorShiftUndone(d');
    TimesUndone(c', INVERSE_1, MULTIPLIER_1);
    XorShiftUndone(b');
    TimesUndone(a, INVERSE_2, MULTIPLIER_2);
  }

  /** Distinct ids never share a hash, and every 64-bit word is the hash of some id. */
  lemma HashIsABijection(id1: int, id2: int, h: Word)
    requires IsInt64(id1) && IsInt64(id2)
    ensures HashID(id1) == HashID(id2) ==> id1 == id2
    ensures exists id :: IsInt64(id) && HashID(id) == h
  {
    MixUndone(ToWord(id1));
    MixUndone(ToWord(id2));
    MixUndone(h);
    var w := Unmix(h);
    var id := if w < TWO_63 then w else w - TWO_64;
    assert IsInt64(id) && ToWord(id) == w;
  }

  // ---------- the pattern ----------

  /** `(hash >> idx) & 1 == 1` */
  predicate BitAt(hash: Word, idx: nat) {
    ShiftRight(hash, idx) % 2 == 1
  }

  /** Cell x of a row has been drawn once the columns below `done` have: its own, or its mirror image's. */
  predicate Drawn(grid: nat, done: nat, x: nat)
    requires x < grid
  {
    x < done || grid - 1 - x < done
  }

  /** The column whose bit cell x shows then: the later of its own and its mirror image's. */
  function Writer(grid: nat, done: nat, x: nat): nat
    requires x < grid
  {
    var mirror := grid - 1 - x;
    if x < done && (done <= mirror || mirror <= x) then x else mirror
  }

  /** What cell (y, x) of the pattern shows. */
  predicate Cell(hash: Word, grid: nat, y: nat, x: nat)
    requires x < grid
  {
    BitAt(hash, y * (grid / 2 + 1) + Writer(grid, grid / 2 + 1, x))
  }

  /** The pattern is left-right symmetric, whatever the grid size; the left half shows the hash's bits, and every cell is drawn. */
  lemma PatternSymmetric(hash: Word, grid: nat, y: nat, x: nat)
    requires x < grid
    ensures Cell(hash, grid, y, x) == Cell(hash, grid, y, grid - 1 - x)
    ensures Drawn(grid, grid / 2 + 1, x)
    ensures x < grid / 2 && grid % 2 == 1 ==> Cell(hash, grid, y, x) == BitAt(hash, y * (grid / 2 + 1) + x)
    ensures var near := if x < grid - 1 - x then x else grid - 1 - x;
      var column := if grid % 2 == 0 && near == grid / 2 - 1 then grid / 2 else near;
      Cell(hash, grid, y, x) <==> Bit(hash, y * (grid / 2 + 1) + column) == 1
  {
    forall i: nat ensures BitAt(hash, i) <==> Bit(hash, i) == 1 { ShiftDivides(hash, i); }
    hide BitAt, Bit;
    assert Writer(grid, grid / 2 + 1, x) == Writer(grid, grid / 2 + 1, grid - 1 - x);
  }

  method DrawRow(pattern: array2<bool>, y: nat, hash: Word)
    requires y < pattern.Length0 && pattern.Length1 > 0
    modifies pattern
    ensures forall x :: 0 <= x < pattern.Length1 ==> pattern[y, x] == Cell(hash, pattern.Length1, y, x)
    ensures forall z, x :: 0 <= z < pattern.Length0 && z != y && 0 <= x < pattern.Length1 ==> pattern[z, x] == old(pattern[z, x])
  {
    hide BitAt;
    var grid := pattern.Length1;
    var mid := grid / 2;
    var base := y * (mid + 1);
    for dx := 0 to mid + 1
      invariant forall x :: 0 <= x < grid && Drawn(grid, dx, x) ==> pattern[y, x] == BitAt(hash, base + Writer(grid, dx, x))
      invariant forall z, x :: 0 <= z < pattern.Length0 && z != y && 0 <= x < grid ==> pattern[z, x] == old(pattern[z, x])
    {
      pattern[y, dx] := BitAt(hash, base + dx);
      var mirrorX := grid - 1 - dx;
      if mirrorX != dx {
        pattern[y, mirrorX] := pattern[y, dx];
      }
    }
  }

  method GeneratePattern(id: int, grid: nat) returns (pattern: array2<bool>)
    requires IsInt64(id)
    ensures pattern.Length0 == grid && pattern.Length1 == grid
    ensures forall y, x :: 0 <= y < grid && 0 <= x < grid ==> pattern[y, x] == Cell(HashID(id), grid, y, x)
  {
    hide HashID, Cell;
    pattern := new bool[grid, grid];
    var hash := HashID(id);
    for y := 0 to grid
      invariant forall z, x :: 0 <= z < y && 0 <= x < grid ==> pattern[z, x] == Cell(hash, grid, z, x)
    {
      DrawRow(pattern, y, hash);
    }
  }
}
