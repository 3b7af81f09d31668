/** The 32-bit line codes that replace error constants in deployed contracts. */
module LineCode {

  const TWO_31: int := 0x8000_0000
  const TWO_32: int := 0x1_0000_0000

  /** A UTF-16 code unit, as `charCodeAt` returns it. */
  type CodeUnit = u: int | 0 <= u < 0x1_0000

  /** What `<< 0`, and the left operand of any JavaScript shift, does to a number: wrap to 32 bits, signed. */
  function ToInt32(x: int): (r: int)
    ensures -TWO_31 <= r < TWO_31 && (x - r) % TWO_32 == 0
  {
    (x + TWO_31) % TWO_32 - TWO_31
  }

  /** The exact polynomial in base 31, with no wrapping. */
  function Poly(s: seq<CodeUnit>): nat {
    if s == [] then 0 else 31 * Poly(s[..|s| - 1]) + s[|s| - 1]
  }

  lemma {:induction false} WrapStep(hash: int, exact: int, c: int)
    requires (exact - hash) % TWO_32 == 0
    ensures (31 * exact + c - ToInt32(ToInt32(hash * 32) - hash + c)) % TWO_32 == 0
  {
    var q := (exact - hash) / TWO_32;
    var a := (hash * 32 - ToInt32(hash * 32)) / TWO_32;
    var inner := ToInt32(hash * 32) - hash + c;
    var b := (inner - ToInt32(inner)) / TWO_32;
    assert 31 * exact + c - ToInt32(inner) == TWO_32 * (31 * q + a + b);
  }

  /** The loop of hashCode computes the polynomial modulo 2^32, shifted by 2^31. */
  method HashCode(str: seq<CodeUnit>) returns (code: int)
    ensures 0 <= code < TWO_32
    ensures code == (Poly(str) + TWO_31) % TWO_32
  {
    var hash, i := 0, 0;
    while i < |str|
      invariant 0 <= i <= |str|
      invariant -TWO_31 <= hash < TWO_31
      invariant (Poly(str[..i]) - hash) % TWO_32 == 0
    {
      WrapStep(hash, Poly(str[..i]), str[i]);
      assert str[..i + 1][..i] == str[..i];
      hash := ToInt32(ToInt32(hash * 32) - hash + str[i]);
      i := i + 1;
    }
    assert str[..i] == str;
    code := hash + 2147483647 + 1;
  }

  // ---------- codes of the lines of one contract ----------

  function Decimal(n: nat): (d: seq<CodeUnit>)
    ensures |d| >= 1
  {
    if n < 10 then [48 + n] else Decimal(n / 10) + [48 + n % 10]
  }

  /** `<name>.clar:`. */
  function Prefix(name: seq<CodeUnit>): seq<CodeUnit> {
    name + [46, 99, 108, 97, 114, 58]
  }

  /** The location `<name>.clar:<line>` that is hashed. */
  function Location(name: seq<CodeUnit>, line: nat): seq<CodeUnit> {
    Prefix(name) + Decimal(line)
  }

  function Pow31(n: nat): nat {
    if n == 0 then 1 else 31 * Pow31(n - 1)
  }

  lemma {:induction false} PolyConcat(p: seq<CodeUnit>, d: seq<CodeUnit>)
    ensures Poly(p + d) == Poly(p) * Pow31(|d|) + Poly(d)
    decreases |d|
  {
    if d == [] {
      assert p + d == p;
    } else {
      var n := |d| - 1;
      assert (p + d)[..|p| + n] == p + d[..n];
      PolyConcat(p, d[..n]);
      Distribute(Poly(p), Pow31(n));
    }
  }

  lemma Distribute(p: int, q: int)
    ensures p * (31 * q) == 31 * (p * q)
  {
  }

  lemma {:induction false} DecimalInjective(m: nat, n: nat)
    requires |Decimal(m)| == |Decimal(n)| && Poly(Decimal(m)) == Poly(Decimal(n))
    ensures m == n
  {
    PolyDecimal(m);
    PolyDecimal(n);
    if m >= 10 && n >= 10 {
      DecimalInjective(m / 10, n / 10);
    }
  }

  lemma PolyDecimal(n: nat)
    ensures n < 10 ==> |Decimal(n)| == 1 && Poly(Decimal(n)) == 48 + n
    ensures n >= 10 ==> |Decimal(n)| == |Decimal(n / 10)| + 1 > 1
    ensures n >= 10 ==> Poly(Decimal(n)) == 31 * Poly(Decimal(n / 10)) + 48 + n % 10
  {
    if n < 10 {
      assert Poly([]) == 0;
      assert Decimal(n)[..0] == [];
    } else {
      assert Decimal(n)[..|Decimal(n)| - 1] == Decimal(n / 10);
    }
  }

  /** 1 + 31 + ... + 31^(k-1). */
  function Repunit(k: nat): nat {
    if k == 0 then 0 else 31 * Repunit(k - 1) + 1
  }

  lemma {:induction false} PolyDecimalBounds(n: nat)
    ensures 48 * Repunit(|Decimal(n)|) <= Poly(Decimal(n)) <= 57 * Repunit(|Decimal(n)|)
  {
    PolyDecimal(n);
    assert Repunit(1) == 1;
    if n >= 10 {
      PolyDecimalBounds(n / 10);
    }
  }

  lemma {:induction false} RepunitBound(k: nat)
    requires k <= 6
    ensures Repunit(k) <= 29583456
  {
    assert Repunit(1) == 1 && Repunit(2) == 32;
    assert Repunit(3) == 993 && Repunit(4) == 30784;
    assert Repunit(5) == 954305 && Repunit(6) == 29583456;
  }

  function CodeOf(name: seq<CodeUnit>, line: nat): int {
    (Poly(Location(name, line)) + TWO_31) % TWO_32
  }

  /** How far apart the exact polynomials of two lines are, from the prefix's polynomial `p` and the decimals. */
  function Gap(p: int, a: nat, b: nat): int {
    var d, e := Decimal(a), Decimal(b);
    p * (Pow31(|d|) - Pow31(|e|)) + Poly(d) - Poly(e)
  }

  /** Exactly when two lines of one contract share a code: 2^32 divides their gap. */
  lemma LineCodesCollideExactly(name: seq<CodeUnit>, a: nat, b: nat)
    ensures CodeOf(name, a) == CodeOf(name, b) <==> Gap(Poly(Prefix(name)), a, b) % TWO_32 == 0
  {
    hide Poly, Pow31;
    var p, d, e := Poly(Prefix(name)), Decimal(a), Decimal(b);
    PolyConcat(Prefix(name), d);
    PolyConcat(Prefix(name), e);
    assert p * (Pow31(|d|) - Pow31(|e|)) == p * Pow31(|d|) - p * Pow31(|e|);
    SameResidue(Poly(Location(name, a)), Poly(Location(name, b)));
  }

  lemma SameResidue(x: int, y: int)
    ensures (x + TWO_31) % TWO_32 == (y + TWO_31) % TWO_32 <==> (x - y) % TWO_32 == 0
  {
  }

  /** Two different lines of one contract whose numbers have equally many digits, at most six, never get
      the same code. */
  lemma LineCodesDistinct(name: seq<CodeUnit>, a: nat, b: nat)
    requires a != b && |Decimal(a)| == |Decimal(b)| <= 6
    ensures CodeOf(name, a) != CodeOf(name, b)
  {
    hide Poly, CodeOf, Decimal, Gap, Repunit;
    var d, e: int := Poly(Decimal(a)), Poly(Decimal(b));
    LineCodesCollideExactly(name, a, b);
    SameDigits(Poly(Prefix(name)), a, b);
    PolyDecimalBounds(a);
    PolyDecimalBounds(b);
    RepunitBound(|Decimal(a)|);
    if d == e {
      DecimalInjective(a, b);
    }
    assert 0 != d - e && -TWO_32 < d - e < TWO_32;
    NoWrap(d - e);
  }

  lemma SameDigits(p: int, a: nat, b: nat)
    requires |Decimal(a)| == |Decimal(b)|
    ensures Gap(p, a, b) == Poly(Decimal(a)) - Poly(Decimal(b))
  {
    hide Poly, Decimal;
  }

  lemma NoWrap(x: int)
    requires x != 0 && -TWO_32 < x < TWO_32
    ensures x % TWO_32 != 0
  {
  }

  function DigitSum(n: nat): nat {
    if n < 10 then n else DigitSum(n / 10) + n % 10
  }

  lemma {:induction false} PolyParity(n: nat)
    ensures Poly(Decimal(n)) % 2 == DigitSum(n) % 2
  {
    hide Poly, Decimal;
    PolyDecimal(n);
    if n >= 10 {
      PolyParity(n / 10);
      DigitParity(Poly(Decimal(n / 10)), DigitSum(n / 10), n % 10);
    }
  }

  lemma DigitParity(x: nat, y: nat, c: nat)
    requires x % 2 == y % 2
    ensures (31 * x + 48 + c) % 2 == (y + c) % 2
  {
  }

  lemma {:induction false} Pow31Odd(n: nat)
    ensures Pow31(n) % 2 == 1
  {
    if n > 0 {
      Pow31Odd(n - 1);
    }
  }

  /** Lines whose digit sums differ in parity, such as 99 and 100, get different codes under every name, whatever
      their digit counts. */
  lemma OddDigitsDistinct(name: seq<CodeUnit>, a: nat, b: nat)
    requires DigitSum(a) % 2 != DigitSum(b) % 2
    ensures CodeOf(name, a) != CodeOf(name, b)
  {
    hide Poly, Pow31, CodeOf, DigitSum, Decimal;
    var p, m, n: int := Poly(Prefix(name)), Pow31(|Decimal(a)|), Pow31(|Decimal(b)|);
    LineCodesCollideExactly(name, a, b);
    PolyParity(a);
    PolyParity(b);
    Pow31Odd(|Decimal(a)|);
    Pow31Odd(|Decimal(b)|);
    GapParity(p, m, n, Poly(Decimal(a)), Poly(Decimal(b)));
    EvenMultiple(Gap(p, a, b));
  }

  lemma GapParity(p: int, m: int, n: int, x: int, y: int)
    requires m % 2 == n % 2 == 1 && x % 2 != y % 2
    ensures (p * (m - n) + x - y) % 2 == 1
  {
    var half := m / 2 - n / 2;
    Scale(p, half);
    assert m - n == 2 * half;
    EvenShift(p * half, x - y);
  }

  lemma Scale(p: int, half: int)
    ensures p * (2 * half) == 2 * (p * half)
  {
  }

  lemma EvenShift(k: int, z: int)
    ensures (2 * k + z) % 2 == z % 2
  {
  }

  lemma EvenMultiple(x: int)
    ensures x % TWO_32 == 0 ==> x % 2 == 0
  {
    var q := x / TWO_32;
    assert x == TWO_32 * q + x % TWO_32;
    assert TWO_32 * q == 2 * (TWO_31 * q);
    EvenShift(TWO_31 * q, x % TWO_32);
  }

  lemma PolyEmpty()
    ensures Poly([]) == 0
  {
  }

  lemma PolySnoc(s: seq<CodeUnit>, c: CodeUnit)
    ensures Poly(s + [c]) == 31 * Poly(s) + c
  {
    assert (s + [c])[..|s|] == s;
  }

  lemma PolySnoc2(s: seq<CodeUnit>, c: CodeUnit, d: CodeUnit)
    ensures Poly(s + [c, d]) == 961 * Poly(s) + 31 * c + d
  {
    PolySnoc(s, c);
    PolySnoc(s + [c], d);
    assert s + [c, d] == s + [c] + [d];
  }

  const TPEM: seq<CodeUnit> := [116, 112, 101, 109]

  lemma TpemPrefix()
    ensures Poly(Prefix(TPEM)) == 3165396890441430
  {
    hide Poly;
    PolyEmpty();
    PolySnoc2([], 116, 112);
    PolySnoc2([116, 112], 101, 109);
    PolySnoc2(TPEM, 46, 99);
    PolySnoc2(TPEM + [46, 99], 108, 97);
    PolySnoc2(TPEM + [46, 99, 108, 97], 114, 58);
    assert [] + [116, 112] == [116, 112] && [116, 112] + [101, 109] == TPEM;
    assert TPEM + [46, 99] + [108, 97] == TPEM + [46, 99, 108, 97];
    assert TPEM + [46, 99, 108, 97] + [114, 58] == TPEM + [46, 99, 108, 97, 114, 58];
  }

  /** Lines of different digit counts can collide: lines 11 and 590 of a contract named "tpem" share a code. */
  lemma LineCodesCanCollide()
    ensures CodeOf(TPEM, 11) == CodeOf(TPEM, 590)
  {
    hide Poly, CodeOf;
    LineCodesCollideExactly(TPEM, 11, 590);
    TpemPrefix();
    PolyDecimal(1);
    PolyDecimal(11);
    PolyDecimal(5);
    PolyDecimal(59);
    PolyDecimal(590);
    assert Pow31(1) == 31 && Pow31(2) == 961 && Pow31(3) == 29791;
    assert Gap(3165396890441430, 11, 590) % TWO_32 == 0;
  }
}
