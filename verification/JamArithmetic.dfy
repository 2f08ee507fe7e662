/** Integer arithmetic of Jam expressions: exponentiation, square root, and LOG2, SQRT and
    CEIL of SQRT, all in 32-bit signed integers. */
module JamArithmetic {
  import opened Bits

  datatype Result = Value(val: int) | IntegerOverflow

  predicate Fits(n: int) { -0x8000_0000 <= n < 0x8000_0000 }

  /** What a 32-bit integer holds after `n` is stored in it. */
  function Wrap(n: int): (r: int)
    ensures Fits(r) && (Fits(n) ==> r == n)
  {
    (n + 0x8000_0000) % 0x1_0000_0000 - 0x8000_0000
  }

  // ----- powers -----

  function Power(x: int, y: nat): int {
    if y == 0 then 1 else Times(x, Power(x, y - 1))
  }

  function Times(a: int, b: int): int { a * b }

  function Abs(n: int): nat { if n < 0 then -n else n }

  lemma TimesLaws(a: int, b: int, c: int)
    ensures Times(a, b) == Times(b, a)
    ensures Times(a, Times(b, c)) == Times(Times(a, b), c)
    ensures Times(1, a) == a
  {
    assert a * (b * c) == a * b * c;
  }

  lemma {:induction false} PowerSum(x: int, a: nat, b: nat)
    ensures Power(x, a + b) == Times(Power(x, a), Power(x, b))
  {
    hide Times;
    if a == 0 {
      TimesLaws(Power(x, b), 0, 0);
    } else {
      PowerSum(x, a - 1, b);
      TimesLaws(x, Power(x, a - 1), Power(x, b));
    }
  }

  /** Products of wrapped numbers wrap to the wrapped product. */
  lemma WrapTimes(a: int, b: int)
    ensures Wrap(Times(Wrap(a), Wrap(b))) == Wrap(Times(a, b))
  {
    WrapOff(a);
    WrapOff(b);
    var k := (a - Wrap(a)) / 0x1_0000_0000;
    var l := (b - Wrap(b)) / 0x1_0000_0000;
    var a', b' := Wrap(a), Wrap(b);
    var M := 0x1_0000_0000;
    assert a == a' + M * k && b == b' + M * l;
    Expand(a', b', k, l);
    WrapShift(a' * b', k * b' + l * a' + M * (k * l));
  }

  lemma WrapOff(a: int)
    ensures (a - Wrap(a)) % 0x1_0000_0000 == 0
  {}

  lemma WrapShift(n: int, k: int)
    ensures Wrap(n + 0x1_0000_0000 * k) == Wrap(n)
  {}

  lemma Expand(a: int, b: int, k: int, l: int)
    ensures (a + 0x1_0000_0000 * k) * (b + 0x1_0000_0000 * l)
         == a * b + 0x1_0000_0000 * (k * b + l * a + 0x1_0000_0000 * (k * l))
  {
    var M := 0x1_0000_0000;
    Distribute(a, M * k, b + M * l);
    Distribute(b, M * l, a);
    Distribute(b, M * l, M * k);
    assert M * k * b == M * (k * b);
    assert M * l * a == M * (l * a);
    assert M * l * (M * k) == M * (M * (k * l)) by {
      assert l * (M * k) == M * (k * l);
    }
  }

  lemma Distribute(a: int, b: int, c: int)
    ensures (a + b) * c == a * c + b * c
  {}

  /** A smaller power of the same number fits where a larger one does. */
  lemma SmallerPowerFits(x: int, j: nat, y: nat)
    requires j <= y && Fits(Power(x, y))
    ensures Fits(Power(x, j))
  {
    hide Times;
    if Abs(x) <= 1 {
      SmallPower(x, j);
    } else if j < y {
      PowerSum(x, j, y - j);
      LargePower(x, y - j);
      TimesGrows(Power(x, j), Power(x, y - j));
    }
  }

  lemma {:induction false} SmallPower(x: int, j: nat)
    requires Abs(x) <= 1
    ensures Abs(Power(x, j)) <= 1
  {
    if j > 0 {
      SmallPower(x, j - 1);
    }
  }

  lemma {:induction false} LargePower(x: int, j: nat)
    requires Abs(x) >= 2 && j >= 1
    ensures Abs(Power(x, j)) >= 2
  {
    hide Times;
    if j == 1 {
      assert Power(x, 0) == 1;
      TimesLaws(x, 1, 0);
      TimesLaws(1, x, 0);
    } else {
      LargePower(x, j - 1);
      TimesGrows(x, Power(x, j - 1));
    }
  }

  lemma TimesGrows(a: int, b: int)
    requires Abs(b) >= 2
    ensures Abs(Times(a, b)) >= 2 * Abs(a)
  {
    if a >= 0 && b >= 0 { assert a * b == a * (b - 2) + 2 * a; assert a * (b - 2) >= 0; }
    if a >= 0 && b < 0 { assert a * b == -(a * (-b - 2) + 2 * a); assert a * (-b - 2) >= 0; }
    if a < 0 && b >= 0 { assert a * b == -((-a) * (b - 2) + 2 * (-a)); assert (-a) * (b - 2) >= 0; }
    if a < 0 && b < 0 { assert a * b == (-a) * (-b - 2) + 2 * (-a); assert (-a) * (-b - 2) >= 0; }
  }

  /** `jam_exponentiate`.  The result is `x` to the `y` modulo 2^32; `exact` says that no product
      overflowed on the way, which is so if and only if the power itself fits. */
  method Exponentiate(x: int, y: int) returns (retval: int, ghost exact: bool)
    requires Fits(x) && Fits(y)
    ensures retval == if y < 0 then 1 else Wrap(Power(x, y))
    ensures -0x8000_0000 <= retval < 0x8000_0000 && (y >= 0 ==> (Power(x, y) - retval) % 0x1_0000_0000 == 0)
    ensures exact <==> y < 0 || Fits(Power(x, y))
  {
    hide Wrap, Times, Power;
    retval, exact := 1, true;
    var partial, exponent := x, y;
    ghost var j: nat, p: nat := 0, 1;
    PowerStart(x);
    if y < 0 {
      return;
    }
    while exponent > 0
      invariant exponent >= 0 && Times(p, exponent) + j == y
      invariant retval == Wrap(Power(x, j)) && partial == Wrap(Power(x, p))
      invariant Fits(Power(x, y)) ==> exact
      invariant exact ==> retval == Power(x, j) && (exponent > 0 ==> partial == Power(x, p))
    {
      ghost var start := exponent;
      while exponent % 2 == 0 && exponent != 0
        invariant 0 < exponent <= start && Times(p, exponent) + j == y
        invariant retval == Wrap(Power(x, j)) && partial == Wrap(Power(x, p))
        invariant Fits(Power(x, y)) ==> exact
        invariant exact ==> retval == Power(x, j) && partial == Power(x, p)
      {
        Squared(x, y, p, exponent, j);
        exact := exact && Fits(Times(partial, partial));
        partial := Wrap(Times(partial, partial));
        exponent := exponent / 2;
        p := 2 * p;
      }
      Multiplied(x, y, p, exponent, j);
      exact := exact && Fits(Times(retval, partial));
      exponent := exponent - 1;
      retval := Wrap(Times(retval, partial));
      j := j + p;
    }
    TimesZero(p);
    WrapOff(Power(x, y));
  }

  lemma TimesZero(p: int)
    ensures Times(p, 0) == 0
  {}

  lemma PowerStart(x: int)
    ensures Power(x, 0) == 1 == Wrap(1) && Power(x, 1) == x
    ensures Fits(x) ==> Wrap(x) == x
    ensures forall y :: Times(1, y) == y
  {}

  lemma HalfExponent(p: nat, exponent: nat)
    requires exponent % 2 == 0 && exponent > 0
    ensures Times(2 * p, exponent / 2) == Times(p, exponent) >= 2 * p
  {
    var e := exponent / 2;
    assert exponent == 2 * e;
    MulAssociates(p, 2, e);
    MulGrows(2 * p, e);
  }

  lemma Squared(x: int, y: nat, p: nat, exponent: nat, j: nat)
    requires exponent % 2 == 0 && exponent > 0 && Times(p, exponent) + j == y
    ensures Times(2 * p, exponent / 2) + j == y
    ensures Wrap(Times(Wrap(Power(x, p)), Wrap(Power(x, p)))) == Wrap(Power(x, 2 * p))
    ensures Times(Power(x, p), Power(x, p)) == Power(x, 2 * p)
    ensures Fits(Power(x, y)) ==> Fits(Power(x, 2 * p))
    ensures Fits(Power(x, 2 * p)) ==> Wrap(Power(x, 2 * p)) == Power(x, 2 * p)
  {
    hide Wrap, Power, Times;
    HalfExponent(p, exponent);
    PowerSum(x, p, p);
    WrapTimes(Power(x, p), Power(x, p));
    if Fits(Power(x, y)) {
      SmallerPowerFits(x, 2 * p, y);
    }
  }

  lemma Multiplied(x: int, y: nat, p: nat, exponent: nat, j: nat)
    requires exponent > 0 && Times(p, exponent) + j == y
    ensures Times(p, exponent - 1) + (j + p) == y
    ensures Wrap(Times(Wrap(Power(x, j)), Wrap(Power(x, p)))) == Wrap(Power(x, j + p))
    ensures Times(Power(x, j), Power(x, p)) == Power(x, j + p)
    ensures Fits(Power(x, y)) ==> Fits(Power(x, j + p))
    ensures Fits(Power(x, j + p)) ==> Wrap(Power(x, j + p)) == Power(x, j + p)
  {
    hide Wrap, Power;
    assert p * exponent == p * (exponent - 1) + p;
    assert p * (exponent - 1) >= 0;
    PowerSum(x, j, p);
    WrapTimes(Power(x, j), Power(x, p));
    if Fits(Power(x, y)) {
      SmallerPowerFits(x, j + p, y);
    }
  }

  // ----- square roots -----

  predicate IsRoot(n: int, r: int) { r >= 0 && Times(r, r) <= n < Times(r + 1, r + 1) }

  lemma RootIs(n: int, r: int)
    ensures IsRoot(n, r) <==> 0 <= r && r * r <= n < (r + 1) * (r + 1)
  {}

  lemma {:induction false} WithBitAdds(n: nat, k: nat)
    requires n % Pow2(k + 1) == 0
    ensures WithBit(n, k, true) == n + Pow2(k)
  {
    if k > 0 {
      HalfOfMultiple(n, Pow2(k));
      WithBitAdds(n / 2, k - 1);
    }
  }

  lemma HalfOfMultiple(n: nat, d: nat)
    requires d > 0 && n % (2 * d) == 0
    ensures n % 2 == 0 && n / 2 % d == 0
  {
    var q := n / (2 * d);
    assert n == q * (2 * d);
    MulAssociates(q, 2, d);
    MulAssociates(2, q, d);
    assert n == 2 * (q * d);
    QuotientUnique(n / 2, d, q, 0);
  }

  lemma {:induction false} WithBitGrows(n: nat, k: nat)
    ensures WithBit(n, k, true) >= n
  {
    if k > 0 {
      WithBitGrows(n / 2, k - 1);
    }
  }

  lemma SquareOfSum(s: int, a: int)
    ensures Times(s + a, s + a) == Times(a, a) + Times(s, 2 * a) + Times(s, s)
  {
    Distribute(s, a, s + a);
    assert s * (2 * a) == s * a + s * a;
    assert (s + a) * (s + a) == s * (s + a) + a * (s + a);
    assert s * (s + a) == s * s + s * a;
    assert a * (s + a) == a * s + a * a;
  }

  lemma HalfMultiple(s: nat, a: nat)
    requires a > 0 && s % (2 * a) == 0
    ensures s % a == 0 && (s + a) % a == 0
  {
    var q := s / (2 * a);
    assert s == q * (2 * a) == 2 * q * a;
    QuotientUnique(s, a, 2 * q, 0);
    Distribute(2 * q, 1, a);
    QuotientUnique(s + a, a, 2 * q + 1, 0);
  }

  /** The next bit of a root: `sqrt` has the bits above `order`, and one of the two successors
      keeps the bracket. */
  lemma NextBit(s: nat, order: nat)
    requires s % Pow2(order + 1) == 0
    ensures Times(s + Pow2(order), s + Pow2(order)) == Pow2(2 * order) + Times(s, Pow2(order + 1)) + Times(s, s)
    ensures s % Pow2(order) == 0 && (s + Pow2(order)) % Pow2(order) == 0
    ensures s + Pow2(order) + Pow2(order) == s + Pow2(order + 1)
  {
    hide Times;
    assert Times(Pow2(order), Pow2(order)) == Pow2(2 * order) by {
      Pow2Square(order);
    }
    SquareOfSum(s, Pow2(order));
    HalfMultiple(s, Pow2(order));
  }

  lemma Pow2Square(k: nat)
    ensures Times(Pow2(k), Pow2(k)) == Pow2(2 * k)
  {
    hide Pow2;
    Pow2Sum(k, k);
    assert k + k == 2 * k;
  }

  /** No term of the sum overflows while the number is below 2^30. */
  lemma TermsFit(n: int, s: nat, order: nat)
    requires 0 <= n < 0x4000_0000 && order <= 15
    requires s % Pow2(order + 1) == 0 && Times(s, s) <= n
    ensures Fits(Pow2(2 * order)) && Fits(Times(s, Pow2(order + 1)))
    ensures Fits(Pow2(2 * order) + Times(s, Pow2(order + 1)) + Times(s, s))
  {
    hide Pow2, Times;
    Pow2Constants();
    Pow2Sum(15, 15);
    Pow2Sum(14, 14);
    if s > 0 {
      LargeSquare(s);
      SmallMultiple(s, Pow2(order + 1));
      if order >= 14 {
        Pow2Monotone(15, order + 1);
      }
      Pow2Monotone(order + 1, 14);
      Pow2Monotone(2 * order, 28);
      Product(s, Pow2(order + 1));
    } else {
      Pow2Monotone(2 * order, 30);
      Product(0, Pow2(order + 1));
    }
  }

  lemma Product(s: nat, p: nat)
    ensures s == 0 ==> Times(s, p) == 0 == Times(s, s)
    ensures s < 0x8000 && p <= 0x4000 ==> 0 <= Times(s, p) < 0x2000_0000
    ensures Times(s, s) >= 0
  {
    if s < 0x8000 && p <= 0x4000 {
      Monotone(s, 0x8000, p);
      assert s * p >= 0;
    }
  }

  lemma LargeSquare(s: nat)
    ensures s >= 0x8000 ==> Times(s, s) >= 0x4000_0000
  {
    if s >= 0x8000 {
      assert s * s >= 0x8000 * s;
    }
  }

  lemma SmallMultiple(s: nat, m: nat)
    requires s > 0 && m > 0 && s % m == 0
    ensures s >= m
  {
    if s < m {
      QuotientUnique(s, m, 0, s);
    }
  }

  /** The number of base-4 digits. */
  method Digits(num: int) returns (order: nat)
    requires Fits(num)
    ensures num <= 0 ==> order == 0
    ensures num > 0 ==> order >= 1 && Pow2(2 * (order - 1)) <= num < Pow2(2 * order)
  {
    var sqrt := if num < 0 then 0 else num;
    order := 0;
    assert Pow2(0) == 1;
    while sqrt > 0
      invariant sqrt >= 0 && (num <= 0 ==> order == 0 && sqrt == 0)
      invariant num > 0 ==> Times(sqrt, Pow2(2 * order)) <= num < Times(sqrt + 1, Pow2(2 * order))
      invariant num > 0 && sqrt == 0 ==> order >= 1 && Pow2(2 * (order - 1)) <= num
    {
      assert Pow2(2 * order + 2) == 4 * Pow2(2 * order);
      Quartered(sqrt, Pow2(2 * order), num);
      sqrt := sqrt / 4;
      order := order + 1;
    }
  }

  lemma Quartered(s: int, p: nat, n: int)
    requires s > 0 && p > 0 && Times(s, p) <= n < Times(s + 1, p)
    ensures Times(s / 4, 4 * p) <= n < Times(s / 4 + 1, 4 * p)
    ensures p <= n
  {
    var q := s / 4;
    assert q * (4 * p) == 4 * q * p;
    assert (q + 1) * (4 * p) == (4 * q + 4) * p;
    assert 4 * q <= s && s + 1 <= 4 * q + 4;
    Monotone(4 * q, s, p);
    Monotone(s + 1, 4 * q + 4, p);
    Monotone(1, s, p);
  }

  lemma Monotone(a: int, b: int, p: nat)
    requires a <= b
    ensures Times(a, p) <= Times(b, p)
  {
    assert b * p - a * p == (b - a) * p;
    assert (b - a) * p >= 0;
  }

  /** `jam_square_root`: the integer root below 2^30; from there on the first square tried is
      1 << 32, which does not fit, and the result is far too large. */
  method SquareRoot(num: int) returns (sqrt: nat)
    requires Fits(num)
    ensures num >= 0 ==> (IsRoot(num, sqrt) <==> num < 0x4000_0000)
    ensures num >= 0x4000_0000 ==> sqrt >= 0x1_0000
    ensures num < 0 ==> sqrt == 0
  {
    hide Times, Wrap, WithBit;
    var order: int := Digits(num);
    Orders(num, order);
    sqrt := 0;
    ghost var top := order;
    var b: int := 0;
    var a, two_ab, square;
    while order >= 0
      invariant -1 <= order <= top
      invariant num < 0 ==> order <= 0 && sqrt == 0 && b == 0
      invariant num >= 0x4000_0000 && order < 16 ==> sqrt >= 0x1_0000
      invariant num >= 0x4000_0000 && order == 16 ==> sqrt == 0 && b == 0
      invariant 0 <= num < 0x4000_0000 ==> Bracket(num, sqrt, order + 1) && b == Times(sqrt, sqrt)
    {
      a := Wrap(Pow2(2 * order));
      two_ab := Wrap(Times(sqrt, Pow2(order + 1)));
      square := Wrap(a + two_ab + b);
      if 0 <= num < 0x4000_0000 {
        BracketNext(num, sqrt, order);
      } else if num >= 0x4000_0000 {
        FirstSquare(sqrt, order);
        WithBitGrows(sqrt, order);
      } else {
        NegativeSquare();
      }
      if square <= num {
        sqrt := WithBit(sqrt, order, true);
        b := square;
      }
      order := order - 1;
    }
    RootAtEnd(num, sqrt);
  }

  /** The bits of the root from `k` up are found. */
  predicate Bracket(n: int, s: nat, k: nat) {
    s % Pow2(k) == 0 && Times(s, s) <= n < Times(s + Pow2(k), s + Pow2(k))
  }

  lemma Orders(num: int, order: nat)
    requires Fits(num) && (num <= 0 ==> order == 0)
    requires num > 0 ==> order >= 1 && Pow2(2 * (order - 1)) <= num < Pow2(2 * order)
    ensures 0 <= num < 0x4000_0000 ==> order <= 15 && Bracket(num, 0, order + 1)
    ensures num >= 0x4000_0000 ==> order == 16
    ensures Times(0, 0) == 0
  {
    Pow2Constants();
    Pow2Sum(15, 15);
    Pow2Sum(16, 16);
    if num > 0 {
      if order >= 17 {
        Pow2Monotone(32, 2 * (order - 1));
      }
      if order <= 15 {
        Pow2Monotone(2 * order, 30);
      } else if order == 16 {
        Pow2Monotone(30, 2 * (order - 1));
      }
      Pow2Monotone(2 * order, 2 * (order + 1));
    }
    Pow2Square(order + 1);
    assert Times(0, 0) == 0;
  }

  lemma BracketNext(n: int, s: nat, order: nat)
    requires 0 <= n < 0x4000_0000 && order <= 15 && Bracket(n, s, order + 1)
    ensures var square := Wrap(Wrap(Pow2(2 * order)) + Wrap(Times(s, Pow2(order + 1))) + Times(s, s));
            var t := WithBit(s, order, true);
            if square <= n then Bracket(n, t, order) && square == Times(t, t) else Bracket(n, s, order)
  {
    hide Times, WithBit, Pow2;
    NextBit(s, order);
    TermsFit(n, s, order);
    WithBitAdds(s, order);
  }

  /** The square that does not fit counts as zero, so bit 16 is set. */
  lemma FirstSquare(s: nat, order: nat)
    ensures order == 16 ==> Wrap(Wrap(Pow2(2 * order)) + Wrap(Times(0, Pow2(order + 1))) + 0) == 0
    ensures order == 16 ==> WithBit(0, order, true) == 0x1_0000
  {
    hide Pow2, WithBit;
    Pow2Constants();
    SmallMod(Pow2(17));
    WithBitAdds(0, 16);
    Product(0, Pow2(17));
  }

  lemma SmallMod(m: nat)
    requires m > 0
    ensures 0 % m == 0
  {}

  lemma NegativeSquare()
    ensures Wrap(Wrap(Pow2(2 * 0)) + Wrap(Times(0, Pow2(0 + 1))) + 0) == 1
  {}

  lemma RootAtEnd(num: int, sqrt: nat)
    requires 0 <= num < 0x4000_0000 ==> Bracket(num, sqrt, 0)
    requires 0x4000_0000 <= num ==> sqrt >= 0x1_0000
    requires Fits(num)
    ensures num >= 0 ==> (IsRoot(num, sqrt) <==> num < 0x4000_0000)
  {
    if num >= 0x4000_0000 {
      assert sqrt * sqrt >= 0x1_0000 * sqrt >= 0x1_0000_0000;
    }
  }

  // ----- the arms of the expression evaluator -----

  /** SQRT */
  method EvalSqrt(val: int) returns (r: Result)
    requires Fits(val)
    ensures r.IntegerOverflow? <==> val < 0
    ensures val >= 0 ==> (IsRoot(val, r.val) <==> val < 0x4000_0000)
    ensures 0 <= val < 0x4000_0000 ==> 0 <= r.val && r.val * r.val <= val < (r.val + 1) * (r.val + 1)
    ensures val >= 0x4000_0000 ==> r.val >= 0x1_0000
  {
    hide IsRoot;
    if val >= 0 {
      var root := SquareRoot(val);
      RootIs(val, root);
      r := Value(root);
    } else {
      r := IntegerOverflow;
    }
  }

  /** The least number whose square reaches `n`. */
  predicate IsCeilingRoot(n: int, r: int) { r >= 0 && n <= Times(r, r) && (r > 0 ==> Times(r - 1, r - 1) < n) }

  lemma CeilingIs(n: int, r: int)
    requires n > 0
    ensures IsCeilingRoot(n, r) <==> 0 < r && (r - 1) * (r - 1) < n <= r * r
  {}

  /** CEIL of SQRT */
  method EvalCeilSqrt(val: int) returns (r: Result)
    requires Fits(val)
    ensures r.IntegerOverflow? <==> val < 0
    ensures val >= 0 ==> (IsCeilingRoot(val, r.val) <==> val < 0x4000_0000)
    ensures 0 < val < 0x4000_0000 ==> 0 < r.val && (r.val - 1) * (r.val - 1) < val <= r.val * r.val
  {
    hide Wrap, IsRoot, IsCeilingRoot;
    r := EvalSqrt(val);
    if r.Value? {
      var root := r.val;
      CeilingStep(val, root);
      r := Value(if Wrap(Times(root, root)) < val then root + 1 else root);
      if val > 0 {
        CeilingIs(val, r.val);
      }
    }
  }

  lemma CeilingStep(n: int, r: int)
    requires 0 <= n && Fits(n)
    requires IsRoot(n, r) <==> n < 0x4000_0000
    requires n >= 0x4000_0000 ==> r >= 0x1_0000
    ensures n < 0x4000_0000 ==> IsCeilingRoot(n, if Wrap(Times(r, r)) < n then r + 1 else r)
    ensures n >= 0x4000_0000 ==> !IsCeilingRoot(n, r) && !IsCeilingRoot(n, r + 1)
  {
    if n < 0x4000_0000 {
      assert Fits(r * r) && Wrap(Times(r, r)) == r * r;
      if r > 0 {
        assert (r - 1) * (r - 1) == r * r - 2 * r + 1;
      }
    } else {
      assert (r - 1) * (r - 1) >= 0xFFFF * (r - 1) >= 0xFFFF * 0xFFFF;
      assert r * r >= 0x1_0000 * r;
    }
  }

  /** LOG2: the ceiling logarithm of every positive number. */
  method EvalLog2(val: int) returns (r: Result)
    requires Fits(val)
    ensures r.IntegerOverflow? <==> val <= 0
    ensures val > 0 ==> 0 <= r.val <= 31 && val <= Pow2(r.val) && (r.val > 0 ==> Pow2(r.val - 1) < val)
  {
    hide Wrap, Power, Times;
    if val <= 0 {
      return IntegerOverflow;
    }
    var tmp, log: nat := val, 0;
    assert Times(val, Pow2(0)) == val && Times(val + 1, Pow2(0)) == val + 1 by {
      One(val);
    }
    while tmp != 1
      invariant tmp >= 1 && Times(tmp, Pow2(log)) <= val < Times(tmp + 1, Pow2(log))
      decreases tmp
    {
      Halved(tmp, Pow2(log), val);
      tmp := tmp / 2;
      log := log + 1;
    }
    FloorLog(val, log);
    var power, exact := Exponentiate(2, log);
    if power != val {
      log := log + 1;
    }
    r := Value(log);
  }

  lemma One(n: int)
    ensures Times(n, Pow2(0)) == n && Times(n + 1, Pow2(0)) == n + 1
  {}

  lemma Halved(t: int, p: nat, n: int)
    requires t > 1 && p > 0 && Times(t, p) <= n < Times(t + 1, p)
    ensures Times(t / 2, 2 * p) <= n < Times(t / 2 + 1, 2 * p)
  {
    var q := t / 2;
    assert q * (2 * p) == 2 * q * p;
    assert (q + 1) * (2 * p) == (2 * q + 2) * p;
    Monotone(2 * q, t, p);
    Monotone(t + 1, 2 * q + 2, p);
  }

  lemma FloorLog(n: int, log: nat)
    requires 0 < n && Fits(n) && Times(1, Pow2(log)) <= n < Times(1 + 1, Pow2(log))
    ensures log <= 30 && Pow2(log) <= n < Pow2(log + 1)
    ensures Wrap(Power(2, log)) == Pow2(log)
    ensures log > 0 ==> Pow2(log - 1) < n
  {
    hide Wrap;
    Pow2Constants();
    Pow2Sum(15, 16);
    if log >= 31 {
      Pow2Monotone(31, log);
    }
    PowerOfTwo(log);
  }

  lemma {:induction false} PowerOfTwo(k: nat)
    ensures Power(2, k) == Pow2(k)
  {
    if k > 0 {
      PowerOfTwo(k - 1);
    }
  }
}
