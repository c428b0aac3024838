/** The Number values of the runtime and the arithmetic that the operators
    perform on them. A finite number is an exact real: IEEE rounding,
    overflow to infinity and the sign of zero are not part of this model. */
module Numbers {

  datatype Num = NaN | PosInf | NegInf | Fin(r: real)

  const Two16: int := 0x1_0000
  const Two31: int := 0x8000_0000
  const Two32: int := 0x1_0000_0000

  predicate IsInfinite(n: Num) { n.PosInf? || n.NegInf? }

  /** Host `a == b` on two float payloads: NaN is equal to nothing. */
  predicate NumEq(a: Num, b: Num) {
    !a.NaN? && !b.NaN? && a == b
  }

  /** Host `a < b` on two float payloads: false whenever NaN is involved. */
  predicate NumLess(a: Num, b: Num) {
    match (a, b)
    case (NaN, _) => false
    case (_, NaN) => false
    case (NegInf, _) => !b.NegInf?
    case (PosInf, _) => false
    case (Fin(x), NegInf) => false
    case (Fin(x), PosInf) => true
    case (Fin(x), Fin(y)) => x < y
  }

  /** Host truthiness `bool(x)` of a float payload: 0 is false, NaN is true. */
  predicate Truthy(n: Num) { n != Fin(0.0) }

  predicate IsPositive(n: Num) { n.PosInf? || (n.Fin? && n.r > 0.0) }
  predicate IsNegative(n: Num) { n.NegInf? || (n.Fin? && n.r < 0.0) }

  /** Host `-x` on a float payload, as `sign*float(s)` applies it: a
      finite number changes sign, the infinities swap, NaN stays NaN. */
  function Negate(n: Num): (m: Num)
    ensures NumEq(n, n) <==> NumEq(m, m)
    ensures IsPositive(n) <==> IsNegative(m)
    ensures IsNegative(n) <==> IsPositive(m)
    ensures n.Fin? ==> m == Fin(-n.r)
  {
    match n
    case NaN => NaN
    case PosInf => NegInf
    case NegInf => PosInf
    case Fin(x) => Fin(-x)
  }

  /** Negating twice gives the number back. */
  lemma NegateInvolution(n: Num)
    ensures Negate(Negate(n)) == n
  {
  }

  /** Host float addition `a + b`. */
  function NumAdd(a: Num, b: Num): (r: Num)
    ensures r.NaN? <==> a.NaN? || b.NaN? || (IsInfinite(a) && IsInfinite(b) && a != b)
    ensures r.Fin? <==> a.Fin? && b.Fin?
  {
    match (a, b)
    case (NaN, _) => NaN
    case (_, NaN) => NaN
    case (PosInf, NegInf) => NaN
    case (NegInf, PosInf) => NaN
    case (PosInf, _) => PosInf
    case (NegInf, _) => NegInf
    case (_, PosInf) => PosInf
    case (_, NegInf) => NegInf
    case (Fin(x), Fin(y)) => Fin(x + y)
  }

  /** Host float subtraction `a - b`. */
  function NumSub(a: Num, b: Num): Num {
    NumAdd(a, Negate(b))
  }

  /** The sign of a product of two non-NaN operands, as an infinity. */
  function SignedInf(positive: bool): Num {
    if positive then PosInf else NegInf
  }

  /** Host float multiplication `a * b`. */
  function NumMul(a: Num, b: Num): Num {
    if a.NaN? || b.NaN? then NaN
    else if (IsInfinite(a) && b == Fin(0.0)) || (IsInfinite(b) && a == Fin(0.0)) then NaN
    else if IsInfinite(a) || IsInfinite(b) then SignedInf(IsPositive(a) == IsPositive(b))
    else Fin(a.r * b.r)
  }

  /** Host float division `a / b` for a divisor that the host does not
      reject (any divisor but zero). */
  function HostQuotient(a: Num, b: Num): Num
    requires b != Fin(0.0)
  {
    if a.NaN? || b.NaN? then NaN
    else if IsInfinite(a) && IsInfinite(b) then NaN
    else if IsInfinite(a) then SignedInf(IsPositive(a) == IsPositive(b))
    else if IsInfinite(b) then Fin(0.0)
    else Fin(a.r / b.r)
  }

  /** The `/` operator on two numbers: a zero divisor gives NaN for a zero or
      NaN dividend and an infinity of the dividend's sign otherwise. */
  function Divide(a: Num, b: Num): (r: Num)
    ensures r.NaN? <==> a.NaN? || b.NaN? || (IsInfinite(a) && IsInfinite(b)) || (a == Fin(0.0) && b == Fin(0.0))
  {
    if Truthy(b) then HostQuotient(a, b)
    else if !Truthy(a) || a.NaN? then NaN
    else if IsPositive(a) then PosInf
    else NegInf
  }

  function Abs(x: real): real { if x < 0.0 then -x else x }

  /** Floor of a real, as the host's float `%` uses it. */
  function Floor(x: real): (f: int)
    ensures f as real <= x < f as real + 1.0
  {
    x.Floor
  }

  /** Truncation toward zero: the host's `int(x)` on a float. */
  function Truncate(x: real): (t: int)
    ensures x >= 0.0 ==> t >= 0 && t as real <= x < t as real + 1.0
    ensures x < 0.0 ==> t <= 0 && t as real - 1.0 < x <= t as real
  {
    if x >= 0.0 then x.Floor else -((-x).Floor)
  }

  /** The host's float remainder `a % b` on finite operands: the sign of the
      divisor. */
  function HostRemainder(a: real, b: real): real
    requires b != 0.0
  {
    a - b * (Floor(a / b) as real)
  }

  /** The `%` operator on two numbers: host remainder, then the sign moved to
      the dividend's by adding or subtracting `|b|`. */
  function Remainder(a: Num, b: Num): (r: Num)
    ensures r.NaN? <==> a.NaN? || b.NaN? || IsInfinite(a) || b == Fin(0.0)
    ensures a.Fin? && IsInfinite(b) ==> r == a
  {
    if IsInfinite(a) || !Truthy(b) then NaN
    else if IsInfinite(b) then a
    else if a.NaN? || b.NaN? then NaN
    else
      var py := HostRemainder(a.r, b.r);
      if a.r < 0.0 && py > 0.0 then Fin(py - Abs(b.r))
      else if a.r > 0.0 && py < 0.0 then Fin(py + Abs(b.r))
      else Fin(py)
  }

  lemma HostRemainderRange(a: real, b: real)
    requires b != 0.0
    ensures HostRemainder(a, b) == a - b * (Floor(a / b) as real)
    ensures b > 0.0 ==> 0.0 <= HostRemainder(a, b) < b
    ensures b < 0.0 ==> b < HostRemainder(a, b) <= 0.0
  {
    var q := a / b;
    ScaleInterval(b, Floor(q) as real, q, a);
  }

  /** Multiplying `lo <= x < lo + 1` by a nonzero factor `c`, with `y = c * x`. */
  lemma ScaleInterval(c: real, lo: real, x: real, y: real)
    requires c != 0.0 && lo <= x < lo + 1.0 && c * x == y
    ensures c > 0.0 ==> 0.0 <= y - c * lo < c
    ensures c < 0.0 ==> c < y - c * lo <= 0.0
  {
    var d := x - lo;
    assert y - c * lo == c * d;
    assert c - c * d == c * (1.0 - d);
    if c > 0.0 {
      NonnegMul(c, d);
      PosMul(c, 1.0 - d);
      assert c * d < c;
    } else {
      NonnegMul(-c, d);
      PosMul(-c, 1.0 - d);
      assert (-c) * d == -(c * d);
      assert (-c) * (1.0 - d) == -(c * (1.0 - d));
    }
  }

  lemma PosMul(x: real, y: real)
    requires x > 0.0 && y > 0.0
    ensures x * y > 0.0
  {
  }

  lemma NonnegMul(x: real, y: real)
    requires x > 0.0 && y >= 0.0
    ensures x * y >= 0.0
  {
  }

  /** The remainder of finite operands is the remainder of truncating
      division, as ECMA-262 5.1 section 11.5.3 asks: the dividend minus the
      divisor times the quotient truncated toward zero. It therefore has the
      dividend's sign and is smaller than the divisor in magnitude. */
  lemma {:induction false} RemainderIsTruncating(a: real, b: real)
    requires b != 0.0
    ensures Remainder(Fin(a), Fin(b)).Fin?
    ensures Remainder(Fin(a), Fin(b)).r == a - b * (Truncate(a / b) as real)
    ensures a >= 0.0 ==> 0.0 <= Remainder(Fin(a), Fin(b)).r < Abs(b)
    ensures a <= 0.0 ==> -Abs(b) < Remainder(Fin(a), Fin(b)).r <= 0.0
  {
    HostRemainderRange(a, b);
    var q := a / b;
    var f := Floor(q);
    var t := Truncate(q);
    assert b * q == a;
    var py := HostRemainder(a, b);
    var x := Remainder(Fin(a), Fin(b)).r;
    if a < 0.0 && py > 0.0 {
      assert b > 0.0;
      assert q < 0.0 by { DivSign(a, b); }
      assert q != f as real;
      assert t == f + 1;
      assert x == a - b * ((f + 1) as real);
    } else if a > 0.0 && py < 0.0 {
      assert b < 0.0;
      assert q < 0.0 by { DivSign(a, b); }
      assert q != f as real;
      assert t == f + 1;
      assert x == a - b * ((f + 1) as real);
    } else {
      assert x == py;
      if q < 0.0 {
        assert (a < 0.0 && b > 0.0) || (a > 0.0 && b < 0.0) by { DivSign(a, b); }
        assert py == 0.0;
        assert a == b * (f as real);
        MulCancel(b, q, f as real, a);
        assert q == f as real;
      }
      assert t == f;
    }
  }

  lemma MulCancel(c: real, x: real, y: real, z: real)
    requires c != 0.0 && c * x == z && c * y == z
    ensures x == y
  {
    assert c * (x - y) == 0.0;
  }

  lemma DivSign(a: real, b: real)
    requires b != 0.0
    ensures a / b < 0.0 <==> (a < 0.0 && b > 0.0) || (a > 0.0 && b < 0.0)
    ensures a / b == 0.0 <==> a == 0.0
  {
    assert a == b * (a / b);
  }

  /** ToUint32 on a number (ECMA-262 5.1 section 9.6): NaN and the
      infinities give 0, otherwise truncation reduced modulo 2^32. */
  function NumberToUint32(n: Num): (u: int)
    ensures 0 <= u < Two32
    ensures !n.Fin? ==> u == 0
  {
    if n.Fin? then Truncate(n.r) % Two32 else 0
  }

  /** ToUint16 on a number (section 9.7). */
  function NumberToUint16(n: Num): (u: int)
    ensures 0 <= u < Two16
    ensures !n.Fin? ==> u == 0
  {
    if n.Fin? then Truncate(n.r) % Two16 else 0
  }

  /** ToInt32 on a number as base.py writes it: the value reduced modulo
      2^32 has 2^31 taken off when it is strictly above 2^31. */
  function NumberToInt32AsWritten(n: Num): (u: int)
    ensures 0 <= u <= Two31
    ensures !n.Fin? ==> u == 0
  {
    if n.Fin? then
      var u := Truncate(n.r) % Two32;
      if u > Two31 then u - Two31 else u
    else 0
  }

  /** ToInt32 on a number as section 9.5 defines it: the value reduced
      modulo 2^32, read as a signed 32-bit integer. */
  function NumberToInt32(n: Num): int {
    if n.Fin? then
      var u := Truncate(n.r) % Two32;
      if u >= Two31 then u - Two32 else u
    else 0
  }

  lemma Uint32Range(n: Num)
    ensures 0 <= NumberToUint32(n) < Two32
    ensures n.Fin? ==> Truncate(n.r) - NumberToUint32(n) == Two32 * (Truncate(n.r) / Two32)
    ensures 0 <= NumberToUint16(n) < Two16
    ensures n.Fin? ==> Truncate(n.r) - NumberToUint16(n) == Two16 * (Truncate(n.r) / Two16)
  {
  }

  /** A number survives ToUint32 unchanged exactly when it is a whole number
      in [0, 2^32): the test the Array `length` setter makes. */
  lemma Uint32Exact(n: Num)
    ensures NumEq(Fin(NumberToUint32(n) as real), n)
        <==> (n.Fin? && n.r == (n.r.Floor as real) && 0.0 <= n.r < Two32 as real)
  {
    if n.Fin? && n.r == (n.r.Floor as real) && 0.0 <= n.r < Two32 as real {
      assert Truncate(n.r) == n.r.Floor;
    }
  }

  /** The corrected ToInt32 lands in the signed 32-bit range and agrees with
      the truncated number modulo 2^32. */
  lemma Int32Range(n: Num)
    ensures -Two31 <= NumberToInt32(n) < Two31
    ensures n.Fin? ==> var q := Truncate(n.r) / Two32;
      Truncate(n.r) - NumberToInt32(n) == Two32 * q || Truncate(n.r) - NumberToInt32(n) == Two32 * (q + 1)
  {
  }

  /** Two inputs on which the ToInt32 of base.py differs from section 9.5:
      -1 comes out as 2^31 - 1, and 2^31 stays 2^31, outside the
      signed 32-bit range. */
  lemma Int32AsWrittenCounterexample()
    ensures NumberToInt32AsWritten(Fin(-1.0)) == Two31 - 1
    ensures NumberToInt32(Fin(-1.0)) == -1
    ensures NumberToInt32AsWritten(Fin(Two31 as real)) == Two31
    ensures NumberToInt32(Fin(Two31 as real)) == -Two31
  {
    assert Truncate(-1.0) == -1;
    assert Truncate(Two31 as real) == Two31;
  }

  /** Host `<` on non-NaN numbers is a strict total order. */
  lemma NumLessOrder(a: Num, b: Num, c: Num)
    requires !a.NaN? && !b.NaN? && !c.NaN?
    ensures !NumLess(a, a)
    ensures NumLess(a, b) && NumLess(b, c) ==> NumLess(a, c)
    ensures NumLess(a, b) || a == b || NumLess(b, a)
    ensures NumLess(a, b) ==> !NumLess(b, a)
  {
  }

  /** What `/` gives: for finite operands and a nonzero divisor the quotient
      times the divisor is the dividend; a zero divisor never gives a finite
      result. */
  lemma DivideSpec(a: Num, b: Num)
    ensures a.Fin? && b.Fin? && b.r != 0.0 ==> Divide(a, b).Fin? && Divide(a, b).r * b.r == a.r
    ensures b == Fin(0.0) ==> !Divide(a, b).Fin?
    ensures b == Fin(0.0) ==> (Divide(a, b).NaN? <==> (a.NaN? || a == Fin(0.0)))
    ensures b == Fin(0.0) && IsPositive(a) ==> Divide(a, b) == PosInf
    ensures b == Fin(0.0) && IsNegative(a) ==> Divide(a, b) == NegInf
    ensures a.NaN? || b.NaN? ==> Divide(a, b).NaN?
  {
  }

  /** What `+` gives on numbers: NaN absorbs, opposite infinities give NaN,
      and the operation is commutative with 0 as its identity. */
  lemma AddSpec(a: Num, b: Num)
    ensures NumAdd(a, b) == NumAdd(b, a)
    ensures NumAdd(a, Fin(0.0)) == a
    ensures a.NaN? || b.NaN? ==> NumAdd(a, b).NaN?
    ensures (a.PosInf? && b.NegInf?) ==> NumAdd(a, b).NaN?
    ensures NumSub(a, a) == (if a.Fin? then Fin(0.0) else NaN)
  {
  }
}
