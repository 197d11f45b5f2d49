/**
 Mixed integer and floating-point comparison (core/rust/src/numeric.rs).  A double is its 64
 bits; section 3.4 of IEEE 754-2019 gives the exact value they stand for.
 */
module Numeric {
  import opened Optional
  import opened Results
  import opened Words
  import opened Powers

  type Bits = n: int | 0 <= n < 0x1_0000_0000_0000_0000

  datatype Order = Less | Equal | Greater
  datatype NumericError = NonFinite | NotNumeric | NotExactInteger | OutOfRange
  type Res<+T> = Result<T, NumericError>

  /** `Number` is the 64-bit kind; `Other` stands for every value that is not a number. */
  datatype Value = Number(long: int) | BigInteger(big: int) | Float(bits: Bits) | Other

  predicate Typed(v: Value) { v.Number? ==> FitsLong(v.long) }

  function Cmp(a: int, b: int): Order { if a < b then Less else if a == b then Equal else Greater }
  function CmpReal(a: real, b: real): Order { if a < b then Less else if a == b then Equal else Greater }
  function Reverse(o: Order): Order { match o case Less => Greater case Equal => Equal case Greater => Less }

  // ----- fields of a double -----

  function Negative(b: Bits): bool { b / 0x8000_0000_0000_0000 != 0 }
  function Fraction(b: Bits): nat { b % 0x10_0000_0000_0000 }
  function Magnitude(b: Bits): nat { b % 0x8000_0000_0000_0000 }

  predicate IsZero(b: Bits) { Magnitude(b) == 0 }

  function Significand(b: Bits): nat {
    if ExponentBits(b) == 0 then Fraction(b) else Fraction(b) + 0x10_0000_0000_0000
  }

  function Exponent(b: Bits): (e: int)
    ensures -1074 <= e
  {
    if ExponentBits(b) == 0 then -1022 - 52 else ExponentBits(b) - 1023 - 52
  }

  function Sign(b: Bits): int { if Negative(b) then -1 else 1 }

  function Signed(b: Bits): int { Sign(b) * Significand(b) }

  // ----- exact values -----

  ghost function Scale(e: int): real { if e >= 0 then Pow2(e) as real else 1.0 / Pow2(-e) as real }

  /** The number a finite double stands for. */
  ghost function ExactFloat(b: Bits): real { Signed(b) as real * Scale(Exponent(b)) }

  ghost predicate Comparable(v: Value) { Typed(v) && !v.Other? && (v.Float? ==> Finite(v.bits)) }

  ghost function Exact(v: Value): real
    requires Comparable(v)
  {
    match v case Number(n) => n as real case BigInteger(n) => n as real case Float(b) => ExactFloat(b)
  }

  // ----- operations -----

  function CompareIntegerToFloat(n: int, b: Bits): Option<Order> {
    if !Finite(b) then None
    else if IsZero(b) then Some(Cmp(n, 0))
    else if Exponent(b) >= 0 then Some(Cmp(n, Signed(b) * Pow2(Exponent(b))))
    else Some(Cmp(n * Pow2(-Exponent(b)), Signed(b)))
  }

  /** The processor's order on finite doubles: sign and magnitude, both zeros equal. */
  function Key(b: Bits): int { Sign(b) * Magnitude(b) }

  function CompareFloats(a: Bits, b: Bits): Order { Cmp(Key(a), Key(b)) }

  function IntegerOf(v: Value): int
    requires v.Number? || v.BigInteger?
  {
    if v.Number? then v.long else v.big
  }

  function NumericCompare(l: Value, r: Value): Res<Option<Order>> {
    if l.Other? || r.Other? then Ok(None)
    else if l.Float? && r.Float? then
      if !Finite(l.bits) || !Finite(r.bits) then Err(NonFinite) else Ok(Some(CompareFloats(l.bits, r.bits)))
    else if l.Float? then
      if !Finite(l.bits) then Err(NonFinite)
      else
        match CompareIntegerToFloat(IntegerOf(r), l.bits)
        case None => Ok(None)
        case Some(o) => Ok(Some(Reverse(o)))
    else if r.Float? then
      if !Finite(r.bits) then Err(NonFinite) else Ok(CompareIntegerToFloat(IntegerOf(l), r.bits))
    else Ok(Some(Cmp(IntegerOf(l), IntegerOf(r))))
  }

  function Compact(n: int): Value { if FitsLong(n) then Number(n) else BigInteger(n) }

  function Negate(v: Value): Res<Value> {
    match v
    case Number(n) => if FitsLong(-n) then Ok(Number(-n)) else Ok(BigInteger(if n < 0 then -n else n))
    case BigInteger(n) => Ok(Compact(-n))
    case Float(b) => if Finite(Flipped(b)) then Ok(Float(Flipped(b))) else Err(NonFinite)
    case Other => Err(NotNumeric)
  }

  function Flipped(b: Bits): Bits {
    if Negative(b) then b - 0x8000_0000_0000_0000 else b + 0x8000_0000_0000_0000
  }

  /** Whether a finite double has a fractional part: some fraction bit stands for less than one. */
  predicate Fractional(b: Bits) {
    var e := ExponentBits(b) - 1023;
    if e < 0 then !IsZero(b) else e < 52 && Fraction(b) % Pow2(52 - e) != 0
  }

  function ExactInteger(b: Bits): Option<int> {
    if !Finite(b) || Fractional(b) then None
    else if ExponentBits(b) == 0 then (if Fraction(b) == 0 then Some(0) else None)
    else
      var mantissa := Fraction(b) + 0x10_0000_0000_0000;
      var e := ExponentBits(b) - 1023 - 52;
      if e < 0 && mantissa % Pow2(-e) != 0 then None
      else
        var whole := if e >= 0 then mantissa * Pow2(e) else mantissa / Pow2(-e);
        Some(if Negative(b) then -whole else whole)
  }

  function ToLong(v: Value): Res<int> {
    if v.Other? then Err(NotNumeric)
    else if v.Float? && ExactInteger(v.bits).None? then Err(NotExactInteger)
    else
      var n := if v.Float? then ExactInteger(v.bits).value else IntegerOf(v);
      if FitsLong(n) then Ok(n) else Err(OutOfRange)
  }

  // ----- arithmetic of powers -----

  lemma Constants()
    ensures Pow2(52) == 0x10_0000_0000_0000
  {
    assert Pow2(13) == 0x2000;
    Pow2Sum(13, 13);
    Pow2Sum(26, 26);
  }

  lemma TimesKeepsOrder(a: real, b: real, k: real)
    requires k > 0.0
    ensures CmpReal(a * k, b * k) == CmpReal(a, b)
  {
    if a < b { assert (b - a) * k > 0.0; } else if a > b { assert (a - b) * k > 0.0; }
  }

  lemma IntegersAsReals(a: int, b: int)
    ensures CmpReal(a as real, b as real) == Cmp(a, b)
  {
  }

  /** The order of an integer and a double, without leaving the integers. */
  lemma IntegerAgainstExact(n: int, b: Bits)
    ensures Exponent(b) >= 0 ==> CmpReal(n as real, ExactFloat(b)) == Cmp(n, Signed(b) * Pow2(Exponent(b)))
    ensures Exponent(b) < 0 ==> CmpReal(n as real, ExactFloat(b)) == Cmp(n * Pow2(-Exponent(b)), Signed(b))
  {
    hide Exponent, Signed, Pow2;
    var e, s := Exponent(b), Signed(b);
    if e >= 0 {
      assert ExactFloat(b) == (s * Pow2(e)) as real;
      IntegersAsReals(n, s * Pow2(e));
    } else {
      var k := Pow2(-e) as real;
      assert ExactFloat(b) * k == s as real by { assert (s as real * (1.0 / k)) * k == s as real; }
      assert (n as real) * k == (n * Pow2(-e)) as real;
      TimesKeepsOrder(n as real, ExactFloat(b), k);
      IntegersAsReals(n * Pow2(-e), s);
    }
  }

  lemma ZeroIsZero(b: Bits)
    ensures IsZero(b) <==> ExactFloat(b) == 0.0
  {
    hide Pow2;
    var e := Exponent(b);
    assert Scale(e) > 0.0;
    assert Significand(b) == 0 <==> IsZero(b);
    hide Scale;
    if Signed(b) != 0 {
      if ExactFloat(b) == 0.0 { ProductNotZero(Signed(b) as real, Scale(e)); }
    }
  }

  lemma ProductNotZero(a: real, b: real)
    requires a != 0.0 && b != 0.0
    ensures a * b != 0.0
  {
    if (a > 0.0) == (b > 0.0) { assert a * b > 0.0; } else { assert a * b < 0.0; }
  }

  lemma IntegerFloatExact(n: int, b: Bits)
    requires Finite(b)
    ensures CompareIntegerToFloat(n, b) == Some(CmpReal(n as real, ExactFloat(b)))
  {
    hide ExactFloat, Exponent, Signed;
    ZeroIsZero(b);
    IntegerAgainstExact(n, b);
    if IsZero(b) { IntegersAsReals(n, 0); }
  }

  // ----- the order of doubles -----

  /** The exact magnitude, in units of two to the power -1074. */
  ghost function Units(b: Bits): nat { Significand(b) * Pow2(Exponent(b) + 1074) }

  ghost function SignedUnits(b: Bits): int { Sign(b) * Units(b) }

  lemma UnitsAreExact(b: Bits)
    ensures ExactFloat(b) * Pow2(1074) as real == SignedUnits(b) as real
  {
    hide Pow2, Exponent, Signed, Significand;
    var e, s := Exponent(b), Signed(b);
    assert SignedUnits(b) == s * Pow2(e + 1074) by { SignTimes(b); }
    if e >= 0 {
      Pow2Sum(e, 1074);
      RegroupUp(s, Pow2(e), Pow2(1074));
    } else {
      Pow2Sum(-e, e + 1074);
      RegroupDown(s, Pow2(-e), Pow2(e + 1074));
    }
  }

  lemma SignTimes(b: Bits)
    ensures SignedUnits(b) == Signed(b) * Pow2(Exponent(b) + 1074)
  {
    hide Pow2, Exponent, Significand;
    NegatedProduct(Significand(b), Pow2(Exponent(b) + 1074));
  }

  lemma NegatedProduct(a: int, b: int)
    ensures (-a) * b == -(a * b)
  {
  }

  lemma RegroupUp(s: int, a: nat, k: nat)
    ensures s as real * a as real * k as real == (s * (a * k)) as real
  {
    assert s * (a * k) == (s * a) * k;
  }

  lemma RegroupDown(s: int, a: nat, r: nat)
    requires a > 0
    ensures s as real * (1.0 / a as real) * (a * r) as real == (s * r) as real
  {
    var x := a as real;
    assert (a * r) as real == x * r as real;
    assert (1.0 / x) * x == 1.0;
    assert s as real * (1.0 / x) * (x * r as real) == s as real * ((1.0 / x) * x) * r as real;
  }

  lemma FieldsOfMagnitude(b: Bits)
    ensures Magnitude(b) == ExponentBits(b) * 0x10_0000_0000_0000 + Fraction(b)
  {
  }

  /** A larger magnitude field is a larger magnitude. */
  lemma MagnitudeOrder(a: Bits, b: Bits)
    requires Magnitude(a) < Magnitude(b)
    ensures Units(a) < Units(b)
  {
    hide Pow2, Magnitude;
    FieldsOfMagnitude(a);
    FieldsOfMagnitude(b);
    var ea, eb, fa, fb := ExponentBits(a), ExponentBits(b), Fraction(a), Fraction(b);
    if ea == eb {
      Strict(Significand(a), Significand(b), Pow2(Exponent(a) + 1074));
    } else {
      assert ea < eb;
      hide Units, ExponentBits, Fraction, Significand, Exponent;
      BelowNextBinade(a);
      FromBinade(b);
      Pow2Grows(ea, eb - 1);
    }
  }

  lemma Strict(a: nat, b: nat, k: nat)
    requires a < b && k > 0
    ensures a * k < b * k
  {
  }

  lemma FromBinade(b: Bits)
    requires ExponentBits(b) > 0
    ensures Units(b) >= 0x10_0000_0000_0000 * Pow2(ExponentBits(b) - 1)
  {
    hide Pow2;
  }

  lemma BelowNextBinade(b: Bits)
    ensures Units(b) < 0x10_0000_0000_0000 * Pow2(ExponentBits(b))
  {
    var e := ExponentBits(b);
    if e > 0 {
      assert Pow2(e) == 2 * Pow2(e - 1);
      hide Pow2;
      Strict(Significand(b), 0x20_0000_0000_0000, Pow2(e - 1));
    }
  }

  lemma MagnitudeEqual(a: Bits, b: Bits)
    requires Magnitude(a) == Magnitude(b)
    ensures Units(a) == Units(b)
  {
    hide Pow2;
    FieldsOfMagnitude(a);
    FieldsOfMagnitude(b);
    assert ExponentBits(a) == ExponentBits(b) && Fraction(a) == Fraction(b);
  }

  lemma MagnitudeZero(b: Bits)
    ensures Magnitude(b) == 0 <==> Units(b) == 0
  {
    hide Pow2;
    FieldsOfMagnitude(b);
    if Units(b) == 0 && Significand(b) > 0 { Strict(0, Significand(b), Pow2(Exponent(b) + 1074)); }
  }

  lemma FloatsExact(a: Bits, b: Bits)
    ensures CompareFloats(a, b) == CmpReal(ExactFloat(a), ExactFloat(b))
  {
    hide ExactFloat, Units, Magnitude, Pow2;
    UnitsAreExact(a);
    UnitsAreExact(b);
    TimesKeepsOrder(ExactFloat(a), ExactFloat(b), Pow2(1074) as real);
    IntegersAsReals(SignedUnits(a), SignedUnits(b));
    MagnitudeZero(a);
    MagnitudeZero(b);
    if Magnitude(a) < Magnitude(b) { MagnitudeOrder(a, b); }
    else if Magnitude(b) < Magnitude(a) { MagnitudeOrder(b, a); }
    else { MagnitudeEqual(a, b); }
  }

  // ----- main results -----

  lemma ReverseMirrors(a: real, b: real)
    ensures CmpReal(b, a) == Reverse(CmpReal(a, b))
  {
  }

  /** Comparison is exact across kinds: it is the order of the exact values. */
  lemma CompareIsExact(l: Value, r: Value)
    requires Comparable(l) && Comparable(r)
    ensures NumericCompare(l, r) == Ok(Some(CmpReal(Exact(l), Exact(r))))
  {
    hide ExactFloat, CompareIntegerToFloat, CompareFloats, Finite;
    if l.Float? && r.Float? {
      FloatsExact(l.bits, r.bits);
    } else if l.Float? {
      IntegerFloatExact(IntegerOf(r), l.bits);
      ReverseMirrors(IntegerOf(r) as real, ExactFloat(l.bits));
    } else if r.Float? {
      IntegerFloatExact(IntegerOf(l), r.bits);
    } else {
      IntegersAsReals(IntegerOf(l), IntegerOf(r));
    }
  }

  /** An infinity or a NaN is refused against any number, and a non-number is never ordered. */
  lemma CompareRefuses(l: Value, r: Value)
    ensures NumericCompare(l, r) == Err(NonFinite) <==>
            !l.Other? && !r.Other? && ((l.Float? && !Finite(l.bits)) || (r.Float? && !Finite(r.bits)))
    ensures NumericCompare(l, r) == Ok(None) <==> l.Other? || r.Other?
  {
    hide Finite;
  }

  ghost predicate AtMost(l: Value, r: Value) {
    NumericCompare(l, r) == Ok(Some(Less)) || NumericCompare(l, r) == Ok(Some(Equal))
  }

  /** So comparison is total, symmetric under exchange and transitive, whatever the kinds. */
  lemma CompareIsATotalOrder(a: Value, b: Value, c: Value)
    requires Comparable(a) && Comparable(b) && Comparable(c)
    ensures AtMost(a, b) || AtMost(b, a)
    ensures AtMost(a, b) && AtMost(b, a) ==> NumericCompare(a, b) == Ok(Some(Equal)) && Exact(a) == Exact(b)
    ensures AtMost(a, b) && AtMost(b, c) ==> AtMost(a, c)
    ensures NumericCompare(b, a) == Ok(Some(Reverse(NumericCompare(a, b).value.value)))
  {
    hide NumericCompare, Exact;
    CompareIsExact(a, b);
    CompareIsExact(b, a);
    CompareIsExact(b, c);
    CompareIsExact(a, c);
  }

  lemma Divides(s: nat, k: nat, n: int)
    requires k > 0
    ensures s % k == 0 ==> (s == n * k <==> s / k == n)
    ensures s % k != 0 ==> s != n * k
  {
    var q, r := s / k, s % k;
    assert s == q * k + r;
    if s == n * k { QuotientUnique(q, r, n, 0, k); }
  }

  lemma {:induction false} DivisibleBySmaller(a: nat, b: nat, f: nat)
    requires a <= b
    ensures (f + Pow2(b)) % Pow2(a) == f % Pow2(a)
  {
    Pow2Sum(b - a, a);
    var k, m := Pow2(a), Pow2(b - a);
    assert f == f / k * k + f % k;
    Remainder(f + m * k, k, f / k + m, f % k);
  }

  lemma Remainder(x: int, k: nat, q: int, r: nat)
    requires k > 0 && r < k && x == q * k + r
    ensures x % k == r
  {
    var d, m := x / k, x % k;
    assert x == d * k + m;
    QuotientUnique(d, m, q, r, k);
  }

  lemma QuotientUnique(q: int, r: nat, p: int, s: nat, k: nat)
    requires q * k + r == p * k + s && r < k && s < k
    ensures q == p && r == s
  {
    if q != p {
      var d := q - p;
      assert d * k == s - r;
      if d > 0 { Multiples(d, k); } else { Multiples(-d, k); }
    }
  }

  lemma Multiples(d: int, k: int)
    requires d > 0 && k >= 0
    ensures d * k >= k && (-d) * k == -(d * k)
  {
    NegatedProduct(d, k);
    assert d * k == (d - 1) * k + k;
    NotNegative(d - 1, k);
  }

  lemma NotNegative(a: nat, b: nat)
    ensures a * b >= 0
  {
  }

  /** The fraction-bit test finds exactly the doubles whose significand is not a multiple of its unit. */
  lemma FractionalMeans(b: Bits)
    requires Finite(b)
    ensures Fractional(b) <==> Exponent(b) < 0 && Significand(b) % Pow2(-Exponent(b)) != 0
  {
    var e := ExponentBits(b) - 1023;
    FieldsOfMagnitude(b);
    Constants();
    if e < 0 {
      Pow2Grows(53, -Exponent(b));
      assert Pow2(53) == 2 * Pow2(52);
      SmallRemainder(Significand(b), Pow2(-Exponent(b)));
    } else if e < 52 {
      DivisibleBySmaller(52 - e, 52, Fraction(b));
    }
  }

  lemma SmallRemainder(x: nat, k: nat)
    requires x < k
    ensures x % k == x
  {
  }

  /** The conversion, without its early exits. */
  lemma ExactIntegerForm(b: Bits)
    requires Finite(b)
    ensures var e, s := Exponent(b), Significand(b);
            ExactInteger(b) ==
            if e >= 0 then Some(Sign(b) * (s * Pow2(e)))
            else if s % Pow2(-e) != 0 then None else Some(Sign(b) * (s / Pow2(-e)))
  {
    hide Pow2, Fractional;
    FractionalMeans(b);
    if ExponentBits(b) == 0 && !Fractional(b) {
      ZeroSubnormal(b);
      assert Significand(b) == 0;
      SmallRemainder(0, Pow2(-Exponent(b)));
    }
  }

  lemma ZeroSubnormal(b: Bits)
    requires ExponentBits(b) == 0 && !Fractional(b)
    ensures Fraction(b) == 0
  {
    FieldsOfMagnitude(b);
  }

  lemma SignMoves(sign: int, s: int, k: int, n: int)
    requires sign == 1 || sign == -1
    ensures n * k == sign * s <==> s == (sign * n) * k
    ensures sign * s == n <==> s == sign * n
  {
    if sign == -1 { NegatedProduct(n, k); }
  }

  lemma WholeIff(sign: int, s: nat, k: nat, n: int)
    requires (sign == 1 || sign == -1) && k > 0
    ensures n * k == sign * s <==> s % k == 0 && sign * (s / k) == n
  {
    var q, r := s / k, s % k;
    Divides(s, k, sign * n);
    SignMoves(sign, s, k, n);
    SignMoves(sign, q, k, n);
  }

  lemma Regroup(a: int, b: int, c: int)
    ensures (a * b) * c == a * (b * c)
  {
  }

  /** A double converts to `n` exactly when its value is the integer `n`. */
  lemma ExactIntegerIff(b: Bits, n: int)
    ensures ExactInteger(b) == Some(n) <==> Finite(b) && ExactFloat(b) == n as real
  {
    if Finite(b) {
      ExactIntegerForm(b);
      IntegerAgainstExact(n, b);
      hide ExactInteger, Pow2, ExactFloat, Exponent, Significand;
      var e, s := Exponent(b), Significand(b);
      if e < 0 {
        WholeIff(Sign(b), s, Pow2(-e), n);
      } else {
        Regroup(Sign(b), s, Pow2(e));
      }
    }
  }

  /** Conversion to a long succeeds exactly on in-range integers, and then keeps the value. */
  lemma ToLongIsExact(v: Value, n: int)
    requires Typed(v)
    ensures ToLong(v) == Ok(n) <==> Comparable(v) && FitsLong(n) && Exact(v) == n as real
  {
    hide ExactInteger, ExactFloat, Finite;
    if v.Float? {
      ExactIntegerIff(v.bits, n);
      if ExactInteger(v.bits).Some? { ExactIntegerIff(v.bits, ExactInteger(v.bits).value); }
    }
  }

  // ----- canonical integers -----

  /** An integer has one representation: the 64-bit kind whenever it fits. */
  predicate Canonical(v: Value) { Typed(v) && (v.BigInteger? ==> !FitsLong(v.big)) }

  lemma CompactIsCanonical(n: int, v: Value)
    ensures Canonical(Compact(n)) && Exact(Compact(n)) == n as real
    ensures Canonical(v) && (v.Number? || v.BigInteger?) && IntegerOf(v) == n ==> v == Compact(n)
  {
  }

  lemma FlippedFields(b: Bits)
    ensures Negative(Flipped(b)) == !Negative(b) && ExponentBits(Flipped(b)) == ExponentBits(b)
    ensures Fraction(Flipped(b)) == Fraction(b) && Flipped(Flipped(b)) == b
  {
  }

  /** Negation succeeds on every finite number, negates its exact value, keeps it canonical and undoes itself. */
  lemma NegateIsExact(v: Value)
    requires Canonical(v)
    ensures Negate(v).Ok? <==> Comparable(v)
    ensures Comparable(v) ==>
              var w := Negate(v).value;
              Canonical(w) && Comparable(w) && Exact(w) == -Exact(v) && Negate(w) == Ok(v)
  {
    if v.Float? {
      FlippedFields(v.bits);
      hide Flipped, ExactFloat;
      FlippedIsNegated(v.bits);
    }
  }

  lemma FlippedIsNegated(b: Bits)
    ensures ExactFloat(Flipped(b)) == -ExactFloat(b)
  {
    FlippedFields(b);
    hide Flipped, Pow2, Scale;
    assert Significand(Flipped(b)) == Significand(b) && Exponent(Flipped(b)) == Exponent(b);
    assert Signed(Flipped(b)) == -Signed(b);
    hide Signed, Exponent;
    NegatedReal(Signed(b) as real, Scale(Exponent(b)));
  }

  lemma NegatedReal(a: real, b: real)
    ensures (-a) * b == -(a * b)
  {
  }
}
