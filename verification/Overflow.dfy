/** The overflow helpers of the preamble, the saturating intrinsics built on them,
    and the carrying multiply-add. */
module Overflow {
  import opened IntMath
  import opened CSemantics
  import opened Int128Division

  datatype ArithOp = OAdd | OSub | OMul

  function Exact(op: ArithOp, a: int, b: int): int {
    match op
    case OAdd => a + b
    case OSub => a - b
    case OMul => a * b
  }

  // ----- widening helpers, 8 to 64 bits -----

  /** `wide w = (wide)a op (wide)b; *r = (type)w; return w != (wide)*r;` */
  method OverflowWiden(op: ArithOp, bits: nat, signed: bool, a: int, b: int) returns (overflow: bool, r: int)
    requires bits > 1 && InRange(bits, signed, a) && InRange(bits, signed, b)
    ensures r == Wrap(bits, signed, Exact(op, a, b))
    ensures overflow <==> !InRange(bits, signed, Exact(op, a, b))
    ensures var exact := if op.OAdd? then a + b else if op.OSub? then a - b else a * b;
            Cong(r, exact, Pow2(bits)) && (overflow <==> r != exact)
  {
    var w := Wrap(2 * bits, signed, Exact(op, a, b));
    r := Wrap(bits, signed, w);
    overflow := w != Wrap(2 * bits, signed, r);
    WideDetects(op, bits, signed, a, b);
    ExactMeans(op, a, b);
    WrapExact(bits, signed, Exact(op, a, b));
  }

  lemma ExactMeans(op: ArithOp, a: int, b: int)
    ensures Exact(op, a, b) == if op.OAdd? then a + b else if op.OSub? then a - b else a * b
  {
  }

  lemma WrapExact(bits: nat, signed: bool, e: int)
    requires bits > 1
    ensures Cong(Wrap(bits, signed, e), e, Pow2(bits)) && InRange(bits, signed, Wrap(bits, signed, e))
    ensures Wrap(bits, signed, e) == e <==> InRange(bits, signed, e)
  {
    hide Pow2, Wrap;
    WrapCong(bits, signed, e);
    if InRange(bits, signed, e) { WrapId(bits, signed, e); }
  }

  lemma WideDetects(op: ArithOp, bits: nat, signed: bool, a: int, b: int)
    requires bits > 1 && InRange(bits, signed, a) && InRange(bits, signed, b)
    ensures var e := Exact(op, a, b);
            var w := Wrap(2 * bits, signed, e);
            && Wrap(bits, signed, w) == Wrap(bits, signed, e)
            && (w != Wrap(2 * bits, signed, Wrap(bits, signed, w)) <==> !InRange(bits, signed, e))
  {
    hide Pow2, Wrap, Exact;
    var e := Exact(op, a, b);
    var w := Wrap(2 * bits, signed, e);
    WrapCongNarrow(2 * bits, signed, e, bits);
    WrapOfCong(bits, signed, w, e);
    var r := Wrap(bits, signed, e);
    InRangeWider(bits, signed, r, 2 * bits, signed);
    WrapId(2 * bits, signed, r);
    if InRange(bits, signed, e) {
      InRangeWider(bits, signed, e, 2 * bits, signed);
      WrapId(2 * bits, signed, e);
      WrapId(bits, signed, e);
    } else {
      // were w == r, then e and r would agree modulo 2^(2 bits)
      WrapCong(2 * bits, signed, e);
      WideFits(op, bits, signed, a, b);
      if Cong(e, r, Pow2(2 * bits)) { CongClose(e, r, Pow2(2 * bits)); }
    }
  }

  /** The exact result is less than 2^(2 bits) away from every value of the type. */
  lemma WideFits(op: ArithOp, bits: nat, signed: bool, a: int, b: int)
    requires bits > 1 && InRange(bits, signed, a) && InRange(bits, signed, b)
    ensures forall r :: InRange(bits, signed, r) ==> -Pow2(2 * bits) < Exact(op, a, b) - r < Pow2(2 * bits)
  {
    hide Pow2;
    var m, h := Pow2(bits), Pow2(bits - 1);
    Pow2Step(bits - 1);
    Pow2Step(0);
    Pow2Monotone(1, bits - 1);
    Pow2Add(bits, bits);
    Squares(m, h);
    if op.OMul? {
      if signed { ProductBound(a, b, h); } else { ProductBound(a, b, m - 1); }
    }
  }

  lemma Squares(m: int, h: int)
    requires m == 2 * h && h >= 2
    ensures m * m == 4 * (h * h) && h * h >= 2 * h && (m - 1) * (m - 1) == m * m - 2 * m + 1
  {
    MulMonotone(2, h, h);
  }

  lemma ProductBound(a: int, b: int, h: int)
    requires -h <= a <= h && -h <= b <= h
    ensures -(h * h) <= a * b <= h * h
  {
    MulMonotone(Abs(a), h, Abs(b));
    MulMonotone(Abs(b), h, h);
    assert Abs(a) * Abs(b) == Abs(a * b);
    assert h * Abs(b) == Abs(b) * h;
  }

  // ----- 128-bit helpers -----

  /** `*r = a + b; return *r < a;` and `*r = a - b; return a < b;` */
  method OverflowU128AddSub(op: ArithOp, a: int, b: int) returns (overflow: bool, r: int)
    requires !op.OMul? && U128(a) && U128(b)
    ensures r == Wrap(128, false, Exact(op, a, b))
    ensures overflow <==> !InRange(128, false, Exact(op, a, b))
  {
    hide Pow2;
    r := Wrap(128, false, Exact(op, a, b));
    overflow := if op.OAdd? then r < a else a < b;
    if op.OAdd? {
      if a + b < Pow2(128) {
        DivModUnique(a + b, Pow2(128), 0, a + b);
      } else {
        DivModUnique(a + b, Pow2(128), 1, a + b - Pow2(128));
      }
    }
  }

  /** `*r = a * b; return a != 0 && *r / a != b;` */
  method OverflowU128Mul(a: int, b: int) returns (overflow: bool, r: int)
    requires U128(a) && U128(b)
    ensures r == Wrap(128, false, a * b)
    ensures overflow <==> !InRange(128, false, a * b)
  {
    hide Pow2;
    r := Wrap(128, false, a * b);
    overflow := a != 0 && r / a != b;
    if a != 0 { DivisionDetects(a, b, Pow2(128)); }
    MulMonotone(0, a, b);
  }

  lemma DivisionDetects(a: int, b: int, m: int)
    requires 0 < a < m && 0 <= b < m
    ensures (a * b) % m / a == b <==> a * b < m
  {
    var e := a * b;
    assert e >= 0 by { MulMonotone(0, a, b); }
    if e < m {
      DivModUnique(e, m, 0, e);
      DivModUnique(e, a, b, 0);
    } else {
      var k, r := e / m, e % m;
      assert e == k * m + r;
      if k <= 0 { MulMonotone(k, 0, m); }
      MulMonotone(1, k, m);
      BelowQuotient(r, a, b);
    }
  }

  lemma BelowQuotient(r: int, a: int, b: int)
    requires a > 0 && r < a * b
    ensures r / a != b
  {
    assert (r / a) * a <= r;
  }

  /** Congruent numbers less than the modulus apart are equal. */
  lemma CongClose(x: int, y: int, m: int)
    requires m > 0 && Cong(x, y, m) && -m < x - y < m
    ensures x == y
  {
    var k := CongWitness(x, y, m);
    MulMonotone(if k > 0 then 1 else k, if k > 0 then k else 0, m);
    MulMonotone(if k < 0 then k else 0, if k < 0 then -1 else k, m);
  }

  // (u128) operators of the sign-bit form
  function XorU(x: int, y: int): int { BitOp(Xor(), x, y, 128) }
  function NotU(x: int): int { BitOp(NotLeft(), x, 0, 128) }

  /** `(int128_t)x < 0` */
  predicate Negative(x: int) { Wrap(128, true, x) < 0 }

  predicate TopSet(x: int) { x >= Pow2(127) }

  /** Sign-bit tests: both operands agree and the result differs, or both differ
      and the result differs from the first. */
  lemma SignBits(ua: int, ub: int, ur: int)
    requires U128(ua) && U128(ub) && U128(ur)
    ensures var sa, sb, sr := TopSet(ua), TopSet(ub), TopSet(ur);
            && (Negative(AndU(NotU(XorU(ua, ub)), XorU(ur, ua))) <==> sa == sb && sr != sa)
            && (Negative(AndU(XorU(ua, ub), XorU(ur, ua))) <==> sa != sb && sr != sa)
  {
    hide Pow2, BitOp, Bit;
    var x, y := XorU(ua, ub), XorU(ur, ua);
    BitOpBit(Xor(), ua, ub, 128, 127);
    BitOpBit(Xor(), ur, ua, 128, 127);
    BitOpBit(NotLeft(), x, 0, 128, 127);
    BitOpBit(And(), NotU(x), y, 128, 127);
    BitOpBit(And(), x, y, 128, 127);
    TopBit(ua, 128);
    TopBit(ub, 128);
    TopBit(ur, 128);
    NegativeTop(AndU(NotU(x), y));
    NegativeTop(AndU(x, y));
  }

  lemma NegativeTop(p: int)
    requires U128(p)
    ensures Negative(p) <==> Bit(p, 127)
  {
    hide Pow2, Bit;
    TopBit(p, 128);
    DivModUnique(p, Pow2(128), 0, p);
  }

  method OverflowI128AddSub(op: ArithOp, a: int, b: int) returns (overflow: bool, r: int)
    requires !op.OMul? && I128(a) && I128(b)
    ensures r == Wrap(128, true, Exact(op, a, b))
    ensures overflow <==> !InRange(128, true, Exact(op, a, b))
  {
    hide Pow2, BitOp;
    var ua, ub := Wrap(128, false, a), Wrap(128, false, b);
    var ur := Wrap(128, false, Exact(op, ua, ub));
    r := Wrap(128, true, ur);
    overflow := if op.OAdd? then Negative(AndU(NotU(XorU(ua, ub)), XorU(Wrap(128, false, r), ua)))
                else Negative(AndU(XorU(ua, ub), XorU(Wrap(128, false, r), ua)));
    SignedSum(op, a, b);
    SignBits(ua, ub, ur);
  }

  lemma PatternOf(v: int)
    requires I128(v)
    ensures Wrap(128, false, v) == if v < 0 then v + Pow2(128) else v
    ensures Wrap(128, false, v) >= Pow2(127) <==> v < 0
  {
    hide Pow2;
    Doubling();
    if v < 0 { DivModUnique(v, Pow2(128), -1, v + Pow2(128)); } else { DivModUnique(v, Pow2(128), 0, v); }
  }

  lemma SignedSum(op: ArithOp, a: int, b: int)
    requires !op.OMul? && I128(a) && I128(b)
    ensures var ua, ub := Wrap(128, false, a), Wrap(128, false, b);
            var ur := Wrap(128, false, Exact(op, ua, ub));
            var r := Wrap(128, true, ur);
            && r == Wrap(128, true, Exact(op, a, b)) && Wrap(128, false, r) == ur
            && (ua >= Pow2(127) <==> a < 0) && (ub >= Pow2(127) <==> b < 0) && (ur >= Pow2(127) <==> r < 0)
            && (!InRange(128, true, Exact(op, a, b)) <==> (op.OAdd? <==> (a < 0) == (b < 0)) && (r < 0) != (a < 0))
  {
    hide Pow2, Wrap;
    var m := Pow2(128);
    var ua, ub := Wrap(128, false, a), Wrap(128, false, b);
    PatternOf(a);
    PatternOf(b);
    var e, ue := Exact(op, a, b), Exact(op, ua, ub);
    var ur := Wrap(128, false, ue);
    WrapCong(128, false, a);
    WrapCong(128, false, b);
    CongAdd(ua, a, ub, b, m);
    WrapCong(128, false, ue);
    WrapOfCong(128, true, ur, e);
    var r := Wrap(128, true, e);
    PatternOf(r);
    WrapCong(128, true, e);
    WrapOfCong(128, false, r, ue);
    Doubling();
    NearRange(e, r);
  }

  /** A sum or difference of two i128 is off by at most one modulus. */
  lemma NearRange(e: int, r: int)
    requires -Pow2(128) <= e < Pow2(128) && r == Wrap(128, true, e)
    ensures r == (if e >= Pow2(127) then e - Pow2(128) else if e < -Pow2(127) then e + Pow2(128) else e)
  {
    hide Pow2, Wrap;
    Doubling();
    var v := if e >= Pow2(127) then e - Pow2(128) else if e < -Pow2(127) then e + Pow2(128) else e;
    ModShift(e, if e >= Pow2(127) then -1 else if e < -Pow2(127) then 1 else 0, Pow2(128));
    WrapUnique(128, true, e, v);
  }

  /** `*r = a * b; if (a == 0) return 0; return *r / a != b;` where the quotient of
      the smallest value by -1 wraps. */
  method OverflowI128Mul(a: int, b: int) returns (overflow: bool, r: int)
    requires I128(a) && I128(b)
    ensures r == Wrap(128, true, a * b)
    ensures overflow <==> !InRange(128, true, a * b) && !(a == -1 && b == -Pow2(127))
  {
    r := Wrap(128, true, a * b);
    if a == 0 {
      overflow := false;
    } else {
      overflow := Wrap(128, true, TruncDiv(r, a)) != b;
    }
    SignedMulDetects(a, b);
  }

  lemma SignedMulDetects(a: int, b: int)
    requires I128(a) && I128(b)
    ensures a == 0 ==> InRange(128, true, a * b)
    ensures a != 0 ==> (Wrap(128, true, TruncDiv(Wrap(128, true, a * b), a)) == b <==>
                        InRange(128, true, a * b) || (a == -1 && b == -Pow2(127)))
  {
    hide Pow2, Wrap, TruncDiv;
    var e := a * b;
    var r := Wrap(128, true, e);
    Doubling();
    if a != 0 {
      QuotientFits(r, a);
      if InRange(128, true, e) {
        WrapId(128, true, e);
        TruncatingUnique(e, a, b, 0);
        WrapId(128, true, b);
      } else if a == -1 {
        assert e == -b;
        NearRange(e, r);
        WrapId(128, true, b);
      } else {
        TruncatingDivision(r, a);
        // a quotient equal to b would put r within |a| of a*b, and they are congruent
        WrapCong(128, true, e);
        var near := TruncDiv(r, a) * a;
        if Cong(r, near, Pow2(128)) { CongClose(r, near, Pow2(128)); }
        assert e == b * a;
      }
    }
  }

  // ----- saturating_add and saturating_sub -----

  function MinOf(bits: nat, signed: bool): int
    requires bits > 0
  {
    if signed then -Pow2(bits - 1) else 0
  }

  function MaxOf(bits: nat, signed: bool): int
    requires bits > 0
  {
    if signed then Pow2(bits - 1) - 1 else Pow2(bits) - 1
  }

  function Clamp(bits: nat, signed: bool, v: int): int
    requires bits > 0
  {
    if v < MinOf(bits, signed) then MinOf(bits, signed) else if v > MaxOf(bits, signed) then MaxOf(bits, signed) else v
  }

  /** The clamp literal the intrinsic emits; both signed ones are 0 above 64 bits. */
  function ClampLiteral(op: ArithOp, bits: nat, signed: bool, rhs: int): int
    requires bits > 0
  {
    if signed then
      var (lo, hi) := if bits <= 64 then (MinOf(bits, true), MaxOf(bits, true)) else (0, 0);
      if op.OAdd? then (if rhs > 0 then hi else lo) else (if rhs > 0 then lo else hi)
    else if op.OAdd? then MaxOf(bits, false)
    else 0
  }

  /** `overflow = helper(l, r, &result); if (overflow) result = clamp;` */
  method Saturating(op: ArithOp, bits: nat, signed: bool, a: int, b: int) returns (result: int)
    requires !op.OMul? && (1 < bits <= 64 || bits == 128) && InRange(bits, signed, a) && InRange(bits, signed, b)
    ensures bits <= 64 || !signed ==> result == Clamp(bits, signed, Exact(op, a, b))
    ensures bits == 128 && signed
            ==> result == if InRange(128, true, a + (if op.OAdd? then b else -b)) then Exact(op, a, b) else 0
  {
    var overflow;
    if bits <= 64 {
      overflow, result := OverflowWiden(op, bits, signed, a, b);
    } else if signed {
      overflow, result := OverflowI128AddSub(op, a, b);
    } else {
      overflow, result := OverflowU128AddSub(op, a, b);
    }
    if overflow {
      result := ClampLiteral(op, bits, signed, b);
    }
    ClampCases(op, bits, signed, a, b);
  }

  lemma ClampCases(op: ArithOp, bits: nat, signed: bool, a: int, b: int)
    requires !op.OMul? && bits > 1 && InRange(bits, signed, a) && InRange(bits, signed, b)
    ensures var e := Exact(op, a, b);
            if InRange(bits, signed, e) then Clamp(bits, signed, e) == e == Wrap(bits, signed, e)
            else bits <= 64 || !signed ==> Clamp(bits, signed, e) == ClampLiteral(op, bits, signed, b)
  {
    hide Pow2, Wrap;
    if InRange(bits, signed, Exact(op, a, b)) { WrapId(bits, signed, Exact(op, a, b)); }
  }

  /** i128 saturation clamps exactly when it does not have to. */
  lemma SaturatingI128(op: ArithOp, a: int, b: int)
    requires !op.OMul? && I128(a) && I128(b)
    ensures (if InRange(128, true, Exact(op, a, b)) then Exact(op, a, b) else ClampLiteral(op, 128, true, b))
            == Clamp(128, true, Exact(op, a, b))
            <==> InRange(128, true, Exact(op, a, b))
  {
    hide Pow2;
    Doubling();
    HalfLarge();
  }

  /** The largest i128 plus one saturates to 0. */
  lemma SaturatingI128Fails()
    ensures var max := Pow2(127) - 1;
            I128(max) && I128(1) && ClampLiteral(OAdd, 128, true, 1) == 0
              && Clamp(128, true, Exact(OAdd, max, 1)) == max && max != 0
  {
    hide Pow2;
    HalfLarge();
  }

  lemma HalfLarge()
    ensures Pow2(127) > 1
  {
    Pow2Monotone(1, 127);
    assert Pow2(1) == 2;
  }
}

/** `carrying_mul_add`: a * b + c + d in double width. */
module CarryingMulAdd {
  import opened IntMath
  import opened CSemantics
  import opened Int128Division
  import opened Overflow

  /** Up to 64 bits: one widened expression, split into two halves. */
  method Narrow(bits: nat, signed: bool, a: int, b: int, c: int, d: int) returns (low: int, high: int)
    requires bits > 1
    requires InRange(bits, signed, a) && InRange(bits, signed, b) && InRange(bits, signed, c)
             && InRange(bits, signed, d)
    ensures InRange(bits, signed, low) && InRange(bits, signed, high)
    ensures high * Pow2(bits) + low % Pow2(bits) == a * b + c + d
  {
    var wide := Wrap(2 * bits, signed, a * b + c + d);
    low := Wrap(bits, signed, wide);
    high := Wrap(bits, signed, wide / Pow2(bits));
    NarrowExact(bits, signed, a, b, c, d);
  }

  lemma NarrowExact(bits: nat, signed: bool, a: int, b: int, c: int, d: int)
    requires bits > 1
    requires InRange(bits, signed, a) && InRange(bits, signed, b) && InRange(bits, signed, c)
             && InRange(bits, signed, d)
    ensures var e := a * b + c + d;
            var wide := Wrap(2 * bits, signed, e);
            Wrap(bits, signed, wide / Pow2(bits)) * Pow2(bits) + Wrap(bits, signed, wide) % Pow2(bits) == e
  {
    hide Wrap, Pow2, InRange;
    var e, m := a * b + c + d, Pow2(bits);
    WideExact(bits, signed, a, b, c, d);
    WrapCong(bits, signed, e);
    assert Wrap(bits, signed, e) % m == e % m;
    Recompose(e, m);
  }

  lemma Recompose(e: int, m: int)
    requires m > 0
    ensures e / m * m + e % m == e
  {
  }

  lemma WideExact(bits: nat, signed: bool, a: int, b: int, c: int, d: int)
    requires bits > 1
    requires InRange(bits, signed, a) && InRange(bits, signed, b) && InRange(bits, signed, c)
             && InRange(bits, signed, d)
    ensures var e := a * b + c + d;
            && Wrap(2 * bits, signed, e) == e
            && InRange(bits, signed, e / Pow2(bits)) && Wrap(bits, signed, e / Pow2(bits)) == e / Pow2(bits)
  {
    hide Wrap, Pow2;
    var m, h := Pow2(bits), Pow2(bits - 1);
    var e := a * b + c + d;
    Pow2Step(bits - 1);
    Pow2Monotone(1, bits - 1);
    Pow2Add(bits, bits);
    Pow2Add(bits, bits - 1);
    ExactRange(signed, h, m, a, b, c, d);
    WrapId(2 * bits, signed, e);
    QuotientRange(e, m, if signed then h else m, signed);
    WrapId(bits, signed, e / m);
  }

  lemma ExactRange(signed: bool, h: int, m: int, a: int, b: int, c: int, d: int)
    requires m == 2 * h && h >= 2
    requires if signed then -h <= a < h && -h <= b < h && -h <= c < h && -h <= d < h
             else 0 <= a < m && 0 <= b < m && 0 <= c < m && 0 <= d < m
    ensures var e := a * b + c + d; if signed then -(m * h) <= e < m * h else 0 <= e < m * m
  {
    if signed {
      ProductBound(a, b, h);
      MulMonotone(2, h, h);
      HalfSquare(m, h);
    } else {
      NatProduct(a, b, m - 1);
      assert (m - 1) * (m - 1) == m * m - 2 * m + 1;
    }
  }

  lemma HalfSquare(m: int, h: int)
    requires m == 2 * h
    ensures m * h == 2 * (h * h)
  {
  }

  lemma NatProduct(a: int, b: int, t: int)
    requires 0 <= a <= t && 0 <= b <= t
    ensures 0 <= a * b <= t * t
  {
    MulMonotone(a, t, b);
    MulMonotone(b, t, t);
    MulMonotone(0, a, b);
    assert t * b == b * t;
  }

  lemma QuotientRange(e: int, m: int, top: int, signed: bool)
    requires m > 0 && top > 0 && (if signed then -(m * top) <= e else 0 <= e) && e < m * top
    ensures (if signed then -top <= e / m else 0 <= e / m) && e / m < top
  {
    var q := e / m;
    assert e == q * m + e % m && m * top == top * m && (-top - 1) * m == -(top * m) - m;
    if q >= top { MulMonotone(top, q, m); }
    if signed && q < -top { MulMonotone(q, -top - 1, m); }
    if !signed && q < 0 { MulMonotone(q, -1, m); }
  }

  // uint128_t arithmetic
  function AddU(x: int, y: int): int { (x + y) % Pow2(128) }
  function MulU(x: int, y: int): int { (x * y) % Pow2(128) }

  /** One wrapped addition and its carry test, against either operand. */
  lemma CarryAdd(x: int, y: int, m: int)
    requires 0 <= x < m && 0 <= y < m
    ensures var s := (x + y) % m;
            && 0 <= s < m
            && x + y == s + (if s < y then m else 0)
            && (s < x <==> s < y)
  {
    if x + y < m { DivModUnique(x + y, m, 0, x + y); } else { DivModUnique(x + y, m, 1, x + y - m); }
  }

  lemma WordHalves(a: int)
    requires U128(a)
    ensures var m := Pow2(64);
            var hi, lo := Shr(a, 64) % m, a % m;
            a == hi * m + lo && 0 <= hi < m && 0 <= lo < m && m * m == Pow2(128) && m >= 1
  {
    hide Pow2;
    Pow2Add(64, 64);
    Halves(a, 64);
  }

  lemma HalfProduct(x: int, y: int, m: int)
    requires 0 <= x < m && 0 <= y < m
    ensures 0 <= x * y < m * m && (x * y) % (m * m) == x * y
  {
    MulMonotone(0, x, y);
    MulMonotone(x, m - 1, y);
    MulMonotone(y, m - 1, m);
    assert (m - 1) * y == y * (m - 1) <= y * m;
    assert (m - 1) * m < m * m;
    DivModUnique(x * y, m * m, 0, x * y);
  }

  /** `mid << 64` keeps the low half of mid. */
  lemma ShiftHalf(mid: int, m: int)
    requires m > 0 && mid >= 0 && m * m > 0
    ensures (mid * m) % (m * m) == (mid % m) * m && 0 <= (mid % m) * m < m * m
  {
    var q, r := mid / m, mid % m;
    assert mid * m == (q * m + r) * m == q * (m * m) + r * m;
    MulMonotone(0, r, m);
    MulMonotone(r, m - 1, m);
    assert (m - 1) * m < m * m;
    DivModUnique(mid * m, m * m, q, r * m);
  }

  /** The column sums of the schoolbook product. */
  lemma Columns(aHi: int, aLo: int, bHi: int, bLo: int, m: int, mid: int, cm: int, low: int, cl: int)
    requires m > 0
    requires aHi * bLo + aLo * bHi == mid + cm * (m * m)
    requires aLo * bLo + (mid % m) * m == low + cl * (m * m)
    ensures (aHi * m + aLo) * (bHi * m + bLo) == (aHi * bHi + mid / m + cm * m + cl) * (m * m) + low
  {
    var q, r := mid / m, mid % m;
    ExpandHalves(aHi, aLo, bHi, bLo, m);
    Middle(q, r, cm, m);
    Gather(aHi * bHi, q, cm * m, cl, m * m);
    Recompose(mid, m);
  }

  lemma ExpandHalves(aHi: int, aLo: int, bHi: int, bLo: int, m: int)
    ensures (aHi * m + aLo) * (bHi * m + bLo) == aHi * bHi * (m * m) + (aHi * bLo + aLo * bHi) * m + aLo * bLo
  {
    assert aHi * m * (bHi * m) == aHi * bHi * (m * m);
    assert aHi * m * bLo == aHi * bLo * m;
    assert aLo * (bHi * m) == aLo * bHi * m;
  }

  lemma Middle(q: int, r: int, cm: int, m: int)
    ensures (q * m + r + cm * (m * m)) * m == q * (m * m) + r * m + cm * m * (m * m)
  {
  }

  lemma Gather(p: int, q: int, c: int, cl: int, n: int)
    ensures p * n + q * n + c * n + cl * n == (p + q + c + cl) * n
  {
  }

  /** A value split as high * n + low, below n * n, has a high part below n. */
  lemma HighBelow(h: int, low: int, n: int, v: int)
    requires n > 0 && 0 <= low < n && v == h * n + low && 0 <= v < n * n
    ensures 0 <= h < n
  {
    if h < 0 { MulMonotone(h, -1, n); }
    if h >= n { MulMonotone(n, h, n); }
  }

  lemma ProductBelow(a: int, b: int, n: int)
    requires 0 <= a < n && 0 <= b < n
    ensures 0 <= a * b <= (n - 1) * (n - 1) && (n - 1) * (n - 1) == n * n - 2 * n + 1
  {
    MulMonotone(0, a, b);
    MulMonotone(a, n - 1, b);
    MulMonotone(b, n - 1, n - 1);
    assert (n - 1) * b == b * (n - 1);
  }

  /** A chain of wrapped additions equals the sum when the sum fits. */
  lemma ChainAdd(x: int, y: int, z: int, w: int)
    requires U128(x) && y >= 0 && z >= 0 && w >= 0 && U128(x + y + z + w)
    ensures AddU(AddU(AddU(x, y), z), w) == x + y + z + w
  {
    hide Pow2;
    DivModUnique(x + y, Pow2(128), 0, x + y);
    DivModUnique(x + y + z, Pow2(128), 0, x + y + z);
    DivModUnique(x + y + z + w, Pow2(128), 0, x + y + z + w);
  }

  /** low and high after the product, before the two additions. */
  lemma ProductSequence(a: int, b: int, mid: int, carryMid: int, low: int, carryLow: int, high: int)
    requires U128(a) && U128(b)
    requires var m := Pow2(64);
             var aLo, aHi, bLo, bHi := a % m, Shr(a, 64) % m, b % m, Shr(b, 64) % m;
             && mid == AddU(MulU(aHi, bLo), MulU(aLo, bHi))
             && carryMid == (if mid < MulU(aHi, bLo) then Shl(1, 64) else 0)
             && low == AddU(MulU(aLo, bLo), Shl(mid, 64))
             && carryLow == (if low < MulU(aLo, bLo) then 1 else 0)
             && high == AddU(AddU(AddU(MulU(aHi, bHi), Shr(mid, 64)), carryMid), carryLow)
    ensures U128(low) && U128(high) && high * Pow2(128) + low == a * b
  {
    hide Pow2;
    var m := Pow2(64);
    var aLo, aHi, bLo, bHi := a % m, Shr(a, 64) % m, b % m, Shr(b, 64) % m;
    WordHalves(a);
    WordHalves(b);
    HalfProduct(aLo, bLo, m);
    HalfProduct(aHi, bLo, m);
    HalfProduct(aLo, bHi, m);
    HalfProduct(aHi, bHi, m);
    CarryAdd(aHi * bLo, aLo * bHi, m * m);
    ShiftHalf(mid, m);
    CarryAdd(aLo * bLo, (mid % m) * m, m * m);
    ShlOne(m);
    var cm := if mid < aHi * bLo then 1 else 0;
    Columns(aHi, aLo, bHi, bLo, m, mid, cm, low, carryLow);
    var h := aHi * bHi + mid / m + cm * m + carryLow;
    ProductBelow(a, b, m * m);
    HighBelow(h, low, m * m, a * b);
    QuotientRange(mid, m, m, false);
    ChainAdd(aHi * bHi, mid / m, carryMid, carryLow);
  }

  lemma ShlOne(m: int)
    requires m == Pow2(64)
    ensures Shl(1, 64) == m && m >= 1
  {
    hide Pow2;
    Pow2Monotone(64, 127);
    Doubling();
    DivModUnique(m, Pow2(128), 0, m);
  }

  /** `low += c; if (low < c) high += 1;` */
  lemma Accumulate(high: int, low: int, c: int, v: int)
    requires U128(high) && U128(low) && U128(c) && v == high * Pow2(128) + low && 0 <= v + c < Pow2(128) * Pow2(128)
    ensures var low' := AddU(low, c);
            var high' := if low' < c then AddU(high, 1) else high;
            U128(low') && U128(high') && high' * Pow2(128) + low' == v + c
  {
    hide Pow2;
    var m := Pow2(128);
    CarryAdd(low, c, m);
    var low' := AddU(low, c);
    var h := if low' < c then high + 1 else high;
    assert v + c == h * m + low' by { assert (high + 1) * m == high * m + m; }
    HighBelow(h, low', m, v + c);
    DivModUnique(h, m, 0, h);
  }

  /** The emitted 128-bit sequence on the operands' bit patterns. */
  method Wide(a: int, b: int, c: int, d: int) returns (low: int, high: int)
    requires U128(a) && U128(b) && U128(c) && U128(d)
    ensures U128(low) && U128(high) && high * Pow2(128) + low == a * b + c + d
  {
    hide Pow2;
    var aLo, aHi := a % Pow2(64), Shr(a, 64) % Pow2(64);
    var bLo, bHi := b % Pow2(64), Shr(b, 64) % Pow2(64);
    var loLo := MulU(aLo, bLo);
    var hiLo := MulU(aHi, bLo);
    var loHi := MulU(aLo, bHi);
    var hiHi := MulU(aHi, bHi);
    var mid := AddU(hiLo, loHi);
    var carryMid := if mid < hiLo then Shl(1, 64) else 0;
    low := AddU(loLo, Shl(mid, 64));
    var carryLow := if low < loLo then 1 else 0;
    high := AddU(AddU(AddU(hiHi, Shr(mid, 64)), carryMid), carryLow);
    ProductSequence(a, b, mid, carryMid, low, carryLow, high);
    ProductBelow(a, b, Pow2(128));
    Accumulate(high, low, c, a * b);
    low := AddU(low, c);
    if low < c { high := AddU(high, 1); }
    Accumulate(high, low, d, a * b + c);
    low := AddU(low, d);
    if low < d { high := AddU(high, 1); }
  }

  // ----- the signed 128-bit case -----

  /** For i128 the sequence runs on the patterns; its low half is always the low
      half of the signed result, and its high half is right exactly when the
      corrections for the negative operands cancel. */
  method WideSigned(a: int, b: int, c: int, d: int) returns (low: int, high: int)
    requires I128(a) && I128(b) && I128(c) && I128(d)
    ensures low == Wrap(128, true, a * b + c + d)
    ensures high == Wrap(128, true, (a * b + c + d) / Pow2(128)) <==> Cong(Correction(a, b, c, d), 0, Pow2(128))
  {
    hide Pow2, Wrap;
    Patterns(a);
    Patterns(b);
    Patterns(c);
    Patterns(d);
    var l, h := Wide(Wrap(128, false, a), Wrap(128, false, b), Wrap(128, false, c), Wrap(128, false, d));
    low := Wrap(128, true, l);
    high := Wrap(128, true, h);
    SignedHalves(a, b, c, d, l, h);
  }

  function Sign(v: int): int { if v < 0 then 1 else 0 }

  function Correction(a: int, b: int, c: int, d: int): int {
    Sign(a) * b + Sign(b) * a + Sign(c) + Sign(d)
  }

  /** -1 * 1 + 0 + 0: the halves the sequence computes, unique by Wide's contract, end
      in a high half of 0 where -1 is meant. */
  lemma WideSignedFails(low: int, high: int)
    requires U128(low) && U128(high) && high * Pow2(128) + low == Wrap(128, false, -1) * Wrap(128, false, 1)
    ensures Wrap(128, true, high) == 0 && Wrap(128, true, (-1 * 1 + 0 + 0) / Pow2(128)) == -1
    ensures !Cong(Correction(-1, 1, 0, 0), 0, Pow2(128))
  {
    hide Pow2, Wrap;
    var m := Pow2(128);
    Doubling();
    HalfLarge();
    Patterns(-1);
    Patterns(1);
    DivModUnique(m - 1, m, high, low);
    DivModUnique(m - 1, m, 0, m - 1);
    DivModUnique(-1, m, -1, m - 1);
    WrapId(128, true, 0);
    WrapId(128, true, -1);
    DivModUnique(1, m, 0, 1);
    DivModUnique(0, m, 0, 0);
  }

  lemma Patterns(v: int)
    requires I128(v)
    ensures Wrap(128, false, v) == v + Sign(v) * Pow2(128) && U128(Wrap(128, false, v))
  {
    hide Pow2;
    PatternOf(v);
  }

  lemma SignedHalves(a: int, b: int, c: int, d: int, l: int, h: int)
    requires U128(l) && U128(h)
    requires var m := Pow2(128);
             h * m + l == (a + Sign(a) * m) * (b + Sign(b) * m) + (c + Sign(c) * m) + (d + Sign(d) * m)
    ensures Wrap(128, true, l) == Wrap(128, true, a * b + c + d)
    ensures Wrap(128, true, h) == Wrap(128, true, (a * b + c + d) / Pow2(128))
            <==> Cong(Correction(a, b, c, d), 0, Pow2(128))
  {
    hide Pow2, Wrap;
    var m := Pow2(128);
    var e, k := a * b + c + d, Correction(a, b, c, d);
    var g := e / m;
    Corrected(a, b, c, d, Sign(a), Sign(b), Sign(c), Sign(d), l, h, m);
    ModShift(l, g, m);
    WrapOfCong(128, true, l, e);
    WrapEqualIffCong(h, g);
    SubtractCong(h, k, g, m);
  }

  lemma Corrected(a: int, b: int, c: int, d: int, sa: int, sb: int, sc: int, sd: int, l: int, h: int, m: int)
    requires m > 0 && 0 <= l < m
    requires h * m + l == (a + sa * m) * (b + sb * m) + (c + sc * m) + (d + sd * m)
    ensures var e := a * b + c + d;
            var k := sa * b + sb * a + sc + sd;
            e == (e / m) * m + l && Cong(h - k, e / m, m)
  {
    var e := a * b + c + d;
    var k := sa * b + sb * a + sc + sd;
    var j := sa * sb;
    Expand(a, b, sa, sb, m);
    Collect(h, k, j, e, l, sc, sd, (a + sa * m) * (b + sb * m), a * b, sa * b + sb * a, c, d, m);
    Quotient(e, h - k, j, l, m);
  }

  lemma Quotient(e: int, x: int, j: int, l: int, m: int)
    requires m > 0 && 0 <= l < m && e == (x - j * m) * m + l
    ensures e == (e / m) * m + l && Cong(x, e / m, m)
  {
    DivModUnique(e, m, x - j * m, l);
    ModShift(x, -j, m);
  }

  lemma Expand(a: int, b: int, sa: int, sb: int, m: int)
    ensures (a + sa * m) * (b + sb * m) == a * b + (sa * b + sb * a) * m + (sa * sb * m) * m
  {
    assert (sa * m) * b == (sa * b) * m && a * (sb * m) == (sb * a) * m && (sa * m) * (sb * m) == (sa * sb * m) * m;
  }

  lemma Collect(h: int, k: int, j: int, e: int, l: int, sc: int, sd: int, p: int, ab: int, cross: int, c: int, d: int,
                m: int)
    requires p == ab + cross * m + (j * m) * m && k == cross + sc + sd && e == ab + c + d
    requires h * m + l == p + (c + sc * m) + (d + sd * m)
    ensures e == (h - k - j * m) * m + l
  {
    assert (h - k - j * m) * m == h * m - k * m - (j * m) * m;
    assert k * m == cross * m + sc * m + sd * m;
  }

  lemma WrapEqualIffCong(x: int, y: int)
    ensures Wrap(128, true, x) == Wrap(128, true, y) <==> Cong(x, y, Pow2(128))
  {
    hide Pow2, Wrap;
    WrapCong(128, true, x);
    WrapCong(128, true, y);
    if Cong(x, y, Pow2(128)) { WrapOfCong(128, true, x, y); }
  }

  lemma SubtractCong(h: int, k: int, g: int, m: int)
    requires m > 0 && Cong(h - k, g, m)
    ensures Cong(h, g, m) <==> Cong(k, 0, m)
  {
    if Cong(h, g, m) {
      CongAdd(h, g, h - k, g, m);
    }
    if Cong(k, 0, m) {
      CongAdd(h - k, g, k, 0, m);
    }
  }
}
