/** The 128-bit division runtime. */
module Int128Division {
  import opened IntMath
  import opened CSemantics

  // unsigned __int128 operators
  function Shl(x: int, k: nat): int { (x * Pow2(k)) % Pow2(128) }
  function Shr(x: int, k: nat): int { x / Pow2(k) }
  function OrU(x: int, y: int): int { BitOp(Or(), x, y, 128) }
  function AndU(x: int, y: int): int { BitOp(And(), x, y, 128) }

  predicate U128(x: int) { 0 <= x < Pow2(128) }
  predicate I128(x: int) { -Pow2(127) <= x < Pow2(127) }

  lemma AndOne(x: int)
    ensures AndU(x, 1) == x % 2
  {
    AndZero(x / 2, 127);
    assert BitOp(And(), x, 1, 128) == (if x % 2 == 1 then 1 else 0) + 2 * BitOp(And(), x / 2, 0, 127);
  }

  /** n >> i has one more bit than n >> (i + 1). */
  lemma PeelBit(n: int, i: nat)
    ensures Shr(n, i) == 2 * Shr(n, i + 1) + Shr(n, i) % 2
  {
    DivDiv(n, Pow2(i), 2);
    assert Pow2(i) * 2 == Pow2(i + 1);
  }

  /** `(r << 1) | bit` neither overflows nor loses a bit when r <= n >> (i + 1). */
  lemma ShiftIn(n: int, r: int, i: nat)
    requires U128(n) && 0 <= r <= Shr(n, i + 1)
    ensures OrU(Shl(r, 1), AndU(Shr(n, i), 1)) == 2 * r + Shr(n, i) % 2
    ensures 2 * r + Shr(n, i) % 2 <= Shr(n, i) < Pow2(128)
  {
    hide Pow2, BitOp, Shr, AndU;
    PeelBit(n, i);
    AndOne(Shr(n, i));
    ShrBound(n, i);
    var bit := Shr(n, i) % 2;
    Pow2Step(0);
    DivModUnique(2 * r, Pow2(128), 0, 2 * r);
    OrDisjoint(r, bit, 1, 128);
    DivModUnique(r * 2 + bit, Pow2(128), 0, r * 2 + bit);
  }

  lemma ShrBound(n: int, i: nat)
    requires n >= 0
    ensures 0 <= Shr(n, i) <= n
  {
    var p, q := Pow2(i), n / Pow2(i);
    assert n == q * p + n % p;
    if q < 0 { MulMonotone(q, -1, p); }
    MulMonotone(1, p, q);
  }

  /** `q |= 1 << i` sets a bit that is still clear. */
  lemma SetBit(k: int, i: nat)
    requires i < 128 && 0 <= k && (2 * k) * Pow2(i) + Pow2(i) < Pow2(128)
    ensures OrU(k * Pow2(i + 1), Shl(1, i)) == (2 * k + 1) * Pow2(i)
  {
    hide Pow2, BitOp;
    Pow2Step(i);
    var p := Pow2(i);
    assert Shl(1, i) == p by { assert 1 * p == p; MulMonotone(0, 2 * k, p); DivModUnique(p, Pow2(128), 0, p); }
    assert k * Pow2(i + 1) == (2 * k) * p;
    MulMonotone(0, 2 * k, p);
    OrDisjoint(k, p, i + 1, 128);
    assert (2 * k) * p + p == (2 * k + 1) * p;
    DivModUnique((2 * k + 1) * p, Pow2(128), 0, (2 * k + 1) * p);
  }

  lemma Pow2Step(i: nat)
    ensures Pow2(i + 1) == 2 * Pow2(i) && Pow2(i) < Pow2(i + 1) && Pow2(1) == 2 && Pow2(0) == 1
  {
  }

  /** One step of long division: from the quotient and remainder of n >> (i + 1)
      to those of n >> i. */
  lemma DivideStep(n: int, d: int, i: nat)
    requires U128(n) && 0 < d
    ensures var k, r := Shr(n, i + 1) / d, Shr(n, i + 1) % d;
            var t := 2 * r + Shr(n, i) % 2;
            && 0 <= k && 0 <= r <= Shr(n, i + 1)
            && (t >= d ==> Shr(n, i) / d == 2 * k + 1 && Shr(n, i) % d == t - d)
            && (t < d ==> Shr(n, i) / d == 2 * k && Shr(n, i) % d == t)
  {
    hide Pow2, Shr;
    PeelBit(n, i);
    ShrBound(n, i + 1);
    var h := Shr(n, i + 1);
    var k, r := h / d, h % d;
    if k < 0 { MulMonotone(k, -1, d); }
    MulMonotone(0, k, d);
    var t := 2 * r + Shr(n, i) % 2;
    assert Shr(n, i) == (2 * k) * d + t;
    if t >= d {
      DivModUnique(Shr(n, i), d, 2 * k + 1, t - d);
    } else {
      DivModUnique(Shr(n, i), d, 2 * k, t);
    }
  }

  lemma QuotientRoom(n: int, d: int, i: nat)
    requires U128(n) && 0 < d
    ensures 0 <= (Shr(n, i) / d) * Pow2(i) < Pow2(128)
  {
    hide Pow2;
    ShrBound(n, i);
    QuotientSmall(Shr(n, i), d);
    var q, p := Shr(n, i) / d, Pow2(i);
    MulMonotone(q, Shr(n, i), p);
    MulMonotone(0, q, p);
    assert n == (n / p) * p + n % p;
  }

  predicate HighWordClear(n: int, d: int) {
    Shr(n, 64) % Pow2(64) == 0 && Shr(d, 64) % Pow2(64) == 0
  }

  /** The 64-bit fast path computes on the whole values. */
  lemma FastPath(n: int)
    requires U128(n) && Shr(n, 64) % Pow2(64) == 0
    ensures n % Pow2(64) == n
  {
    Pow2Add(64, 64);
    var q := n / Pow2(64);
    assert n == q * Pow2(64) + n % Pow2(64);
    if q < 0 { MulMonotone(q, -1, Pow2(64)); }
    if q >= Pow2(64) { MulMonotone(Pow2(64), q, Pow2(64)); }
    DivModUnique(q, Pow2(64), 0, q);
  }

  method UDivTi3(n: int, d: int) returns (q: int)
    requires U128(n) && U128(d) && d != 0
    ensures q == n / d
  {
    hide Pow2, BitOp;
    if HighWordClear(n, d) {
      FastPath(n);
      FastPath(d);
      return (n % Pow2(64)) / (d % Pow2(64));
    }
    q := 0;
    var r := 0;
    var i := 127;
    Begin(n, d);
    while i >= 0
      invariant -1 <= i <= 127
      invariant q == (Shr(n, i + 1) / d) * Pow2(i + 1)
      invariant r == Shr(n, i + 1) % d
    {
      DivideRound(n, d, i);
      r := OrU(Shl(r, 1), AndU(Shr(n, i), 1));
      if r >= d {
        r := r - d;
        q := OrU(q, Shl(1, i));
      }
      i := i - 1;
    }
    Finish(n, d);
  }

  lemma Begin(n: int, d: int)
    requires U128(n) && d > 0
    ensures Shr(n, 128) == 0 && 0 / d == 0 && 0 % d == 0 && (Shr(n, 128) / d) * Pow2(128) == 0
  {
    hide Pow2;
    DivModUnique(n, Pow2(128), 0, n);
    DivModUnique(0, d, 0, 0);
  }

  lemma Finish(n: int, d: int)
    requires d > 0
    ensures Shr(n, 0) == n && (Shr(n, 0) / d) * Pow2(0) == n / d
  {
  }

  /** One round of the loop, on the values the loop holds. */
  lemma DivideRound(n: int, d: int, i: nat)
    requires U128(n) && 0 < d && i < 128
    ensures var q, r := (Shr(n, i + 1) / d) * Pow2(i + 1), Shr(n, i + 1) % d;
            var t := OrU(Shl(r, 1), AndU(Shr(n, i), 1));
            && Shr(n, i) % d == (if t >= d then t - d else t)
            && (Shr(n, i) / d) * Pow2(i) == (if t >= d then OrU(q, Shl(1, i)) else q)
  {
    hide Pow2, BitOp, Shr, OrU, AndU, Shl;
    DivideStep(n, d, i);
    QuotientRoom(n, d, i);
    var k, r := Shr(n, i + 1) / d, Shr(n, i + 1) % d;
    ShiftIn(n, r, i);
    if OrU(Shl(r, 1), AndU(Shr(n, i), 1)) >= d {
      RoundUp(k, i, Shr(n, i) / d);
    } else {
      RoundDown(k, i, Shr(n, i) / d);
    }
  }

  lemma RoundUp(k: int, i: nat, q: int)
    requires k >= 0 && i < 128 && q == 2 * k + 1 && q * Pow2(i) < Pow2(128)
    ensures OrU(k * Pow2(i + 1), Shl(1, i)) == q * Pow2(i)
  {
    hide Pow2, OrU, Shl;
    assert q * Pow2(i) == (2 * k) * Pow2(i) + Pow2(i);
    SetBit(k, i);
  }

  lemma RoundDown(k: int, i: nat, q: int)
    requires q == 2 * k
    ensures k * Pow2(i + 1) == q * Pow2(i)
  {
    hide Pow2;
    Pow2Step(i);
    assert k * (2 * Pow2(i)) == (2 * k) * Pow2(i);
  }

  method UModTi3(n: int, d: int) returns (r: int)
    requires U128(n) && U128(d) && d != 0
    ensures r == n % d
  {
    hide Pow2, BitOp;
    if HighWordClear(n, d) {
      FastPath(n);
      FastPath(d);
      return (n % Pow2(64)) % (d % Pow2(64));
    }
    r := 0;
    var i := 127;
    Begin(n, d);
    while i >= 0
      invariant -1 <= i <= 127
      invariant r == Shr(n, i + 1) % d
    {
      DivideRound(n, d, i);
      r := OrU(Shl(r, 1), AndU(Shr(n, i), 1));
      if r >= d {
        r := r - d;
      }
      i := i - 1;
    }
    Finish(n, d);
  }

  // ----- signed division -----

  /** `n < 0 ? -(u128)n : (u128)n`. */
  function Magnitude(n: int): int {
    if n < 0 then (-(n % Pow2(128))) % Pow2(128) else n % Pow2(128)
  }

  lemma MagnitudeIsAbs(n: int)
    requires I128(n)
    ensures Magnitude(n) == Abs(n) && U128(Abs(n))
  {
    if n < 0 {
      DivModUnique(n, Pow2(128), -1, n + Pow2(128));
      DivModUnique(-(n + Pow2(128)), Pow2(128), -1, -n);
    } else {
      DivModUnique(n, Pow2(128), 0, n);
    }
  }

  /** `neg ? -(i128)u : (i128)u` is the wrapped signed value. */
  lemma SignBack(neg: bool, u: int)
    ensures (if neg then Wrap(128, true, -Wrap(128, true, u)) else Wrap(128, true, u))
            == Wrap(128, true, if neg then -u else u)
  {
    hide Wrap, Pow2;
    if neg {
      WrapCong(128, true, u);
      CongAdd(0, 0, Wrap(128, true, u), u, Pow2(128));
      WrapOfCong(128, true, -Wrap(128, true, u), -u);
    }
  }

  /** No other quotient and remainder satisfy TruncatingDivision. */
  lemma TruncatingUnique(n: int, d: int, q: int, r: int)
    requires d != 0 && n == q * d + r && Abs(r) < Abs(d) && (r == 0 || (r < 0 <==> n < 0))
    ensures q == TruncDiv(n, d) && r == TruncRem(n, d)
  {
    hide TruncDiv, TruncRem;
    TruncatingDivision(n, d);
    var q', r' := TruncDiv(n, d), TruncRem(n, d);
    Difference(q, q', d, r, r');
    if d > 0 { SmallMultiple(q - q', d); } else { SmallMultiple(q - q', -d); }
  }

  /** Two ways of writing a number differ by a multiple of the divisor. */
  lemma Difference(q: int, q': int, d: int, r: int, r': int)
    requires q * d + r == q' * d + r'
    ensures (q - q') * d == r' - r && (q - q') * -d == r - r'
  {
  }

  method DivTi3(n: int, d: int) returns (q: int)
    requires I128(n) && I128(d) && d != 0
    ensures q == Wrap(128, true, TruncDiv(n, d))
    ensures !(n == -Pow2(127) && d == -1) ==> q == TruncDiv(n, d)
    ensures n == -Pow2(127) && d == -1 ==> q == n
  {
    var neg := (n < 0) != (d < 0);
    var un := Magnitude(n);
    var ud := Magnitude(d);
    MagnitudeIsAbs(n);
    MagnitudeIsAbs(d);
    var uq := UDivTi3(un, ud);
    q := if neg then Wrap(128, true, -Wrap(128, true, uq)) else Wrap(128, true, uq);
    SignBack(neg, uq);
    TruncatingDivision(n, d);
    QuotientFits(n, d);
  }

  lemma QuotientFits(n: int, d: int)
    requires I128(n) && I128(d) && d != 0
    ensures !(n == -Pow2(127) && d == -1) ==> Wrap(128, true, TruncDiv(n, d)) == TruncDiv(n, d)
    ensures n == -Pow2(127) && d == -1 ==> Wrap(128, true, TruncDiv(n, d)) == n
    ensures Wrap(128, true, TruncRem(n, d)) == TruncRem(n, d)
  {
    hide Pow2, Wrap, TruncDiv, TruncRem;
    TruncatingDivision(n, d);
    var q, r := TruncDiv(n, d), TruncRem(n, d);
    Doubling();
    WrapId(128, true, r);
    if n == -Pow2(127) && d == -1 {
      DivModUnique(Pow2(127), 1, Pow2(127), 0);
      ModShift(n, 1, Pow2(128));
      WrapOfCong(128, true, n + Pow2(128), n);
      WrapId(128, true, n);
    } else {
      HalfUnlessUnit(Abs(n), Abs(d));
      WrapId(128, true, q);
    }
  }

  lemma HalfUnlessUnit(a: int, d: int)
    requires a >= 0 && d > 0
    ensures 0 <= a / d <= a && (d > 1 ==> 2 * (a / d) <= a) && (d == 1 ==> a / d == a)
  {
    QuotientSmall(a, d);
    var k := a / d;
    assert a == k * d + a % d;
    if d > 1 { MulMonotone(2, d, k); }
  }

  lemma Doubling()
    ensures 2 * Pow2(127) == Pow2(128)
  {
  }

  method ModTi3(n: int, d: int) returns (r: int)
    requires I128(n) && I128(d) && d != 0
    ensures r == TruncRem(n, d)
  {
    var neg := n < 0;
    var un := Magnitude(n);
    var ud := Magnitude(d);
    MagnitudeIsAbs(n);
    MagnitudeIsAbs(d);
    var ur := UModTi3(un, ud);
    r := if neg then Wrap(128, true, -Wrap(128, true, ur)) else Wrap(128, true, ur);
    SignBack(neg, ur);
    TruncatingDivision(n, d);
    QuotientFits(n, d);
  }
}
