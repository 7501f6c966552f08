/** Mathematical integers as two's-complement bit patterns of any width. */
module IntMath {
  function Pow2(n: nat): (p: int)
    ensures p > 0
  {
    if n == 0 then 1 else 2 * Pow2(n - 1)
  }

  // ----- division with remainder -----

  lemma DivModUnique(x: int, m: int, q: int, r: int)
    requires 0 <= r < m && x == q * m + r
    ensures x / m == q && x % m == r
  {
    var d, e := x / m, x % m;
    assert x == d * m + e && 0 <= e < m;
    assert (q - d) * m == e - r;
    SmallMultiple(q - d, m);
  }

  lemma SmallMultiple(k: int, m: int)
    requires m > 0 && -m < k * m < m
    ensures k == 0
  {
    MulMonotone(if k > 0 then 1 else k, if k > 0 then k else 0, m);
    MulMonotone(if k < 0 then k else 0, if k < 0 then -1 else k, m);
  }

  lemma MulMonotone(a: int, b: int, m: int)
    requires a <= b && m >= 0
    ensures a * m <= b * m
  {
  }

  lemma QuotientSmall(a: int, b: int)
    requires a >= 0 && b > 0
    ensures 0 <= a / b <= a && 0 <= a % b <= a
  {
    var q, r := a / b, a % b;
    if q < 0 { MulMonotone(q, -1, b); }
    MulMonotone(1, b, q);
  }

  lemma ModShift(x: int, k: int, m: int)
    requires m > 0
    ensures (x + k * m) % m == x % m
    ensures (x + k * m) / m == x / m + k
  {
    var q, r := x / m, x % m;
    assert x + k * m == (q + k) * m + r;
    DivModUnique(x + k * m, m, q + k, r);
  }

  /** Congruence modulo m. */
  predicate Cong(x: int, y: int, m: int)
    requires m > 0
  {
    x % m == y % m
  }

  lemma CongWitness(x: int, y: int, m: int) returns (k: int)
    requires m > 0 && Cong(x, y, m)
    ensures x == y + k * m
  {
    k := x / m - y / m;
    assert x == (x / m) * m + x % m && y == (y / m) * m + y % m;
    assert x - y == (x / m) * m - (y / m) * m == k * m;
  }

  lemma CongMod(x: int, m: int)
    requires m > 0
    ensures Cong(x % m, x, m) && 0 <= x % m < m
  {
    DivModUnique(x % m, m, 0, x % m);
  }

  lemma CongAdd(a: int, b: int, c: int, d: int, m: int)
    requires m > 0 && Cong(a, b, m) && Cong(c, d, m)
    ensures Cong(a + c, b + d, m) && Cong(a - c, b - d, m)
  {
    hide Cong;
    var j := CongWitness(a, b, m);
    var k := CongWitness(c, d, m);
    Factored(j, k, m);
    CongFrom(a + c, b + d, j + k, m);
    CongFrom(a - c, b - d, j - k, m);
  }

  lemma Factored(j: int, k: int, m: int)
    ensures (j + k) * m == j * m + k * m && (j - k) * m == j * m - k * m
  {
  }

  lemma CongMul(a: int, b: int, c: int, d: int, m: int)
    requires m > 0 && Cong(a, b, m) && Cong(c, d, m)
    ensures Cong(a * c, b * d, m)
  {
    hide Cong;
    var j := CongWitness(a, b, m);
    var k := CongWitness(c, d, m);
    Expanded(a, b, c, d, j, k, m);
    CongFrom(a * c, b * d, b * k + j * d + j * k * m, m);
  }

  lemma CongTrans(x: int, y: int, z: int, m: int)
    requires m > 0 && (Cong(x, y, m) || x == y) && (Cong(y, z, m) || Cong(z, y, m))
    ensures Cong(x, z, m)
  {
  }

  lemma CongFrom(x: int, y: int, k: int, m: int)
    requires m > 0 && x == y + k * m
    ensures Cong(x, y, m)
  {
    ModShift(y, k, m);
  }

  lemma Expanded(a: int, b: int, c: int, d: int, j: int, k: int, m: int)
    requires a == b + j * m && c == d + k * m
    ensures a * c == b * d + (b * k + j * d + j * k * m) * m
  {
    assert b * (k * m) == (b * k) * m && (j * m) * d == (j * d) * m;
    assert (j * m) * (k * m) == (j * k * m) * m;
  }

  /** Congruence survives going to a divisor of the modulus. */
  lemma CongDivisor(x: int, y: int, m: int, k: int)
    requires m > 0 && k > 0 && m * k > 0 && Cong(x, y, m * k)
    ensures Cong(x, y, m)
  {
    var j := CongWitness(x, y, m * k);
    assert x == y + (j * k) * m;
    ModShift(y, j * k, m);
  }

  // ----- powers of two -----

  lemma Double(n: nat)
    requires n > 0
    ensures Pow2(n) == 2 * Pow2(n - 1)
  {
  }

  lemma {:induction false} Pow2Add(a: nat, b: nat)
    ensures Pow2(a + b) == Pow2(a) * Pow2(b)
  {
    if a != 0 {
      Pow2Add(a - 1, b);
      assert 2 * (Pow2(a - 1) * Pow2(b)) == (2 * Pow2(a - 1)) * Pow2(b);
    }
  }

  lemma {:induction false} Pow2Monotone(a: nat, b: nat)
    requires a <= b
    ensures Pow2(a) <= Pow2(b)
    decreases b
  {
    if a < b { Pow2Monotone(a, b - 1); }
  }

  lemma Pow2Strict(a: nat, b: nat)
    requires a < b
    ensures Pow2(a) < Pow2(b)
  {
    Pow2Monotone(a, b - 1);
  }

  /** The high half of a 2h-bit number fits h bits; the halves make the number. */
  lemma Halves(x: int, h: nat)
    requires 0 <= x < Pow2(2 * h)
    ensures x / Pow2(h) % Pow2(h) == x / Pow2(h) && 0 <= x / Pow2(h) < Pow2(h) && 0 <= x % Pow2(h) < Pow2(h)
    ensures x == x / Pow2(h) * Pow2(h) + x % Pow2(h)
  {
    hide Pow2;
    var p := Pow2(h);
    Pow2Add(h, h);
    var q := x / p;
    if q >= p { MulMonotone(p, q, p); }
    if q < 0 { MulMonotone(q, -1, p); }
    DivModUnique(q, p, 0, q);
  }

  lemma CongNarrow(x: int, y: int, w: nat, n: nat)
    requires n <= w && Cong(x, y, Pow2(w))
    ensures Cong(x, y, Pow2(n))
  {
    Pow2Add(n, w - n);
    CongDivisor(x, y, Pow2(n), Pow2(w - n));
  }

  // ----- two's complement -----

  /** The integer a `bits`-wide value of the given signedness has when its bit
      pattern is that of x. */
  function Wrap(bits: nat, signed: bool, x: int): (r: int)
    requires bits > 0
    ensures InRange(bits, signed, r)
  {
    var m := Pow2(bits);
    var p := x % m;
    if signed && p >= Pow2(bits - 1) then p - m else p
  }

  predicate InRange(bits: nat, signed: bool, v: int)
    requires bits > 0
  {
    if signed then -Pow2(bits - 1) <= v < Pow2(bits - 1) else 0 <= v < Pow2(bits)
  }

  lemma WrapCong(bits: nat, signed: bool, x: int)
    requires bits > 0
    ensures Cong(Wrap(bits, signed, x), x, Pow2(bits))
  {
    var m := Pow2(bits);
    CongMod(x, m);
    ModShift(x % m, -1, m);
  }

  lemma WrapCongNarrow(bits: nat, signed: bool, x: int, n: nat)
    requires 0 < n <= bits
    ensures Cong(Wrap(bits, signed, x), x, Pow2(n))
  {
    WrapCong(bits, signed, x);
    CongNarrow(Wrap(bits, signed, x), x, bits, n);
  }

  /** Representatives of one pattern in one type are equal. */
  lemma WrapUnique(bits: nat, signed: bool, x: int, v: int)
    requires bits > 0 && InRange(bits, signed, v) && Cong(v, x, Pow2(bits))
    ensures Wrap(bits, signed, x) == v
  {
    var m := Pow2(bits);
    if v >= 0 {
      DivModUnique(v, m, 0, v);
    } else {
      DivModUnique(v, m, -1, v + m);
    }
  }

  lemma WrapOfCong(bits: nat, signed: bool, x: int, y: int)
    requires bits > 0 && Cong(x, y, Pow2(bits))
    ensures Wrap(bits, signed, x) == Wrap(bits, signed, y)
  {
  }

  lemma WrapId(bits: nat, signed: bool, v: int)
    requires bits > 0 && InRange(bits, signed, v)
    ensures Wrap(bits, signed, v) == v
  {
    WrapUnique(bits, signed, v, v);
  }

  // ----- bits -----

  type Gate = (bool, bool) -> bool

  /** The low n bits of a bitwise operation on two's-complement integers. */
  function BitOp(g: Gate, a: int, b: int, n: nat): (r: int)
    ensures 0 <= r < Pow2(n)
    decreases n
  {
    if n == 0 then 0
    else (if g(a % 2 == 1, b % 2 == 1) then 1 else 0) + 2 * BitOp(g, a / 2, b / 2, n - 1)
  }

  function Bit(a: int, k: nat): bool
    decreases k
  {
    if k == 0 then a % 2 == 1 else Bit(a / 2, k - 1)
  }

  function And(): Gate { (p, q) => p && q }
  function Or(): Gate { (p, q) => p || q }
  function Xor(): Gate { (p, q) => p != q }
  function NotLeft(): Gate { (p, q) => !p }

  lemma {:induction false} BitOpBit(g: Gate, a: int, b: int, n: nat, k: nat)
    requires k < n
    ensures Bit(BitOp(g, a, b, n), k) == g(Bit(a, k), Bit(b, k))
    decreases n
  {
    var low, high := if g(a % 2 == 1, b % 2 == 1) then 1 else 0, BitOp(g, a / 2, b / 2, n - 1);
    DivModUnique(low + 2 * high, 2, high, low);
    if k > 0 { BitOpBit(g, a / 2, b / 2, n - 1, k - 1); }
  }

  /** Numbers below 2^n with the same n bits are equal. */
  lemma {:induction false} ComplementBits(a: int, n: nat)
    requires 0 <= a < Pow2(n)
    ensures BitOp(NotLeft(), a, 0, n) == Pow2(n) - 1 - a
    decreases n
  {
    if n > 0 { ComplementBits(a / 2, n - 1); }
  }

  lemma {:induction false} BitsDetermine(x: int, y: int, n: nat)
    requires 0 <= x < Pow2(n) && 0 <= y < Pow2(n)
    requires forall k: nat | k < n :: Bit(x, k) == Bit(y, k)
    ensures x == y
    decreases n
  {
    if n > 0 {
      assert Bit(x, 0) == Bit(y, 0);
      forall k: nat | k < n - 1 ensures Bit(x / 2, k) == Bit(y / 2, k) {
        assert Bit(x, k + 1) == Bit(y, k + 1);
      }
      BitsDetermine(x / 2, y / 2, n - 1);
    }
  }

  lemma HalfCong(x: int, y: int, n: nat)
    requires n > 0 && Cong(x, y, Pow2(n))
    ensures x % 2 == y % 2 && Cong(x / 2, y / 2, Pow2(n - 1))
  {
    var m := Pow2(n - 1);
    var k := CongWitness(x, y, Pow2(n));
    assert x == y + 2 * (k * m);
    assert x / 2 == y / 2 + k * m;
    ModShift(y / 2, k, m);
  }

  lemma {:induction false} BitCong(x: int, y: int, n: nat, k: nat)
    requires k < n && Cong(x, y, Pow2(n))
    ensures Bit(x, k) == Bit(y, k)
    decreases n
  {
    HalfCong(x, y, n);
    if k > 0 { BitCong(x / 2, y / 2, n - 1, k - 1); }
  }

  /** From bit n - 1 on an n-bit signed number repeats its sign; an n-bit unsigned
      one has zeros from bit n on. */
  lemma {:induction false} HighBits(v: int, n: nat, k: nat)
    requires n > 0 && ((InRange(n, true, v) && n - 1 <= k) || (InRange(n, false, v) && n <= k))
    ensures Bit(v, k) <==> v < 0
    decreases n
  {
    if n == 1 {
      assert Pow2(0) == 1 && Pow2(1) == 2;
      SignOnly(v, k);
    } else {
      HighBits(v / 2, n - 1, k - 1);
    }
  }

  lemma {:induction false} SignOnly(v: int, k: nat)
    requires -1 <= v <= 1 && (v == 1 ==> k > 0)
    ensures Bit(v, k) <==> v < 0
    decreases k
  {
    if k > 0 { SignOnly(v / 2, k - 1); }
  }

  lemma {:induction false} BitOpCong(g: Gate, a: int, b: int, c: int, d: int, n: nat)
    requires Cong(a, c, Pow2(n)) && Cong(b, d, Pow2(n))
    ensures BitOp(g, a, b, n) == BitOp(g, c, d, n)
    decreases n
  {
    if n > 0 {
      HalfCong(a, c, n);
      HalfCong(b, d, n);
      BitOpCong(g, a / 2, b / 2, c / 2, d / 2, n - 1);
    }
  }

  lemma {:induction false} BitOpNarrow(g: Gate, a: int, b: int, n: nat, w: nat)
    requires n <= w
    ensures Cong(BitOp(g, a, b, w), BitOp(g, a, b, n), Pow2(n))
    decreases n
  {
    if n > 0 {
      BitOpNarrow(g, a / 2, b / 2, n - 1, w - 1);
      var low := if g(a % 2 == 1, b % 2 == 1) then 1 else 0;
      CongLowBit(low, BitOp(g, a / 2, b / 2, w - 1), BitOp(g, a / 2, b / 2, n - 1), n);
    } else {
      CongOne(BitOp(g, a, b, w), BitOp(g, a, b, 0));
    }
  }

  lemma CongOne(x: int, y: int)
    ensures Cong(x, y, Pow2(0))
  {
  }

  lemma CongLowBit(low: int, x: int, y: int, n: nat)
    requires n > 0 && Cong(x, y, Pow2(n - 1))
    ensures Cong(low + 2 * x, low + 2 * y, Pow2(n))
  {
    hide Cong, Pow2;
    var k := CongWitness(x, y, Pow2(n - 1));
    Double(n);
    TwiceMultiple(k, Pow2(n - 1));
    CongFrom(low + 2 * x, low + 2 * y, k, Pow2(n));
  }

  lemma TwiceMultiple(k: int, m: int)
    ensures 2 * (k * m) == k * (2 * m)
  {
  }

  /** OR of numbers without a common bit is their sum: x is a multiple of 2^s and
      y lies below it. */
  lemma {:induction false} OrDisjoint(x: int, y: int, s: nat, n: nat)
    requires 0 <= y < Pow2(s) && s <= n
    ensures BitOp(Or(), x * Pow2(s), y, n) == (x * Pow2(s) + y) % Pow2(n)
    decreases n
  {
    if s == 0 {
      OrZero(x, n);
    } else {
      var h := x * Pow2(s - 1);
      var a := x * Pow2(s);
      assert a == 2 * h;
      OrDisjoint(x, y / 2, s - 1, n - 1);
      SplitLow(a + y, n);
      assert a / 2 == h && (a + y) / 2 == h + y / 2;
      assert BitOp(Or(), a, y, n) == y % 2 + 2 * BitOp(Or(), h, y / 2, n - 1);
    }
  }

  lemma {:induction false} OrZero(x: int, n: nat)
    ensures BitOp(Or(), x, 0, n) == x % Pow2(n)
    decreases n
  {
    if n > 0 {
      OrZero(x / 2, n - 1);
      SplitLow(x, n);
    }
  }

  lemma SplitLow(x: int, n: nat)
    requires n > 0
    ensures x % Pow2(n) == x % 2 + 2 * ((x / 2) % Pow2(n - 1))
  {
    var m := Pow2(n - 1);
    var q, r := (x / 2) / m, (x / 2) % m;
    assert x == 2 * (q * m + r) + x % 2;
    assert x == q * (2 * m) + (x % 2 + 2 * r) by { assert 2 * (q * m) == q * (2 * m); }
    DivModUnique(x, 2 * m, q, x % 2 + 2 * r);
  }

  lemma {:induction false} BitShift(x: int, s: nat, k: nat)
    ensures Bit(x / Pow2(s), k) == Bit(x, k + s)
    decreases s
  {
    if s > 0 {
      BitShift(x / 2, s - 1, k);
      DivDiv(x, 2, Pow2(s - 1));
    }
  }

  lemma DivDiv(x: int, a: int, b: int)
    requires a > 0 && b > 0 && a * b > 0
    ensures x / (a * b) == (x / a) / b
  {
    var q, r := x / a, x % a;
    var d, e := q / b, q % b;
    assert x == (d * b + e) * a + r == d * (a * b) + (e * a + r);
    assert 0 <= e * a + r < a * b by { MulMonotone(e, b - 1, a); }
    DivModUnique(x, a * b, d, e * a + r);
  }

  lemma {:induction false} AndZero(x: int, n: nat)
    ensures BitOp(And(), x, 0, n) == 0
    decreases n
  {
    if n > 0 { AndZero(x / 2, n - 1); }
  }

  lemma {:induction false} TopBit(x: int, n: nat)
    requires n > 0 && 0 <= x < Pow2(n)
    ensures Bit(x, n - 1) <==> x >= Pow2(n - 1)
    decreases n
  {
    if n > 1 { TopBit(x / 2, n - 1); }
  }
}
