/** Counting and permuting bits: the runtime helpers and the expressions the
    intrinsics emit around them, against bit-by-bit definitions. */
module BitCounting {
  import opened IntMath

  // ----- bit-by-bit definitions, on two's-complement integers -----

  function LeadingZeros(x: int, n: nat): nat {
    if n == 0 || Bit(x, n - 1) then 0 else 1 + LeadingZeros(x, n - 1)
  }

  function TrailingZeros(x: int, n: nat): nat
    decreases n
  {
    if n == 0 || x % 2 == 1 then 0 else 1 + TrailingZeros(x / 2, n - 1)
  }

  function Ones(x: int, n: nat): nat
    decreases n
  {
    if n == 0 then 0 else x % 2 + Ones(x / 2, n - 1)
  }

  // ----- masks -----

  lemma {:induction false} BitOpSplit(g: Gate, x: int, y: int, n: nat, m: nat)
    ensures BitOp(g, x, y, n + m) == BitOp(g, x, y, n) + Pow2(n) * BitOp(g, x / Pow2(n), y / Pow2(n), m)
    decreases n
  {
    if n > 0 {
      BitOpSplit(g, x / 2, y / 2, n - 1, m);
      BitOpSplitStep(g, x, y, n, m);
    }
  }

  lemma BitOpSplitStep(g: Gate, x: int, y: int, n: nat, m: nat)
    requires n > 0
    requires BitOp(g, x / 2, y / 2, n - 1 + m)
             == BitOp(g, x / 2, y / 2, n - 1) + Pow2(n - 1) * BitOp(g, x / 2 / Pow2(n - 1), y / 2 / Pow2(n - 1), m)
    ensures BitOp(g, x, y, n + m) == BitOp(g, x, y, n) + Pow2(n) * BitOp(g, x / Pow2(n), y / Pow2(n), m)
  {
    hide Pow2, BitOp;
    var p := Pow2(n - 1);
    Double(n);
    HalfFirst(x, p);
    HalfFirst(y, p);
    assert x / Pow2(n) == x / 2 / p && y / Pow2(n) == y / 2 / p;
    Unfold(g, x, y, n + m);
    Unfold(g, x, y, n);
    var h := BitOp(g, x / Pow2(n), y / Pow2(n), m);
    var l := BitOp(g, x / 2, y / 2, n - 1);
    assert BitOp(g, x / 2, y / 2, n + m - 1) == l + p * h;
    Doubled(l, p, h);
  }

  lemma Doubled(l: int, p: int, h: int)
    ensures 2 * (l + p * h) == 2 * l + 2 * p * h
  {
  }

  lemma Unfold(g: Gate, x: int, y: int, n: nat)
    requires n > 0
    ensures BitOp(g, x, y, n) == (if g(x % 2 == 1, y % 2 == 1) then 1 else 0) + 2 * BitOp(g, x / 2, y / 2, n - 1)
  {
  }

  lemma HalfFirst(x: int, p: int)
    requires p > 0
    ensures x / (2 * p) == x / 2 / p
  {
    DivDiv(x, 2, p);
  }

  /** x AND the n low ones keeps the n low bits. */
  lemma {:induction false} LowMask(x: int, n: nat, m: nat)
    ensures BitOp(And(), x, Pow2(n) - 1, n + m) == x % Pow2(n)
    decreases n
  {
    if n == 0 {
      AndZero(x, m);
    } else {
      LowMask(x / 2, n - 1, m);
      LowMaskStep(x, n, m);
    }
  }

  lemma LowMaskStep(x: int, n: nat, m: nat)
    requires n > 0 && BitOp(And(), x / 2, Pow2(n - 1) - 1, n - 1 + m) == x / 2 % Pow2(n - 1)
    ensures BitOp(And(), x, Pow2(n) - 1, n + m) == x % Pow2(n)
  {
    hide Pow2, BitOp;
    var p := Pow2(n - 1);
    SplitLow(x, n);
    Double(n);
    assert (Pow2(n) - 1) % 2 == 1 && (Pow2(n) - 1) / 2 == p - 1;
    Unfold(And(), x, Pow2(n) - 1, n + m);
  }

  /** x AND the ones from n upward is zero exactly for the numbers below 2^n. */
  lemma {:induction false} HighMask(x: int, n: nat, m: nat)
    requires 0 <= x < Pow2(n + m)
    ensures BitOp(And(), x, Pow2(n + m) - Pow2(n), n + m) == 0 <==> x < Pow2(n)
    decreases n
  {
    if n == 0 {
      LowMask(x, m, 0);
      DivModUnique(x, Pow2(m), 0, x);
    } else {
      HighMask(x / 2, n - 1, m);
      assert Pow2(n + m) - Pow2(n) == 2 * (Pow2(n - 1 + m) - Pow2(n - 1));
    }
  }

  // ----- leading zeros -----

  /** The count is where the number lies between powers of two. */
  lemma {:induction false} LeadingZerosRange(x: int, n: nat, k: nat)
    requires k < n && Pow2(n - 1 - k) <= x < Pow2(n - k)
    ensures LeadingZeros(x, n) == k
    decreases n
  {
    hide Bit;
    Pow2Monotone(n - k, n);
    TopBit(x, n);
    if k == 0 {
    } else {
      Pow2Monotone(n - k, n - 1);
      LeadingZerosRange(x, n - 1, k - 1);
    }
  }

  /** x0 shifted left n places to x, with fewer than w zeros left above. */
  ghost predicate Shifted(x0: int, x: int, n: nat, w: nat)
    requires w <= 32
  {
    x == x0 * Pow2(n) && Pow2(32 - w) <= x < Pow2(32) && n + w <= 32
  }

  lemma ShiftStep(x0: int, x: int, n: nat, w: nat)
    requires 2 * w <= 32 && Shifted(x0, x, n, 2 * w)
    ensures BitOp(And(), x, Pow2(32) - Pow2(32 - w), 32) == 0 <==> x < Pow2(32 - w)
    ensures if x < Pow2(32 - w) then Shifted(x0, x * Pow2(w), n + w, w) && x * Pow2(w) % Pow2(32) == x * Pow2(w)
            else Shifted(x0, x, n, w)
  {
    hide Pow2, BitOp;
    HighMask(x, 32 - w, w);
    if x < Pow2(32 - w) { ShiftMore(x0, x, n, w); }
  }

  lemma ShiftMore(x0: int, x: int, n: nat, w: nat)
    requires 2 * w <= 32 && Shifted(x0, x, n, 2 * w) && x < Pow2(32 - w)
    ensures Shifted(x0, x * Pow2(w), n + w, w) && x * Pow2(w) % Pow2(32) == x * Pow2(w)
  {
    hide Pow2;
    var p := Pow2(w);
    Pow2Add(n, w);
    Pow2Add(32 - 2 * w, w);
    Pow2Add(32 - w, w);
    Reassociate(x0, Pow2(n), p);
    MulMonotone(Pow2(32 - 2 * w), x, p);
    MulStrict(x, Pow2(32 - w), p);
    DivModUnique(x * p, Pow2(32), 0, x * p);
  }

  lemma Reassociate(a: int, b: int, c: int)
    ensures a * b * c == a * (b * c)
  {
  }

  lemma MulStrict(a: int, b: int, m: int)
    requires a < b && m > 0
    ensures a * m < b * m
  {
    MulMonotone(a + 1, b, m);
  }

  lemma ShiftedCount(x0: int, x: int, n: nat)
    requires x0 > 0 && Shifted(x0, x, n, 1)
    ensures LeadingZeros(x0, 32) == n
  {
    hide Pow2;
    Pow2Add(31 - n, n);
    Pow2Add(32 - n, n);
    if x0 < Pow2(31 - n) { MulStrict(x0, Pow2(31 - n), Pow2(n)); }
    if x0 >= Pow2(32 - n) { MulMonotone(Pow2(32 - n), x0, Pow2(n)); }
    LeadingZerosRange(x0, 32, n);
  }

  lemma SmallPow2()
    ensures Pow2(1) == 2 && Pow2(2) == 4 && Pow2(4) == 16 && Pow2(8) == 0x100 && Pow2(16) == 0x1_0000
    ensures Pow2(24) == 0x100_0000 && Pow2(28) == 0x1000_0000 && Pow2(30) == 0x4000_0000 && Pow2(31) == 0x8000_0000
    ensures Pow2(32) == 0x1_0000_0000 && Pow2(48) == 0x1_0000_0000_0000 && Pow2(56) == 0x100_0000_0000_0000
            && Pow2(64) == 0x1_0000_0000_0000_0000
  {
    assert Pow2(8) == 256;
    Pow2Add(8, 8);
    Pow2Add(16, 8);
    Pow2Add(24, 4);
    Pow2Add(28, 2);
    Pow2Add(28, 3);
    Pow2Add(16, 16);
    Pow2Add(32, 16);
    Pow2Add(48, 8);
    Pow2Add(32, 32);
  }

  /** `__rustc_clz32`; on zero it counts 31. */
  method Clz32(x0: int) returns (n: nat)
    requires 0 <= x0 < Pow2(32)
    ensures x0 > 0 ==> n == LeadingZeros(x0, 32)
    ensures x0 == 0 ==> n == 31
  {
    hide Pow2, BitOp, LeadingZeros, Shifted;
    SmallPow2();
    var x := x0;
    n := 0;
    ghost var pos := x0 > 0;
    AndZeroLeft(32);
    if pos { StartShifted(x0); ShiftStep(x0, x, n, 16); }
    if BitOp(And(), x, 0xFFFF_0000, 32) == 0 {
      n, x := n + 16, x * Pow2(16) % Pow2(32);
    }
    if pos { ShiftStep(x0, x, n, 8); }
    if BitOp(And(), x, 0xFF00_0000, 32) == 0 {
      n, x := n + 8, x * Pow2(8) % Pow2(32);
    }
    if pos { ShiftStep(x0, x, n, 4); }
    if BitOp(And(), x, 0xF000_0000, 32) == 0 {
      n, x := n + 4, x * Pow2(4) % Pow2(32);
    }
    if pos { ShiftStep(x0, x, n, 2); }
    if BitOp(And(), x, 0xC000_0000, 32) == 0 {
      n, x := n + 2, x * Pow2(2) % Pow2(32);
    }
    if pos { ShiftStep(x0, x, n, 1); }
    if BitOp(And(), x, 0x8000_0000, 32) == 0 {
      n := n + 1;
      if pos { ShiftedCount(x0, x * Pow2(1), n); }
    } else {
      if pos { ShiftedCount(x0, x, n); }
    }
  }

  lemma {:induction false} AndZeroLeft(n: nat)
    ensures forall m: int :: BitOp(And(), 0, m, n) == 0
  {
    forall m: int ensures BitOp(And(), 0, m, n) == 0 {
      ZeroAnd(m, n);
    }
  }

  lemma {:induction false} ZeroAnd(m: int, n: nat)
    ensures BitOp(And(), 0, m, n) == 0
    decreases n
  {
    if n > 0 { ZeroAnd(m / 2, n - 1); }
  }

  lemma StartShifted(x0: int)
    requires 0 < x0 < Pow2(32)
    ensures Shifted(x0, x0, 0, 32)
  {
  }

  // ----- trailing zeros -----

  lemma {:induction false} TrailingZerosShift(x: int, n: nat, m: nat)
    requires x % 2 == 1 && n < m
    ensures TrailingZeros(x * Pow2(n), m) == n
    decreases n
  {
    if n > 0 {
      TrailingZerosShift(x, n - 1, m - 1);
      assert x * Pow2(n) == 2 * (x * Pow2(n - 1));
    }
  }

  /** x0 shifted right n places to x, with a one among the low w bits. */
  ghost predicate Lowered(x0: int, x: int, n: nat, w: nat) {
    x0 == x * Pow2(n) && 0 < x < Pow2(32) && x % Pow2(w) != 0 && n + w <= 32
  }

  lemma LowerStep(x0: int, x: int, n: nat, w: nat)
    requires 2 * w <= 32 && Lowered(x0, x, n, 2 * w)
    ensures BitOp(And(), x, Pow2(w) - 1, 32) == x % Pow2(w)
    ensures if x % Pow2(w) == 0 then Lowered(x0, x / Pow2(w), n + w, w) else Lowered(x0, x, n, w)
  {
    hide Pow2, BitOp;
    LowMask(x, w, 32 - w);
    if x % Pow2(w) == 0 { LowerMore(x0, x, n, w); }
  }

  lemma LowerMore(x0: int, x: int, n: nat, w: nat)
    requires 2 * w <= 32 && Lowered(x0, x, n, 2 * w) && x % Pow2(w) == 0
    ensures Lowered(x0, x / Pow2(w), n + w, w)
  {
    hide Pow2;
    var p := Pow2(w);
    var y := x / p;
    Pow2Add(n, w);
    Pow2Add(w, w);
    assert x == y * p;
    assert x0 == y * Pow2(n + w) by { assert y * p * Pow2(n) == y * (Pow2(n) * p); }
    if y % p == 0 {
      var z := y / p;
      assert x == z * (p * p) by { assert z * p * p == z * (p * p); }
      DivModUnique(x, Pow2(2 * w), z, 0);
    }
    if y <= 0 { MulMonotone(y, 0, p); }
    if y >= Pow2(32) { MulMonotone(1, p, y); }
  }

  lemma LoweredCount(x0: int, x: int, n: nat)
    requires Lowered(x0, x, n, 1)
    ensures TrailingZeros(x0, 32) == n
  {
    SmallPow2();
    TrailingZerosShift(x, n, 32);
  }

  lemma StartLowered(x0: int)
    requires 0 < x0 < Pow2(32)
    ensures Lowered(x0, x0, 0, 32)
  {
    DivModUnique(x0, Pow2(32), 0, x0);
  }

  /** `__rustc_ctz32`; on zero it counts 31. */
  method Ctz32(x0: int) returns (n: nat)
    requires 0 <= x0 < Pow2(32)
    ensures x0 > 0 ==> n == TrailingZeros(x0, 32)
    ensures x0 == 0 ==> n == 31
  {
    hide Pow2, BitOp, TrailingZeros, Lowered;
    SmallPow2();
    var x := x0;
    n := 0;
    ghost var pos := x0 > 0;
    AndZeroLeft(32);
    if pos { StartLowered(x0); LowerStep(x0, x, n, 16); }
    if BitOp(And(), x, 0x0000_FFFF, 32) == 0 {
      n, x := n + 16, x / Pow2(16);
    }
    if pos { LowerStep(x0, x, n, 8); }
    if BitOp(And(), x, 0x0000_00FF, 32) == 0 {
      n, x := n + 8, x / Pow2(8);
    }
    if pos { LowerStep(x0, x, n, 4); }
    if BitOp(And(), x, 0x0000_000F, 32) == 0 {
      n, x := n + 4, x / Pow2(4);
    }
    if pos { LowerStep(x0, x, n, 2); }
    if BitOp(And(), x, 0x0000_0003, 32) == 0 {
      n, x := n + 2, x / Pow2(2);
    }
    if pos { LowerStep(x0, x, n, 1); }
    if BitOp(And(), x, 0x0000_0001, 32) == 0 {
      n := n + 1;
      if pos { LoweredCount(x0, x / Pow2(1), n); }
    } else {
      if pos { LoweredCount(x0, x, n); }
    }
  }

  // ----- splitting a number in two -----

  lemma {:induction false} LeadingZerosSplit(x: int, n: nat, m: nat)
    requires 0 <= x < Pow2(n + m)
    ensures LeadingZeros(x, n + m) == if x / Pow2(m) != 0 then LeadingZeros(x / Pow2(m), n) else n + LeadingZeros(x, m)
    decreases n
  {
    hide Bit;
    var p := Pow2(m);
    if n == 0 {
      DivModUnique(x, p, 0, x);
    } else {
      BitShift(x, m, n - 1);
      TopBit(x, n + m);
      if Bit(x, n + m - 1) {
        Pow2Monotone(m, n + m - 1);
        MulMonotone(1, x / p, p);
      } else {
        LeadingZerosSplit(x, n - 1, m);
      }
    }
  }

  lemma {:induction false} LeadingZerosCong(x: int, y: int, n: nat, w: nat)
    requires n <= w && Cong(x, y, Pow2(w))
    ensures LeadingZeros(x, n) == LeadingZeros(y, n)
    decreases n
  {
    hide Pow2, Cong;
    if n > 0 {
      BitCong(x, y, w, n - 1);
      LeadingZerosCong(x, y, n - 1, w);
    }
  }

  lemma {:induction false} LeadingZerosOfZero(n: nat)
    ensures LeadingZeros(0, n) == n
  {
    if n > 0 {
      BitOfZero(n - 1);
      LeadingZerosOfZero(n - 1);
    }
  }

  lemma {:induction false} BitOfZero(k: nat)
    ensures !Bit(0, k)
  {
    if k > 0 { BitOfZero(k - 1); }
  }

  lemma {:induction false} TrailingZerosSplit(x: int, m: nat, n: nat)
    ensures TrailingZeros(x, m + n)
            == if x % Pow2(m) != 0 then TrailingZeros(x, m) else m + TrailingZeros(x / Pow2(m), n)
    decreases m
  {
    if m > 0 {
      TrailingZerosSplit(x / 2, m - 1, n);
      SplitLow(x, m);
      DivDiv(x, 2, Pow2(m - 1));
    }
  }

  lemma {:induction false} TrailingZerosCong(x: int, y: int, n: nat)
    requires Cong(x, y, Pow2(n))
    ensures TrailingZeros(x, n) == TrailingZeros(y, n)
    decreases n
  {
    if n > 0 {
      HalfCong(x, y, n);
      TrailingZerosCong(x / 2, y / 2, n - 1);
    }
  }

  lemma {:induction false} TrailingZerosOfZero(n: nat)
    ensures TrailingZeros(0, n) == n
  {
    if n > 0 { TrailingZerosOfZero(n - 1); }
  }

  lemma {:induction false} OnesSplit(x: int, m: nat, n: nat)
    ensures Ones(x, m + n) == Ones(x, m) + Ones(x / Pow2(m), n)
    decreases m
  {
    if m > 0 {
      OnesSplit(x / 2, m - 1, n);
      DivDiv(x, 2, Pow2(m - 1));
    }
  }

  lemma {:induction false} OnesCong(x: int, y: int, n: nat)
    requires Cong(x, y, Pow2(n))
    ensures Ones(x, n) == Ones(y, n)
    decreases n
  {
    if n > 0 {
      HalfCong(x, y, n);
      OnesCong(x / 2, y / 2, n - 1);
    }
  }

  /** `__rustc_clz64`; on zero it counts 63. */
  method Clz64(x: int) returns (n: nat)
    requires 0 <= x < Pow2(64)
    ensures x > 0 ==> n == LeadingZeros(x, 64)
    ensures x == 0 ==> n == 63
  {
    hide Pow2, LeadingZeros;
    DivModUnique(0, Pow2(32), 0, 0);
    var hi := x / Pow2(32) % Pow2(32);
    Halves(x, 32);
    LeadingZerosSplit(x, 32, 32);
    LeadingZerosCong(x, x % Pow2(32), 32, 32) by { CongMod(x, Pow2(32)); }
    if hi != 0 {
      n := Clz32(hi);
    } else {
      n := Clz32(x % Pow2(32));
      n := 32 + n;
    }
  }

  /** `__rustc_ctz64`; on zero it counts 63. */
  method Ctz64(x: int) returns (n: nat)
    requires 0 <= x < Pow2(64)
    ensures x > 0 ==> n == TrailingZeros(x, 64)
    ensures x == 0 ==> n == 63
  {
    hide Pow2, TrailingZeros;
    DivModUnique(0, Pow2(32), 0, 0);
    var lo := x % Pow2(32);
    Halves(x, 32);
    TrailingZerosSplit(x, 32, 32);
    TrailingZerosCong(x, lo, 32) by { CongMod(x, Pow2(32)); }
    if lo != 0 {
      n := Ctz32(lo);
    } else {
      n := Ctz32(x / Pow2(32) % Pow2(32));
      n := 32 + n;
    }
  }

  // ----- the intrinsics' expressions -----

  /** Widths the standard integer types have. */
  predicate Standard(bits: nat) {
    bits == 8 || bits == 16 || bits == 32 || bits == 64 || bits == 128
  }

  /** A value in range is zero exactly when its low bits are. */
  lemma ZeroPattern(v: int, bits: nat, signed: bool)
    requires bits > 0 && InRange(bits, signed, v)
    ensures v == 0 <==> v % Pow2(bits) == 0
  {
    hide Pow2;
    Double(bits);
    var m := Pow2(bits);
    if v > 0 { DivModUnique(v, m, 0, v); } else if v < 0 { DivModUnique(v, m, -1, v + m); }
  }

  lemma ModMod(v: int, n: nat, w: nat)
    requires n <= w
    ensures v % Pow2(w) % Pow2(n) == v % Pow2(n)
  {
    hide Pow2;
    CongMod(v, Pow2(w));
    CongNarrow(v % Pow2(w), v, w, n);
  }

  /** `codegen_ctlz`: `(uint32_t)v & mask` is v % 2^bits, and the casts to wider
      unsigned types reduce modulo their width. */
  method CountLeadingZeros(v: int, bits: nat, signed: bool) returns (n: int)
    requires Standard(bits) && InRange(bits, signed, v)
    ensures n == LeadingZeros(v, bits)
  {
    hide Pow2, LeadingZeros, InRange, BitOp;
    ZeroPattern(v, bits, signed);
    LeadingZerosOfZero(bits);
    CongMod(v, Pow2(bits));
    LeadingZerosCong(v, v % Pow2(bits), bits, bits);
    if bits < 32 {
      if v == 0 { return bits; }
      var y := BitOp(And(), v % Pow2(32), Pow2(bits) - 1, 32);
      LowMask(v % Pow2(32), bits, 32 - bits);
      ModMod(v, bits, 32);
      NarrowLeading(y, bits, 32);
      n := Clz32(y);
      n := n - (32 - bits);
    } else if bits <= 32 {
      if v == 0 { return bits; }
      n := Clz32(v % Pow2(32));
      n := n - (32 - bits);
    } else if bits <= 64 {
      if v == 0 { return bits; }
      n := Clz64(v % Pow2(64));
      n := n - (64 - bits);
    } else {
      var p := v % Pow2(128);
      var hi, lo := p / Pow2(64) % Pow2(64), v % Pow2(64);
      Halves(p, 64);
      ModMod(v, 64, 128);
      LeadingZerosSplit(p, 64, 64);
      LeadingZerosCong(p, lo, 64, 64) by { CongMod(p, Pow2(64)); CongMod(v, Pow2(64)); }
      LeadingZerosOfZero(64);
      if hi != 0 {
        n := Clz64(hi);
      } else if lo == 0 {
        n := 64 + 64;
      } else {
        n := Clz64(lo);
        n := 64 + n;
      }
    }
  }

  lemma NarrowLeading(y: int, bits: nat, w: nat)
    requires bits <= w && 0 <= y < Pow2(bits)
    ensures 0 <= y < Pow2(w) && LeadingZeros(y, w) == w - bits + LeadingZeros(y, bits)
  {
    hide Pow2, LeadingZeros;
    Pow2Monotone(bits, w);
    DivModUnique(y, Pow2(bits), 0, y);
    LeadingZerosSplit(y, w - bits, bits);
  }

  /** `codegen_cttz` */
  method CountTrailingZeros(v: int, bits: nat, signed: bool) returns (n: int)
    requires Standard(bits) && InRange(bits, signed, v)
    ensures n == TrailingZeros(v, bits)
  {
    hide Pow2, TrailingZeros, InRange;
    ZeroPattern(v, bits, signed);
    TrailingZerosOfZero(bits);
    if bits <= 32 {
      if v == 0 { return bits; }
      TrailingZerosSplit(v, bits, 32 - bits);
      TrailingZerosCong(v, v % Pow2(32), 32) by { CongMod(v, Pow2(32)); }
      ModMod(v, bits, 32);
      if v % Pow2(32) == 0 { DivModUnique(0, Pow2(bits), 0, 0); }
      n := Ctz32(v % Pow2(32));
    } else if bits <= 64 {
      if v == 0 { return bits; }
      TrailingZerosCong(v, v % Pow2(64), 64) by { CongMod(v, Pow2(64)); }
      n := Ctz64(v % Pow2(64));
    } else {
      var p := v % Pow2(128);
      var hi, lo := p / Pow2(64) % Pow2(64), v % Pow2(64);
      TrailingZerosCong(v, p, 128) by { CongMod(v, Pow2(128)); }
      Halves(p, 64);
      ModMod(v, 64, 128);
      TrailingZerosSplit(p, 64, 64);
      TrailingZerosCong(p, lo, 64) by { CongMod(p, Pow2(64)); CongMod(v, Pow2(64)); }
      TrailingZerosOfZero(64);
      if lo != 0 {
        n := Ctz64(lo);
      } else if hi == 0 {
        n := 64 + 64;
      } else {
        n := Ctz64(hi);
        n := 64 + n;
      }
    }
  }
}

/** The parallel bit sums. */
module PopCount {
  import opened IntMath
  import opened BitCounting

  /** k fields of width w, each followed by w zeros. */
  function Mask(w: nat, k: nat): int {
    if k == 0 then 0 else Pow2(w) - 1 + Pow2(2 * w) * Mask(w, k - 1)
  }

  /** The even-numbered fields of x. */
  function Evens(w: nat, k: nat, x: int): int
    decreases k
  {
    if k == 0 then 0 else x % Pow2(w) + Pow2(2 * w) * Evens(w, k - 1, x / Pow2(2 * w))
  }

  /** Fields twice as wide, each the sum of two fields of x. */
  function PairSums(w: nat, k: nat, x: int): int
    decreases k
  {
    if k == 0 then 0
    else x % Pow2(w) + x / Pow2(w) % Pow2(w) + Pow2(2 * w) * PairSums(w, k - 1, x / Pow2(2 * w))
  }

  /** The sum of k fields of width w. */
  function Total(w: nat, k: nat, x: int): int
    decreases k
  {
    if k == 0 then 0 else x % Pow2(w) + Total(w, k - 1, x / Pow2(w))
  }

  ghost predicate AtMost(w: nat, k: nat, x: int, c: int)
    decreases k
  {
    if k == 0 then x == 0 else x % Pow2(w) <= c && AtMost(w, k - 1, x / Pow2(w), c)
  }

  lemma {:induction false} MaskKeepsEvens(w: nat, k: nat, x: int)
    ensures BitOp(And(), x, Mask(w, k), 2 * w * k) == Evens(w, k, x)
    decreases k
  {
    if k > 0 {
      MaskKeepsEvens(w, k - 1, x / Pow2(2 * w));
      MaskStep(w, k, x);
    }
  }

  lemma MaskStep(w: nat, k: nat, x: int)
    requires k > 0
    ensures BitOp(And(), x, Mask(w, k), 2 * w * k)
         == x % Pow2(w) + Pow2(2 * w) * BitOp(And(), x / Pow2(2 * w), Mask(w, k - 1), 2 * w * (k - 1))
  {
    hide Pow2, BitOp;
    var p, rest := Pow2(2 * w), Mask(w, k - 1);
    assert 2 * w * k == 2 * w + 2 * w * (k - 1);
    BitOpSplit(And(), x, Mask(w, k), 2 * w, 2 * w * (k - 1));
    Pow2Monotone(w, 2 * w);
    DivModUnique(Mask(w, k), p, rest, Pow2(w) - 1);
    ModShift(Pow2(w) - 1, rest, p);
    BitOpCong(And(), x, Mask(w, k), x, Pow2(w) - 1, 2 * w);
    LowMask(x, w, w);
  }

  lemma {:induction false} PairSumsAreEvens(w: nat, k: nat, x: int)
    ensures PairSums(w, k, x) == Evens(w, k, x) + Evens(w, k, x / Pow2(w))
    decreases k
  {
    if k > 0 {
      PairSumsAreEvens(w, k - 1, x / Pow2(2 * w));
      DivSwap(x, w);
      Distribute(Pow2(2 * w), Evens(w, k - 1, x / Pow2(2 * w)), Evens(w, k - 1, x / Pow2(w) / Pow2(2 * w)));
    }
  }

  lemma Distribute(p: int, a: int, b: int)
    ensures p * (a + b) == p * a + p * b
  {
  }

  lemma DivSwap(x: int, w: nat)
    ensures x / Pow2(w) / Pow2(2 * w) == x / Pow2(2 * w) / Pow2(w)
  {
    hide Pow2;
    Pow2Add(w, 2 * w);
    Pow2Add(2 * w, w);
    DivDiv(x, Pow2(w), Pow2(2 * w));
    DivDiv(x, Pow2(2 * w), Pow2(w));
  }

  /** One field and the next two. */
  lemma TwoFields(x: int, w: nat)
    ensures Pow2(2 * w) == Pow2(w) * Pow2(w)
    ensures x / Pow2(2 * w) == x / Pow2(w) / Pow2(w)
    ensures x == x % Pow2(w) + Pow2(w) * (x / Pow2(w) % Pow2(w)) + Pow2(2 * w) * (x / Pow2(2 * w))
  {
    hide Pow2;
    var p := Pow2(w);
    Pow2Add(w, w);
    DivDiv(x, p, p);
    var y := x / p;
    var z := y / p;
    assert p * (y % p + p * z) == p * (y % p) + p * p * z;
  }

  /** The pair sums keep the total, as long as each fits its field. */
  lemma {:induction false} PairSumsTotal(w: nat, k: nat, x: int, c: int)
    requires AtMost(w, 2 * k, x, c) && 0 <= 2 * c < Pow2(2 * w)
    ensures Total(2 * w, k, PairSums(w, k, x)) == Total(w, 2 * k, x)
    ensures AtMost(2 * w, k, PairSums(w, k, x), 2 * c)
    decreases k
  {
    if k > 0 {
      TwoFields(x, w);
      assert Total(w, 2 * k, x) == x % Pow2(w) + (x / Pow2(w) % Pow2(w) + Total(w, 2 * (k - 1), x / Pow2(2 * w)));
      PairSumsTotal(w, k - 1, x / Pow2(2 * w), c);
      var low := x % Pow2(w) + x / Pow2(w) % Pow2(w);
      DivModUnique(PairSums(w, k, x), Pow2(2 * w), PairSums(w, k - 1, x / Pow2(2 * w)), low);
    }
  }

  /** x minus half of itself, masked, is its pair sums: the first step. */
  lemma {:induction false} FirstStep(k: nat, x: int)
    requires 0 <= x < Pow2(2 * k)
    ensures x - Evens(1, k, x / 2) == PairSums(1, k, x)
    decreases k
  {
    if k > 0 {
      TwoFields(x, 1);
      Pow2Add(2, 2 * (k - 1));
      Bounded(x, Pow2(2), Pow2(2 * (k - 1)));
      FirstStep(k - 1, x / 4);
      DivSwap(x, 1);
    }
  }

  lemma Bounded(x: int, p: int, q: int)
    requires 0 <= x < p * q && p > 0 && q > 0
    ensures 0 <= x / p < q
  {
    var y := x / p;
    if y >= q { MulMonotone(q, y, p); }
    if y < 0 { MulMonotone(y, -1, p); }
  }

  /** With nibbles at most 4 the two additions of a nibble shift cannot carry. */
  lemma {:induction false} ThirdStep(k: nat, x: int)
    requires AtMost(4, 2 * k, x, 4) && x >= 0
    ensures Evens(4, k, x + x / 16) == PairSums(4, k, x)
    decreases k
  {
    if k > 0 {
      SmallPow2();
      TwoFields(x, 4);
      NextNibble(k, x);
      NibbleSum(x);
      ThirdStep(k - 1, x / 256);
    }
  }

  lemma NibbleSum(x: int)
    requires x >= 0 && x % 16 <= 4 && x / 16 % 16 <= 4 && x / 256 % 16 <= 4
    ensures (x + x / 16) % 16 == x % 16 + x / 16 % 16
    ensures (x + x / 16) / 256 == x / 256 + x / 256 / 16
  {
    var l, h, y := x % 16, x / 16 % 16, x / 256;
    var l' := y % 16;
    assert x / 16 == h + 16 * y;
    assert x + x / 16 == (l + h) + 16 * (h + l') + 256 * (y + y / 16);
    DivModUnique(x + x / 16, 256, y + y / 16, (l + h) + 16 * (h + l'));
    assert (x + x / 16) % 16 == l + h;
  }

  lemma NextNibble(k: nat, x: int)
    requires k > 0 && AtMost(4, 2 * k, x, 4)
    ensures x % 16 <= 4 && x / 16 % 16 <= 4 && x / 256 % 16 <= 4 && AtMost(4, 2 * (k - 1), x / 256, 4)
  {
    hide Pow2, AtMost;
    SmallPow2();
    assert x / 16 / 16 == x / 256;
    UnfoldAtMost(4, 2 * k, x, 4);
    UnfoldAtMost(4, 2 * k - 1, x / 16, 4);
    UnfoldAtMost(4, 2 * k - 2, x / 256, 4);
  }

  lemma UnfoldAtMost(w: nat, k: nat, x: int, c: int)
    requires AtMost(w, k, x, c)
    ensures if k == 0 then x == 0 else x % Pow2(w) <= c && AtMost(w, k - 1, x / Pow2(w), c)
  {
  }

  lemma {:induction false} OnesAreFields(n: nat, x: int)
    ensures Total(1, n, x) == Ones(x, n)
    decreases n
  {
    if n > 0 { OnesAreFields(n - 1, x / 2); }
  }

  lemma {:induction false} BitsAtMostOne(n: nat, x: int)
    requires 0 <= x < Pow2(n)
    ensures AtMost(1, n, x, 1)
    decreases n
  {
    if n > 0 { BitsAtMostOne(n - 1, x / 2); }
  }

  /** The first three steps sum the bits of each byte. */
  lemma BytesOf(k: nat, x: int)
    requires 0 <= x < Pow2(8 * k)
    ensures var x1 := PairSums(1, 4 * k, x); var x2 := PairSums(2, 2 * k, x1); var x3 := PairSums(4, k, x2);
            && x1 == x - Evens(1, 4 * k, x / 2)
            && x2 == Evens(2, 2 * k, x1) + Evens(2, 2 * k, x1 / 4)
            && x3 == Evens(4, k, x2 + x2 / 16)
            && Total(8, k, x3) == Ones(x, 8 * k) && AtMost(8, k, x3, 8)
  {
    hide Pow2, Evens, PairSums, Total, AtMost;
    SmallPow2();
    var x1 := PairSums(1, 4 * k, x);
    var x2 := PairSums(2, 2 * k, x1);
    FirstStep(4 * k, x);
    BitsAtMostOne(8 * k, x);
    OnesAreFields(8 * k, x);
    PairSumsTotal(1, 4 * k, x, 1);
    PairSumsAreEvens(2, 2 * k, x1);
    PairSumsTotal(2, 2 * k, x1, 2);
    NonNegative(2, 2 * k, x1);
    ThirdStep(k, x2);
    PairSumsTotal(4, k, x2, 4);
  }

  lemma {:induction false} NonNegative(w: nat, k: nat, x: int)
    ensures PairSums(w, k, x) >= 0
    decreases k
  {
    if k > 0 {
      NonNegative(w, k - 1, x / Pow2(2 * w));
      MulMonotone(0, PairSums(w, k - 1, x / Pow2(2 * w)), Pow2(2 * w));
    }
  }

  lemma FourBytes(x: int)
    requires AtMost(8, 4, x, 8)
    ensures 0 <= x < Pow2(32) && x * 0x0101_0101 % Pow2(32) / Pow2(24) == Total(8, 4, x)
  {
    SmallPow2();
    var y := x / 256; var z := y / 256; var d := z / 256;
    var a, b, c := x % 256, y % 256, z % 256;
    FourFields(x);
    assert x == a + 0x100 * b + 0x1_0000 * c + 0x100_0000 * d;
    DivModUnique(x * 0x0101_0101, 0x1_0000_0000, (b + c + d) + 0x100 * (c + d) + 0x1_0000 * d,
                 a + 0x100 * (a + b) + 0x1_0000 * (a + b + c) + 0x100_0000 * (a + b + c + d));
    DivModUnique(x * 0x0101_0101 % 0x1_0000_0000, 0x100_0000, a + b + c + d,
                 a + 0x100 * (a + b) + 0x1_0000 * (a + b + c));
  }

  lemma FourFields(x: int)
    requires AtMost(8, 4, x, 8)
    ensures var y := x / 256; var z := y / 256; var d := z / 256;
            && x % 256 <= 8 && y % 256 <= 8 && z % 256 <= 8 && 0 <= d <= 8
            && Total(8, 4, x) == x % 256 + y % 256 + z % 256 + d
  {
    OneField(4, x);
    OneField(3, x / 256);
    OneField(2, x / 256 / 256);
    OneField(1, x / 256 / 256 / 256);
    OneField(0, x / 256 / 256 / 256 / 256);
  }

  lemma OneField(k: nat, x: int)
    requires AtMost(8, k, x, 8)
    ensures if k == 0 then x == 0 && Total(8, k, x) == 0
            else x % 256 <= 8 && AtMost(8, k - 1, x / 256, 8) && Total(8, k, x) == x % 256 + Total(8, k - 1, x / 256)
  {
    SmallPow2();
  }

  lemma EightBytes(x: int)
    requires AtMost(8, 8, x, 8)
    ensures 0 <= x < Pow2(64) && x * 0x0101_0101_0101_0101 % Pow2(64) / Pow2(56) == Total(8, 8, x)
  {
    SmallPow2();
    var h := x / 256 / 256 / 256 / 256;
    LowFour(x);
    FourFields(h);
    var a, b, c, d := x % 256, x / 256 % 256, x / 256 / 256 % 256, x / 256 / 256 / 256 % 256;
    var e, f, g, i := h % 256, h / 256 % 256, h / 256 / 256 % 256, h / 256 / 256 / 256;
    EightDigits(x, a, b, c, d, e, f, g, i);
  }

  lemma LowFour(x: int)
    requires AtMost(8, 8, x, 8)
    ensures var y := x / 256; var z := y / 256; var d := z / 256;
            && x % 256 <= 8 && y % 256 <= 8 && z % 256 <= 8 && d % 256 <= 8 && AtMost(8, 4, d / 256, 8)
            && Total(8, 8, x) == x % 256 + y % 256 + z % 256 + d % 256 + Total(8, 4, d / 256)
  {
    OneField(8, x);
    OneField(7, x / 256);
    OneField(6, x / 256 / 256);
    OneField(5, x / 256 / 256 / 256);
  }

  /** Column sums of the multiplication: none carries, and the top one is the sum
      of all digits. */
  lemma EightDigits(x: int, a: int, b: int, c: int, d: int, e: int, f: int, g: int, h: int)
    requires 0 <= a <= 8 && 0 <= b <= 8 && 0 <= c <= 8 && 0 <= d <= 8 && 0 <= e <= 8 && 0 <= f <= 8 && 0 <= g <= 8
             && 0 <= h <= 8
    requires x == a + 0x100 * b + 0x1_0000 * c + 0x100_0000 * d
                  + 0x1_0000_0000 * (e + 0x100 * f + 0x1_0000 * g + 0x100_0000 * h)
    ensures 0 <= x < 0x1_0000_0000_0000_0000
    ensures x * 0x0101_0101_0101_0101 % 0x1_0000_0000_0000_0000 / 0x100_0000_0000_0000 == a + b + c + d + e + f + g + h
  {
    var s1, s2, s3 := a + b, a + b + c, a + b + c + d;
    var s4, s5, s6, s7 := s3 + e, s3 + e + f, s3 + e + f + g, s3 + e + f + g + h;
    var low := a + 0x100 * s1 + 0x1_0000 * s2 + 0x100_0000 * s3 + 0x1_0000_0000 * s4 + 0x100_0000_0000 * s5
        + 0x1_0000_0000_0000 * s6;
    var high := (s7 - a) + 0x100 * (s7 - s1) + 0x1_0000 * (s7 - s2) + 0x100_0000 * (s7 - s3) + 0x1_0000_0000 * (s7 - s4)
                + 0x100_0000_0000 * (s7 - s5) + 0x1_0000_0000_0000 * (s7 - s6);
    DivModUnique(x * 0x0101_0101_0101_0101, 0x1_0000_0000_0000_0000, high, low + 0x100_0000_0000_0000 * s7);
    DivModUnique(low + 0x100_0000_0000_0000 * s7, 0x100_0000_0000_0000, s7, low);
  }

  lemma {:induction false} MaskSplit(w: nat, j: nat, k: nat)
    ensures Mask(w, j + k) == Mask(w, j) + Pow2(2 * w * j) * Mask(w, k)
    decreases j
  {
    if j > 0 {
      MaskSplit(w, j - 1, k);
      MaskSplitStep(w, j, k);
    }
  }

  lemma MaskSplitStep(w: nat, j: nat, k: nat)
    requires j > 0 && Mask(w, j - 1 + k) == Mask(w, j - 1) + Pow2(2 * w * (j - 1)) * Mask(w, k)
    ensures Mask(w, j + k) == Mask(w, j) + Pow2(2 * w * j) * Mask(w, k)
  {
    hide Pow2, Mask;
    UnfoldMask(w, j);
    UnfoldMask(w, j + k);
    WordPower(w, j);
    Regroup(Pow2(2 * w), Pow2(2 * w * (j - 1)), Mask(w, j - 1), Mask(w, k));
  }

  lemma UnfoldMask(w: nat, k: nat)
    requires k > 0
    ensures Mask(w, k) == Pow2(w) - 1 + Pow2(2 * w) * Mask(w, k - 1)
  {
  }

  lemma Regroup(p: int, q: int, a: int, m: int)
    ensures p * (a + q * m) == p * a + p * q * m
  {
  }

  lemma WordPower(w: nat, k: nat)
    requires k > 0
    ensures 2 * w * (k - 1) >= 0 && 2 * w * k >= 0 && Pow2(2 * w * k) == Pow2(2 * w) * Pow2(2 * w * (k - 1))
  {
    hide Pow2;
    var a := 2 * w;
    OneMore(a, k);
    Pow2Add(a, a * (k - 1));
  }

  lemma OneMore(a: nat, k: nat)
    requires k > 0
    ensures a * k == a + a * (k - 1) && a * (k - 1) >= 0
  {
  }

  lemma Masks()
    ensures Mask(1, 16) == 0x5555_5555 && Mask(2, 8) == 0x3333_3333 && Mask(4, 4) == 0x0F0F_0F0F
    ensures Mask(1, 32) == 0x5555_5555_5555_5555 && Mask(2, 16) == 0x3333_3333_3333_3333
            && Mask(4, 8) == 0x0F0F_0F0F_0F0F_0F0F
  {
    hide Pow2, Mask;
    SmallPow2();
    SmallMasks();
    MaskSplit(1, 4, 4);
    MaskSplit(1, 8, 8);
    MaskSplit(1, 16, 16);
    MaskSplit(2, 4, 4);
    MaskSplit(2, 8, 8);
    MaskSplit(4, 4, 4);
  }

  lemma SmallMasks()
    ensures Mask(1, 4) == 0x55 && Mask(2, 4) == 0x3333 && Mask(4, 4) == 0x0F0F_0F0F
  {
    SmallPow2();
    assert Mask(1, 1) == 1 && Mask(2, 1) == 3 && Mask(4, 1) == 15;
    assert Mask(1, 2) == 5 && Mask(2, 2) == 0x33 && Mask(4, 2) == 0x0F0F;
    assert Mask(1, 3) == 0x15 && Mask(2, 3) == 0x333 && Mask(4, 3) == 0x0F_0F0F;
  }

  lemma {:induction false} PairSumsFit(w: nat, k: nat, x: int)
    requires w > 0
    ensures 0 <= PairSums(w, k, x) < Pow2(2 * w * k)
    decreases k
  {
    if k > 0 {
      PairSumsFit(w, k - 1, x / Pow2(2 * w));
      PairSumsFitStep(w, k, x);
    }
  }

  lemma PairSumsFitStep(w: nat, k: nat, x: int)
    requires w > 0 && k > 0 && 0 <= PairSums(w, k - 1, x / Pow2(2 * w)) < Pow2(2 * w * (k - 1))
    ensures 0 <= PairSums(w, k, x) < Pow2(2 * w * k)
  {
    hide Pow2, PairSums;
    UnfoldPairSums(w, k, x);
    WordPower(w, k);
    Pow2Add(w, w);
    Double(w);
    AddField(Pow2(w), x % Pow2(w), x / Pow2(w) % Pow2(w), PairSums(w, k - 1, x / Pow2(2 * w)), Pow2(2 * w * (k - 1)));
  }

  lemma UnfoldPairSums(w: nat, k: nat, x: int)
    requires k > 0
    ensures PairSums(w, k, x) == x % Pow2(w) + x / Pow2(w) % Pow2(w) + Pow2(2 * w) * PairSums(w, k - 1, x / Pow2(2 * w))
  {
  }

  lemma AddField(p: int, a: int, b: int, m: int, limit: int)
    requires p >= 2 && 0 <= a < p && 0 <= b < p && 0 <= m < limit
    ensures 0 <= a + b + p * p * m < p * p * limit
  {
    MulMonotone(2, p, p);
    MulMonotone(0, m, p * p);
    MulMonotone(m + 1, limit, p * p);
  }

  lemma MaskedPart(w: nat, k: nat, x: int, bits: nat)
    requires bits == 2 * w * k
    ensures BitOp(And(), x, Mask(w, k), bits) == Evens(w, k, x)
    ensures BitOp(And(), x % Pow2(bits), Mask(w, k), bits) == Evens(w, k, x)
  {
    hide Pow2, BitOp, Mask, Evens;
    MaskKeepsEvens(w, k, x);
    CongMod(x, Pow2(bits));
    BitOpCong(And(), x % Pow2(bits), Mask(w, k), x, Mask(w, k), bits);
  }

  /** The masked steps on a word of k bytes leave in every byte its bit count. */
  lemma Steps(k: nat, x: int)
    requires 0 <= x < Pow2(8 * k)
    ensures var n, m := 8 * k, Pow2(8 * k);
            var x1 := (x - BitOp(And(), x / 2, Mask(1, 4 * k), n)) % m;
            var x2 := (BitOp(And(), x1, Mask(2, 2 * k), n) + BitOp(And(), x1 / 4, Mask(2, 2 * k), n)) % m;
            var x3 := BitOp(And(), (x2 + x2 / 16) % m, Mask(4, k), n);
            Total(8, k, x3) == Ones(x, n) && AtMost(8, k, x3, 8)
  {
    hide Pow2, BitOp, Evens, PairSums, Total, AtMost, Mask, Ones;
    BytesOf(k, x);
    var m := Pow2(8 * k);
    var x1 := PairSums(1, 4 * k, x);
    var x2 := PairSums(2, 2 * k, x1);
    MaskedPart(1, 4 * k, x / 2, 8 * k);
    MaskedPart(2, 2 * k, x1, 8 * k);
    MaskedPart(2, 2 * k, x1 / 4, 8 * k);
    MaskedPart(4, k, x2 + x2 / 16, 8 * k);
    PairSumsFit(1, 4 * k, x);
    PairSumsFit(2, 2 * k, x1);
    DivModUnique(x1, m, 0, x1);
    DivModUnique(x2, m, 0, x2);
  }

  /** `__rustc_popcount32`, in unsigned 32-bit arithmetic. */
  method PopCount32(x0: int) returns (n: int)
    requires 0 <= x0 < Pow2(32)
    ensures n == Ones(x0, 32)
  {
    hide Pow2, BitOp, Total, AtMost, Mask, Ones;
    SmallPow2();
    Masks();
    Steps(4, x0);
    var x := x0;
    x := (x - BitOp(And(), x / 2, 0x5555_5555, 32)) % Pow2(32);
    x := (BitOp(And(), x, 0x3333_3333, 32) + BitOp(And(), x / 4, 0x3333_3333, 32)) % Pow2(32);
    x := BitOp(And(), (x + x / 16) % Pow2(32), 0x0F0F_0F0F, 32);
    FourBytes(x);
    n := x * 0x0101_0101 % Pow2(32) / Pow2(24);
  }

  /** `__rustc_popcount64` */
  method PopCount64(x0: int) returns (n: int)
    requires 0 <= x0 < Pow2(64)
    ensures n == Ones(x0, 64)
  {
    hide Pow2, BitOp, Total, AtMost, Mask, Ones;
    SmallPow2();
    Masks();
    Steps(8, x0);
    var x := x0;
    x := (x - BitOp(And(), x / 2, 0x5555_5555_5555_5555, 64)) % Pow2(64);
    x := (BitOp(And(), x, 0x3333_3333_3333_3333, 64) + BitOp(And(), x / 4, 0x3333_3333_3333_3333, 64)) % Pow2(64);
    x := BitOp(And(), (x + x / 16) % Pow2(64), 0x0F0F_0F0F_0F0F_0F0F, 64);
    EightBytes(x);
    n := x * 0x0101_0101_0101_0101 % Pow2(64) / Pow2(56);
  }

  /** `codegen_ctpop` */
  method CountOnes(v: int, bits: nat, signed: bool) returns (n: int)
    requires Standard(bits) && InRange(bits, signed, v)
    ensures n == Ones(v, bits)
  {
    hide Pow2, BitOp, Ones, InRange;
    CongMod(v, Pow2(bits));
    OnesCong(v, v % Pow2(bits), bits);
    if bits < 32 {
      var y := BitOp(And(), v % Pow2(32), Pow2(bits) - 1, 32);
      LowMask(v % Pow2(32), bits, 32 - bits);
      ModMod(v, bits, 32);
      Pow2Monotone(bits, 32);
      OnesSplit(y, bits, 32 - bits);
      DivModUnique(y, Pow2(bits), 0, y);
      OnesOfZero(32 - bits);
      n := PopCount32(y);
    } else if bits <= 32 {
      n := PopCount32(v % Pow2(32));
    } else if bits <= 64 {
      n := PopCount64(v % Pow2(64));
    } else {
      var p := v % Pow2(128);
      Halves(p, 64);
      ModMod(v, 64, 128);
      OnesSplit(p, 64, 64);
      OnesCong(p, v % Pow2(64), 64) by { CongMod(p, Pow2(64)); CongMod(v, Pow2(64)); }
      var low := PopCount64(v % Pow2(64));
      var high := PopCount64(p / Pow2(64) % Pow2(64));
      n := low + high;
    }
  }

  lemma {:induction false} OnesOfZero(n: nat)
    ensures Ones(0, n) == 0
  {
    if n > 0 { OnesOfZero(n - 1); }
  }
}
