/** Byte swaps, bit reversal and rotation: where each bit goes. */
module BitPermutations {
  import opened IntMath
  import opened BitCounting
  import opened PopCount

  // ----- bits of shifted and bounded numbers -----

  lemma {:induction false} BitOfProduct(x: int, s: nat, k: nat)
    ensures Bit(x * Pow2(s), k) == (k >= s && Bit(x, k - s))
    decreases s
  {
    if s > 0 {
      DoubleTwice(x, s);
      if k > 0 { BitOfProduct(x, s - 1, k - 1); }
    }
  }

  lemma DoubleTwice(x: int, s: nat)
    requires s > 0
    ensures x * Pow2(s) == 2 * (x * Pow2(s - 1))
  {
  }

  lemma {:induction false} NoHighBit(x: int, n: nat, k: nat)
    requires 0 <= x < Pow2(n) && n <= k
    ensures !Bit(x, k)
    decreases k
  {
    if n == 0 {
      BitOfZero(k);
    } else {
      NoHighBit(x / 2, n - 1, k - 1);
    }
  }

  /** Two values in range with the same bits are equal. */
  lemma SameBits(x: int, y: int, bits: nat, signed: bool)
    requires bits > 0 && InRange(bits, signed, x) && InRange(bits, signed, y)
    requires forall i: nat | i < bits :: Bit(x, i) == Bit(y, i)
    ensures x == y
  {
    hide Pow2, Bit, InRange;
    var m := Pow2(bits);
    CongMod(x, m);
    CongMod(y, m);
    forall i: nat | i < bits ensures Bit(x % m, i) == Bit(y % m, i) {
      BitCong(x % m, x, bits, i);
      BitCong(y % m, y, bits, i);
    }
    BitsDetermine(x % m, y % m, bits);
    WrapUnique(bits, signed, x, x);
    WrapUnique(bits, signed, x, y);
  }

  /** Storing p in a signed or unsigned variable keeps its low bits. */
  lemma StoredBits(p: int, bits: nat, signed: bool, i: nat)
    requires i < bits
    ensures Bit(Wrap(bits, signed, p), i) == Bit(p, i)
  {
    hide Pow2, Bit;
    WrapCong(bits, signed, p);
    BitCong(Wrap(bits, signed, p), p, bits, i);
  }

  // ----- byte swap -----

  /** Bit i of field number i / w comes from the neighbouring field. */
  function Partner(i: nat, w: nat): nat
    requires w > 0
  {
    if (i / w) % 2 == 0 then i + w else if i >= w then i - w else 0
  }

  lemma {:induction false} MaskBit(w: nat, k: nat, i: nat)
    requires w > 0 && i < 2 * w * k
    ensures Bit(Mask(w, k), i) <==> (i / w) % 2 == 0
    decreases k
  {
    hide Bit, Pow2, Mask;
    OneMore(2 * w, k);
    MaskShape(w, k);
    if i < 2 * w {
      BitCong(Mask(w, k), Pow2(w) - 1, 2 * w, i);
      LowOnes(w, i);
      FieldNumber(i, w);
    } else {
      BitShift(Mask(w, k), 2 * w, i - 2 * w);
      MaskBit(w, k - 1, i - 2 * w);
      TwoFieldsOn(i, w);
    }
  }

  lemma MaskShape(w: nat, k: nat)
    requires w > 0 && k > 0
    ensures Cong(Mask(w, k), Pow2(w) - 1, Pow2(2 * w)) && Mask(w, k) / Pow2(2 * w) == Mask(w, k - 1)
  {
    hide Pow2, Mask;
    UnfoldMask(w, k);
    Pow2Monotone(w, 2 * w);
    ModShift(Pow2(w) - 1, Mask(w, k - 1), Pow2(2 * w));
    DivModUnique(Mask(w, k), Pow2(2 * w), Mask(w, k - 1), Pow2(w) - 1);
  }

  lemma FieldNumber(i: nat, w: nat)
    requires w > 0 && i < 2 * w
    ensures i / w == if i < w then 0 else 1
  {
    if i < w { DivModUnique(i, w, 0, i); } else { DivModUnique(i, w, 1, i - w); }
  }

  lemma TwoFieldsOn(i: nat, w: nat)
    requires w > 0 && i >= 2 * w
    ensures i / w == (i - 2 * w) / w + 2
  {
    ModShift(i - 2 * w, 2, w);
  }

  lemma {:induction false} LowOnes(n: nat, i: nat)
    ensures Bit(Pow2(n) - 1, i) <==> i < n
    decreases n
  {
    if n == 0 {
      BitOfZero(i);
    } else {
      Double(n);
      assert (Pow2(n) - 1) / 2 == Pow2(n - 1) - 1;
      if i > 0 { LowOnes(n - 1, i - 1); }
    }
  }

  /** `((x & high) >> w) | ((x & low) << w)` in n-bit unsigned arithmetic. */
  function SwapFields(x: int, w: nat, low: int, high: int, n: nat): int {
    BitOp(Or(), BitOp(And(), x, high, n) / Pow2(w), BitOp(And(), x, low, n) * Pow2(w) % Pow2(n), n)
  }

  lemma SwapFieldsBit(x: int, w: nat, k: nat, n: nat, i: nat)
    requires w > 0 && n == 2 * w * k && i < n && 0 <= x < Pow2(n)
    ensures Partner(i, w) < n
    ensures Bit(SwapFields(x, w, Mask(w, k), Mask(w, k) * Pow2(w), n), i) == Bit(x, Partner(i, w))
  {
    hide Bit, Pow2, Mask, BitOp;
    var low, high := Mask(w, k), Mask(w, k) * Pow2(w);
    var a, b := BitOp(And(), x, high, n), BitOp(And(), x, low, n);
    BitOpBit(Or(), a / Pow2(w), b * Pow2(w) % Pow2(n), n, i);
    BitShift(a, w, i);
    CongMod(b * Pow2(w), Pow2(n));
    BitCong(b * Pow2(w) % Pow2(n), b * Pow2(w), n, i);
    BitOfProduct(b, w, i);
    FieldCount(w, k);
    NeighbourField(i, w, k);
    MaskBit(w, k, i);
    if i + w < n {
      BitOpBit(And(), x, high, n, i + w);
      BitOfProduct(low, w, i + w);
    } else {
      NoHighBit(a, n, i + w);
    }
    if i >= w {
      BitOpBit(And(), x, low, n, i - w);
      MaskBit(w, k, i - w);
    }
  }

  lemma FieldCount(w: nat, k: nat)
    ensures 2 * w * k == w * (2 * k)
  {
  }

  lemma NeighbourField(i: nat, w: nat, k: nat)
    requires w > 0 && i < 2 * w * k && 2 * w * k == w * (2 * k)
    ensures (i / w) % 2 == 0 ==> i + w < 2 * w * k
    ensures (i / w) % 2 == 0 && i >= w ==> ((i - w) / w) % 2 == 1
    ensures (i / w) % 2 == 1 ==> i >= w && ((i - w) / w) % 2 == 0
  {
    if i >= w { ModShift(i - w, 1, w); } else { DivModUnique(i, w, 0, i); }
    LastField(i, w, 2 * k);
  }

  lemma LastField(i: nat, w: nat, n: nat)
    requires w > 0 && i < w * n
    ensures i / w < n && (i / w + 1 < n ==> i + w < w * n)
  {
    var q := i / w;
    assert i == q * w + i % w;
    MulMonotone(if q >= n then n else q, q, w);
    MulMonotone(if q + 2 <= n then q + 2 else n, n, w);
  }

  /** The last step exchanges the two halves: `(x >> h) | (x << h)`. */
  function SwapHalves(x: int, h: nat): int {
    BitOp(Or(), x / Pow2(h), x * Pow2(h) % Pow2(2 * h), 2 * h)
  }

  lemma SwapHalvesBit(x: int, h: nat, i: nat)
    requires h > 0 && i < 2 * h && 0 <= x < Pow2(2 * h)
    ensures Bit(SwapHalves(x, h), i) == Bit(x, if i < h then i + h else i - h)
  {
    hide Bit, Pow2, BitOp;
    var n := 2 * h;
    BitOpBit(Or(), x / Pow2(h), x * Pow2(h) % Pow2(n), n, i);
    BitShift(x, h, i);
    CongMod(x * Pow2(h), Pow2(n));
    BitCong(x * Pow2(h) % Pow2(n), x * Pow2(h), n, i);
    BitOfProduct(x, h, i);
    if i >= h { NoHighBit(x, n, i + h); }
  }

  /** The bit that byte reversal of an n-bit number puts at i. */
  function Mirror(i: nat, n: nat): nat
    requires n % 8 == 0 && i < n
  {
    n - 8 - 8 * (i / 8) + i % 8
  }

  ghost predicate Mirrored(x: int, r: int, n: nat)
    requires n % 8 == 0
  {
    forall i: nat | i < n :: Bit(r, i) == Bit(x, Mirror(i, n))
  }

  lemma SwapMasks()
    ensures Mask(8, 2) == 0x00FF_00FF && Mask(8, 2) * Pow2(8) == 0xFF00_FF00
    ensures Mask(8, 4) == 0x00FF_00FF_00FF_00FF && Mask(8, 4) * Pow2(8) == 0xFF00_FF00_FF00_FF00
    ensures Mask(16, 2) == 0x0000_FFFF_0000_FFFF && Mask(16, 2) * Pow2(16) == 0xFFFF_0000_FFFF_0000
  {
    hide Pow2, Mask;
    SmallPow2();
    OneField8();
    MaskSplit(8, 1, 1);
    MaskSplit(8, 2, 2);
    MaskSplit(16, 1, 1);
  }

  lemma OneField8()
    ensures Mask(8, 1) == 0xFF && Mask(16, 1) == 0xFFFF
  {
    assert Mask(8, 0) == 0 && Mask(16, 0) == 0;
    SmallPow2();
  }

  method Bswap16(x: int) returns (r: int)
    requires 0 <= x < Pow2(16)
    ensures 0 <= r < Pow2(16) && Mirrored(x, r, 16)
  {
    hide Bit, Pow2, BitOp, SwapHalves;
    HalvesBelow(x, 8);
    r := SwapHalves(x, 8);
    forall i: nat | i < 16 ensures Bit(r, i) == Bit(x, Mirror(i, 16)) {
      SwapHalvesBit(x, 8, i);
    }
  }

  lemma HalvesBelow(x: int, h: nat)
    ensures 0 <= SwapHalves(x, h) < Pow2(2 * h)
  {
  }

  method Bswap32(x0: int) returns (x: int)
    requires 0 <= x0 < Pow2(32)
    ensures 0 <= x < Pow2(32) && Mirrored(x0, x, 32)
  {
    hide Bit, Pow2, BitOp, Mask, SwapHalves, SwapFields;
    SwapMasks();
    x := SwapFields(x0, 8, 0x00FF_00FF, 0xFF00_FF00, 32);
    FieldsBelow(x0, 8, 0x00FF_00FF, 0xFF00_FF00, 32);
    ghost var x1 := x;
    HalvesBelow(x, 16);
    x := SwapHalves(x, 16);
    forall i: nat | i < 32 ensures Bit(x, i) == Bit(x0, Mirror(i, 32)) {
      SwapHalvesBit(x1, 16, i);
      var j := if i < 16 then i + 16 else i - 16;
      SwapFieldsBit(x0, 8, 2, 32, j);
      assert Partner(j, 8) == Mirror(i, 32);
    }
  }

  lemma FieldsBelow(x: int, w: nat, low: int, high: int, n: nat)
    ensures 0 <= SwapFields(x, w, low, high, n) < Pow2(n)
  {
  }

  method Bswap64(x0: int) returns (x: int)
    requires 0 <= x0 < Pow2(64)
    ensures 0 <= x < Pow2(64) && Mirrored(x0, x, 64)
  {
    hide Bit, Pow2, BitOp, Mask, SwapHalves, SwapFields;
    SwapMasks();
    x := SwapFields(x0, 8, 0x00FF_00FF_00FF_00FF, 0xFF00_FF00_FF00_FF00, 64);
    FieldsBelow(x0, 8, 0x00FF_00FF_00FF_00FF, 0xFF00_FF00_FF00_FF00, 64);
    ghost var x1 := x;
    x := SwapFields(x, 16, 0x0000_FFFF_0000_FFFF, 0xFFFF_0000_FFFF_0000, 64);
    FieldsBelow(x1, 16, 0x0000_FFFF_0000_FFFF, 0xFFFF_0000_FFFF_0000, 64);
    ghost var x2 := x;
    HalvesBelow(x, 32);
    x := SwapHalves(x, 32);
    forall i: nat | i < 64 ensures Bit(x, i) == Bit(x0, Mirror(i, 64)) {
      SwapHalvesBit(x2, 32, i);
      var j := if i < 32 then i + 32 else i - 32;
      SwapFieldsBit(x1, 16, 2, 64, j);
      SwapFieldsBit(x0, 8, 4, 64, Partner(j, 16));
      MirrorPath64(i);
    }
  }

  lemma MirrorPath64(i: nat)
    requires i < 64
    ensures Partner(Partner(if i < 32 then i + 32 else i - 32, 16), 8) == Mirror(i, 64)
  {
  }

  /** `codegen_bswap` at the widths it supports. */
  method SwapBytes(v: int, bits: nat, signed: bool) returns (r: int)
    requires Standard(bits) && InRange(bits, signed, v)
    ensures InRange(bits, signed, r) && Mirrored(v, r, bits)
  {
    hide Bit, Pow2, BitOp, InRange, Mirrored;
    if bits == 8 {
      r := v;
      ByteMirrored(v);
    } else if bits == 16 {
      var s := Bswap16(v % Pow2(16));
      r := Wrap(bits, signed, s);
      MirrorStored(v, s, bits, signed);
    } else if bits == 32 {
      var s := Bswap32(v % Pow2(32));
      r := Wrap(bits, signed, s);
      MirrorStored(v, s, bits, signed);
    } else if bits == 64 {
      var s := Bswap64(v % Pow2(64));
      r := Wrap(bits, signed, s);
      MirrorStored(v, s, bits, signed);
    } else {
      var p := v % Pow2(128);
      Halves(p, 64);
      var lo := Bswap64(v % Pow2(64));
      var hi := Bswap64(p / Pow2(64) % Pow2(64));
      var s := BitOp(Or(), lo * Pow2(64) % Pow2(128), hi, 128);
      r := Wrap(bits, signed, s);
      JoinMirrored(v, lo, hi);
      MirrorStored(v, s, bits, signed);
    }
  }

  lemma ByteMirrored(v: int)
    ensures Mirrored(v, v, 8)
  {
    hide Bit;
  }

  lemma MirrorStored(v: int, s: int, bits: nat, signed: bool)
    requires bits > 0 && bits % 8 == 0 && Mirrored(v % Pow2(bits), s, bits)
    ensures Mirrored(v, Wrap(bits, signed, s), bits)
  {
    hide Bit, Pow2, Wrap;
    forall i: nat | i < bits ensures Bit(Wrap(bits, signed, s), i) == Bit(v, Mirror(i, bits)) {
      StoredBits(s, bits, signed, i);
      CongMod(v, Pow2(bits));
      BitCong(v % Pow2(bits), v, bits, Mirror(i, bits));
    }
  }

  lemma JoinMirrored(v: int, lo: int, hi: int)
    requires Mirrored(v % Pow2(64), lo, 64) && Mirrored(v % Pow2(128) / Pow2(64) % Pow2(64), hi, 64)
             && 0 <= hi < Pow2(64)
    ensures Mirrored(v % Pow2(128), BitOp(Or(), lo * Pow2(64) % Pow2(128), hi, 128), 128)
  {
    hide Bit, Pow2, BitOp;
    forall i: nat | i < 128
      ensures Bit(BitOp(Or(), lo * Pow2(64) % Pow2(128), hi, 128), i) == Bit(v % Pow2(128), Mirror(i, 128))
    {
      JoinedBit(lo, hi, i);
      if i < 64 { HighMirrored(v, hi, i); } else { LowMirrored(v, lo, i - 64); }
    }
  }

  /** The bits of `lo << 64 | hi`. */
  lemma JoinedBit(lo: int, hi: int, i: nat)
    requires i < 128 && 0 <= hi < Pow2(64)
    ensures Bit(BitOp(Or(), lo * Pow2(64) % Pow2(128), hi, 128), i) == if i < 64 then Bit(hi, i) else Bit(lo, i - 64)
  {
    hide Bit, Pow2, BitOp;
    BitOpBit(Or(), lo * Pow2(64) % Pow2(128), hi, 128, i);
    CongMod(lo * Pow2(64), Pow2(128));
    BitCong(lo * Pow2(64) % Pow2(128), lo * Pow2(64), 128, i);
    BitOfProduct(lo, 64, i);
    if i >= 64 { NoHighBit(hi, 64, i); }
  }

  lemma HighMirrored(v: int, hi: int, i: nat)
    requires Mirrored(v % Pow2(128) / Pow2(64) % Pow2(64), hi, 64) && i < 64
    ensures Bit(hi, i) == Bit(v % Pow2(128), Mirror(i, 128))
  {
    hide Bit, Pow2;
    var p := v % Pow2(128);
    Halves(p, 64);
    assert Mirror(i, 128) == Mirror(i, 64) + 64;
    BitShift(p, 64, Mirror(i, 64));
  }

  lemma LowMirrored(v: int, lo: int, i: nat)
    requires Mirrored(v % Pow2(64), lo, 64) && i < 64
    ensures Bit(lo, i) == Bit(v % Pow2(128), Mirror(i + 64, 128))
  {
    hide Bit, Pow2;
    assert Mirror(i + 64, 128) == Mirror(i, 64);
    CongMod(v, Pow2(128));
    CongMod(v, Pow2(64));
    BitCong(v % Pow2(64), v, 64, Mirror(i, 64));
    BitCong(v % Pow2(128), v, 128, Mirror(i, 64));
  }

  /** Swapping the bytes twice gives the value back. */
  lemma SwapTwice(v: int, r: int, q: int, bits: nat, signed: bool)
    requires Standard(bits) && InRange(bits, signed, v) && InRange(bits, signed, q)
    requires Mirrored(v, r, bits) && Mirrored(r, q, bits)
    ensures q == v
  {
    hide Bit, Pow2, InRange;
    forall i: nat | i < bits ensures Bit(q, i) == Bit(v, i) {
      var j := Mirror(i, bits);
      MirrorMirror(i, bits / 8);
      assert Bit(q, i) == Bit(r, j);
      assert Bit(r, j) == Bit(v, Mirror(j, bits));
    }
    SameBits(q, v, bits, signed);
  }

  lemma MirrorMirror(i: nat, k: nat)
    requires i < 8 * k
    ensures Mirror(i, 8 * k) < 8 * k && Mirror(Mirror(i, 8 * k), 8 * k) == i
  {
    var q, t := i / 8, i % 8;
    assert Mirror(i, 8 * k) == 8 * (k - 1 - q) + t;
    DivModUnique(Mirror(i, 8 * k), 8, k - 1 - q, t);
  }
}

/** The emitted rotation and bit-reversal texts, run as C. */
module Rotation {
  import opened Wrappers
  import opened IntMath
  import opened CSyntax
  import opened CSemantics
  import opened IntLowering
  import opened BitCounting
  import BitPermutations

  // ----- emitted text -----

  function UnsignedOrSame(ty: TypeName): TypeName {
    match UnsignedType(ty)
    case Some(ut) => ut
    case None => ty
  }

  /** `s % bits` and `(bits - s) % bits` */
  function Amount(s: Text, bits: nat): CExpr {
    Bin(Var(s), Rem, Lit(DecimalText(bits)))
  }

  function Opposite(s: Text, bits: nat): CExpr {
    Bin(Paren(Bin(Lit(DecimalText(bits)), Sub, Var(s))), Rem, Lit(DecimalText(bits)))
  }

  function RotateExpr(left: bool, v: Text, s: Text, ty: TypeName, bits: nat): CExpr {
    var u := Cast(UnsignedOrSame(ty), Var(v));
    Cast(ty, Paren(Bin(Bin(u, if left then Shl else Shr, Paren(Amount(s, bits))), BitOr,
                       Bin(u, if left then Shr else Shl, Paren(Opposite(s, bits))))))
  }

  /** `(t)(((ut)r << 1) | (((ut)v >> i) & 1))` */
  function ReverseStep(r: Text, v: Text, i: Text, ty: TypeName): CExpr {
    var ut := UnsignedOrSame(ty);
    Cast(ty, Paren(Bin(Paren(Bin(Cast(ut, Var(r)), Shl, Lit(DecimalText(1)))), BitOr,
                       Paren(Bin(Paren(Bin(Cast(ut, Var(v)), Shr, Var(i))), BitAnd, Lit(DecimalText(1)))))))
  }

  lemma RotateShaped(left: bool, v: Text, s: Text, ty: TypeName, bits: nat)
    ensures Shaped(RotateExpr(left, v, s, ty, bits))
  {
    var lit := Lit(DecimalText(bits));
    LeafShaped(s);
    LeafShaped(DecimalText(bits));
    CastShaped(UnsignedOrSame(ty), v);
    hide Shaped, Level;
    BinShaped(Var(s), Rem, lit);
    BinShaped(lit, Sub, Var(s));
    BinShaped(Paren(Bin(lit, Sub, Var(s))), Rem, lit);
    ShiftsShaped(left, Cast(UnsignedOrSame(ty), Var(v)), Paren(Amount(s, bits)), Paren(Opposite(s, bits)), ty);
  }

  lemma ShiftsShaped(left: bool, u: CExpr, a: CExpr, o: CExpr, ty: TypeName)
    requires Shaped(u) && Shaped(a) && Shaped(o) && u.Cast? && Level(a) == Level(o) == 14
    ensures Shaped(Cast(ty,
                        Paren(Bin(Bin(u, if left then Shl else Shr, a), BitOr, Bin(u, if left then Shr else Shl, o)))))
  {
    var l, r := Bin(u, if left then Shl else Shr, a), Bin(u, if left then Shr else Shl, o);
    BinShaped(u, if left then Shl else Shr, a);
    BinShaped(u, if left then Shr else Shl, o);
    BinShaped(l, BitOr, r);
    assert Shaped(Paren(Bin(l, BitOr, r)));
  }

  lemma ReverseShaped(r: Text, v: Text, i: Text, ty: TypeName)
    ensures Shaped(ReverseStep(r, v, i, ty))
  {
    var ut := UnsignedOrSame(ty);
    CastShaped(ut, r);
    CastShaped(ut, v);
    LeafShaped(i);
    LeafShaped(DecimalText(1));
    assert Level(Cast(ut, Var(r))) == Level(Cast(ut, Var(v))) == 11;
    hide Shaped, Level;
    var one := Lit(DecimalText(1));
    BinShaped(Cast(ut, Var(r)), Shl, one);
    BinShaped(Cast(ut, Var(v)), Shr, Var(i));
    BinShaped(Paren(Bin(Cast(ut, Var(v)), Shr, Var(i))), BitAnd, one);
    JoinShaped(Paren(Bin(Cast(ut, Var(r)), Shl, one)),
               Paren(Bin(Paren(Bin(Cast(ut, Var(v)), Shr, Var(i))), BitAnd, one)), ty);
  }

  // ----- the shift amounts -----

  lemma WidthIsPow2(bits: nat) returns (j: nat)
    requires Standard(bits)
    ensures bits == Pow2(j) && j <= 7
  {
    SmallPow2();
    assert Pow2(3) == 8 && Pow2(5) == 32 && Pow2(6) == 64 && Pow2(7) == 128;
    j := if bits == 8 then 3 else if bits == 16 then 4 else if bits == 32 then 5 else if bits == 64 then 6 else 7;
  }

  function IntNum(i: int): Num { Num(32, true, i) }

  /** An unsigned operand of at least int's width against a small int literal. */
  lemma BalanceUnsigned(s: Num, bits: nat)
    requires !s.signed && s.bits >= 32 && ValidNum(s) && bits <= 128
    ensures Balance(s, IntNum(bits)) == (s, Num(s.bits, false, bits))
    ensures Balance(IntNum(bits), s) == (Num(s.bits, false, bits), s)
  {
    hide Pow2;
    SmallPow2();
    Pow2Monotone(32, s.bits);
    WrapId(s.bits, false, s.v);
    WrapId(s.bits, false, bits);
  }

  lemma AmountValue(s: Num, bits: nat)
    requires !s.signed && s.bits >= 32 && ValidNum(s) && Standard(bits)
    ensures Apply(Rem, s, IntNum(bits)) == Some(Num(s.bits, false, s.v % bits))
            && ValidNum(Num(s.bits, false, s.v % bits))
  {
    hide Pow2, Wrap, Balance;
    BalanceUnsigned(s, bits);
    assert TruncRem(s.v, bits) == s.v % bits;
    RemRange(s, bits);
    WrapId(s.bits, false, s.v % bits);
  }

  lemma RemRange(s: Num, bits: nat)
    requires !s.signed && s.bits >= 32 && ValidNum(s) && bits > 0
    ensures InRange(s.bits, false, s.v % bits)
  {
    hide Pow2;
    ModLe(s.v, bits);
  }

  lemma ModLe(x: nat, m: nat)
    requires m > 0
    ensures 0 <= x % m <= x
  {
    if x / m < 0 { MulMonotone(x / m, -1, m); } else { MulMonotone(0, x / m, m); }
  }

  lemma OppositeValue(s: Num, bits: nat)
    requires !s.signed && s.bits >= 32 && ValidNum(s) && Standard(bits)
    ensures var d := Num(s.bits, false, Wrap(s.bits, false, bits - s.v));
            && Apply(Sub, IntNum(bits), s) == Some(d) && ValidNum(d)
            && Apply(Rem, d, IntNum(bits)) == Some(Num(s.bits, false, (bits - s.v) % bits))
  {
    hide Pow2, Wrap, Balance, TruncRem, TruncDiv;
    BalanceUnsigned(s, bits);
    var d := Num(s.bits, false, Wrap(s.bits, false, bits - s.v));
    AmountValue(d, bits);
    WrapCong(s.bits, false, bits - s.v);
    var j := WidthIsPow2(bits);
    CongNarrow(d.v, bits - s.v, s.bits, j);
    assert d.v % bits == (bits - s.v) % bits;
  }

  lemma OppositeAmount(s: int, bits: nat)
    requires bits > 0
    ensures (bits - s) % bits == if s % bits == 0 then 0 else bits - s % bits
  {
    var q, r := s / bits, s % bits;
    assert s == q * bits + r;
    if r == 0 {
      assert bits - s == (1 - q) * bits by { assert (1 - q) * bits == bits - q * bits; }
      DivModUnique(bits - s, bits, 1 - q, 0);
    } else {
      assert bits - s == -q * bits + (bits - r);
      DivModUnique(bits - s, bits, -q, bits - r);
    }
  }

  // ----- shifting an unsigned value of the intrinsic's width -----

  /** Shifts happen at int's width at least. */
  function ShiftWidth(bits: nat): nat {
    if bits < 32 then 32 else bits
  }

  lemma ShiftLeft(x: int, bits: nat, k: Num)
    requires Standard(bits) && 0 <= x < Pow2(bits) && k.bits >= 32 && 0 <= k.v < ShiftWidth(bits)
    ensures var r := Apply(Shl, Num(bits, false, x), k);
            r.Some? && r.value.bits >= bits && r.value.bits >= 32 && Cong(r.value.v, x * Pow2(k.v), Pow2(bits))
    ensures Apply(Shl, Num(bits, false, x), k).value.bits == ShiftWidth(bits)
  {
    hide Pow2;
    var p := Promote(Num(bits, false, x));
    WrapCongNarrow(p.bits, p.signed, x * Pow2(k.v), bits);
  }

  lemma ShiftRight(x: int, bits: nat, k: Num)
    requires Standard(bits) && 0 <= x < Pow2(bits) && k.bits >= 32 && 0 <= k.v < ShiftWidth(bits)
    ensures var r := Apply(Shr, Num(bits, false, x), k);
            r.Some? && r.value.bits >= bits && r.value.bits >= 32 && r.value.v == x / Pow2(k.v)
    ensures Apply(Shr, Num(bits, false, x), k).value.bits == ShiftWidth(bits)
  {
    hide Pow2;
  }

  lemma OrStored(a: Num, b: Num, x: int, y: int, bits: nat, signed: bool)
    requires Standard(bits) && a.bits >= bits && b.bits >= bits && Cong(a.v, x, Pow2(bits)) && Cong(b.v, y, Pow2(bits))
    ensures Apply(BitOr, a, b).Some?
    ensures Convert(bits, signed, Apply(BitOr, a, b).value.v) == Wrap(bits, signed, BitOp(Or(), x, y, bits))
  {
    hide Pow2, Wrap, BitOp, Apply, Balance;
    ModularApply(IOr, a, b, x, y, bits);
    WrapOfCong(bits, signed, Apply(BitOr, a, b).value.v, BitOp(Or(), x, y, bits));
  }

  // ----- rotation -----

  ghost predicate IntegerType(ty: TypeName, bits: nat, ptr: nat) {
    (ty.IntT? || ty.PtrWidthT?) && Width(ty, ptr) == bits && Standard(bits)
  }

  /** The fixed-width integer types, and the pointer-width ones at 32 and 64 bits. */
  lemma IntegerTypes(bits: nat, signed: bool, ptr: nat)
    requires bits in {8, 16, 32, 64, 128}
    ensures IntegerType(IntT(bits, signed), bits, ptr)
    ensures ptr == 32 || ptr == 64 ==> IntegerType(PtrWidthT(signed), ptr, ptr)
  {
  }

  lemma UnsignedCast(ty: TypeName, bits: nat, ptr: nat, v: Text, temps: Vars<Num>)
    requires IntegerType(ty, bits, ptr) && Denote(v, temps).Some?
    ensures Eval(Cast(UnsignedOrSame(ty), Var(v)), temps, ptr)
            == Some(Num(bits, false, Denote(v, temps).value.v % Pow2(bits)))
  {
    hide Pow2, Denote;
    assert Width(UnsignedOrSame(ty), ptr) == bits && !Signed(UnsignedOrSame(ty));
  }

  lemma EvalAmounts(s: Text, n: Num, bits: nat, temps: Vars<Num>, ptr: nat)
    requires Denote(s, temps) == Some(n) && !n.signed && n.bits >= 32 && ValidNum(n) && Standard(bits)
    ensures Eval(Paren(Amount(s, bits)), temps, ptr) == Some(Num(n.bits, false, n.v % bits))
    ensures Eval(Paren(Opposite(s, bits)), temps, ptr) == Some(Num(n.bits, false, (bits - n.v) % bits))
  {
    hide Apply, ValidNum, Pow2, Balance;
    var lit, sub := Lit(DecimalText(bits)), Bin(Lit(DecimalText(bits)), Sub, Var(s));
    assert Eval(lit, temps, ptr) == Some(IntNum(bits)) && Eval(Var(s), temps, ptr) == Some(n);
    AmountValue(n, bits);
    OppositeValue(n, bits);
    EvalBin(Var(s), Rem, lit, temps, ptr);
    EvalBin(lit, Sub, Var(s), temps, ptr);
    EvalParen(sub, temps, ptr);
    EvalBin(Paren(sub), Rem, lit, temps, ptr);
    EvalParen(Amount(s, bits), temps, ptr);
    EvalParen(Opposite(s, bits), temps, ptr);
  }

  lemma EvalBin(l: CExpr, op: BinOp, r: CExpr, temps: Vars<Num>, ptr: nat)
    requires Eval(l, temps, ptr).Some? && Eval(r, temps, ptr).Some?
    ensures Eval(Bin(l, op, r), temps, ptr) == Apply(op, Eval(l, temps, ptr).value, Eval(r, temps, ptr).value)
  {
    hide Conditional, Combine, Apply, ApplyUnary, Denote, Convert, Width, Signed, TypeOf;
    CombineApplies(op, Eval(l, temps, ptr).value, Eval(r, temps, ptr).value);
  }

  lemma EvalCast(ty: TypeName, e: CExpr, temps: Vars<Num>, ptr: nat)
    requires Eval(e, temps, ptr).Some? && Width(ty, ptr) > 0
    ensures Eval(Cast(ty, e), temps, ptr)
            == Some(Num(Width(ty, ptr), Signed(ty), Convert(Width(ty, ptr), Signed(ty), Eval(e, temps, ptr).value.v)))
  {
    hide Conditional, Combine, Apply, ApplyUnary, Denote, Convert, TypeOf;
  }

  /** The pattern both shifts build, before storing. */
  function RotatedPattern(left: bool, x: int, s: int, bits: nat): int
    requires bits > 0
  {
    var k, t := s % bits, (bits - s) % bits;
    if left then BitOp(Or(), x * Pow2(k), x / Pow2(t), bits) else BitOp(Or(), x / Pow2(k), x * Pow2(t), bits)
  }

  lemma RotateEvaluates(left: bool, v: Text, s: Text, ty: TypeName, bits: nat, temps: Vars<Num>, ptr: nat)
    requires IntegerType(ty, bits, ptr) && Denote(v, temps).Some?
    requires Denote(s, temps).Some? && !Denote(s, temps).value.signed && Denote(s, temps).value.bits >= 32
             && ValidNum(Denote(s, temps).value)
    ensures var x := Denote(v, temps).value.v % Pow2(bits);
            Eval(RotateExpr(left, v, s, ty, bits), temps, ptr)
            == Some(Num(bits, Signed(ty),
                        Wrap(bits, Signed(ty), RotatedPattern(left, x, Denote(s, temps).value.v, bits))))
  {
    hide Apply, Denote, Pow2, BitOp, Eval, Wrap, UnsignedOrSame;
    var n := Denote(s, temps).value;
    var x := Denote(v, temps).value.v % Pow2(bits);
    var u := Cast(UnsignedOrSame(ty), Var(v));
    var k, t := Num(n.bits, false, n.v % bits), Num(n.bits, false, (bits - n.v) % bits);
    UnsignedCast(ty, bits, ptr, v, temps);
    EvalAmounts(s, n, bits, temps, ptr);
    ShiftLeft(x, bits, k);
    ShiftRight(x, bits, k);
    ShiftLeft(x, bits, t);
    ShiftRight(x, bits, t);
    var l, r := Bin(u, if left then Shl else Shr, Paren(Amount(s, bits))),
        Bin(u, if left then Shr else Shl, Paren(Opposite(s, bits)));
    EvalBin(u, if left then Shl else Shr, Paren(Amount(s, bits)), temps, ptr);
    EvalBin(u, if left then Shr else Shl, Paren(Opposite(s, bits)), temps, ptr);
    var a, b := Eval(l, temps, ptr).value, Eval(r, temps, ptr).value;
    OrStored(a, b, if left then x * Pow2(k.v) else x / Pow2(k.v), if left then x / Pow2(t.v) else x * Pow2(t.v), bits,
             Signed(ty));
    EvalBin(l, BitOr, r, temps, ptr);
    EvalParen(Bin(l, BitOr, r), temps, ptr);
    EvalCast(ty, Paren(Bin(l, BitOr, r)), temps, ptr);
  }

  /** r is v with bit i moved up by s places, cyclically. */
  ghost predicate RotatedLeft(v: int, r: int, s: int, bits: nat)
    requires bits > 0
  {
    forall i: nat | i < bits :: Bit(r, (i + s) % bits) == Bit(v, i)
  }

  lemma PatternBit(left: bool, x: int, s: int, bits: nat, i: nat)
    requires Standard(bits) && 0 <= x < Pow2(bits) && i < bits
    ensures Bit(RotatedPattern(left, x, s, bits), if left then (i + s) % bits else (i - s) % bits) == Bit(x, i)
  {
    hide Bit, Pow2, BitOp;
    OppositeAmount(s, bits);
    var k, t := s % bits, (bits - s) % bits;
    var up, down := if left then k else t, if left then t else k;
    var j := if left then (i + s) % bits else (i - s) % bits;
    ModSum(i, s, bits);
    if left {
      BitOpBit(Or(), x * Pow2(up), x / Pow2(down), bits, j);
    } else {
      BitOpBit(Or(), x / Pow2(down), x * Pow2(up), bits, j);
    }
    BitPermutations.BitOfProduct(x, up, j);
    BitShift(x, down, j);
    if j + down >= bits { BitPermutations.NoHighBit(x, bits, j + down); }
  }

  lemma ModSum(i: nat, s: int, bits: nat)
    requires i < bits
    ensures (i + s) % bits == if i + s % bits < bits then i + s % bits else i + s % bits - bits
    ensures (i - s) % bits == if i >= s % bits then i - s % bits else i - s % bits + bits
  {
    var q, r := s / bits, s % bits;
    assert s == q * bits + r;
    if i + r < bits { DivModUnique(i + s, bits, q, i + r); } else {
      assert i + s == (q + 1) * bits + (i + r - bits) by { assert (q + 1) * bits == q * bits + bits; }
      DivModUnique(i + s, bits, q + 1, i + r - bits);
    }
    if i >= r { assert i - s == -q * bits + (i - r); DivModUnique(i - s, bits, -q, i - r); } else {
      assert i - s == (-q - 1) * bits + (i - r + bits) by { assert (-q - 1) * bits == -q * bits - bits; }
      DivModUnique(i - s, bits, -q - 1, i - r + bits);
    }
  }

  /** Running the text of `rotate_left` by any unsigned amount moves bit i to
      i + s modulo the width, and of `rotate_right` to i - s. */
  lemma RotateMeans(left: bool, v: Text, s: Text, ty: TypeName, bits: nat, temps: Vars<Num>, ptr: nat)
    requires IntegerType(ty, bits, ptr) && Denote(v, temps).Some?
    requires Denote(s, temps).Some? && !Denote(s, temps).value.signed && Denote(s, temps).value.bits >= 32
             && ValidNum(Denote(s, temps).value)
    ensures var r := Execute(Print(RotateExpr(left, v, s, ty, bits)), temps, ptr);
            var n := Denote(s, temps).value.v;
            && r.Some? && r.value.bits == bits && r.value.signed == Signed(ty) && ValidNum(r.value)
            && RotatedLeft(Denote(v, temps).value.v, r.value.v, if left then n else -n, bits)
  {
    hide Pow2, BitOp, Eval, Wrap, Bit, Denote, Execute, RotatedPattern, Shaped, Print;
    RotateShaped(left, v, s, ty, bits);
    RotateEvaluates(left, v, s, ty, bits, temps, ptr);
    ExecutePrinted(RotateExpr(left, v, s, ty, bits), temps, ptr);
    var d, n := Denote(v, temps).value.v, Denote(s, temps).value.v;
    RotateStored(left, d, n, bits, Signed(ty));
  }

  lemma RotateStored(left: bool, d: int, n: int, bits: nat, signed: bool)
    requires Standard(bits)
    ensures RotatedLeft(d, Wrap(bits, signed, RotatedPattern(left, d % Pow2(bits), n, bits)), if left then n else -n,
                        bits)
  {
    hide Pow2, BitOp, Wrap, Bit, RotatedPattern;
    var x := d % Pow2(bits);
    var p := RotatedPattern(left, x, n, bits);
    CongMod(d, Pow2(bits));
    var a := if left then n else -n;
    forall i: nat | i < bits ensures Bit(Wrap(bits, signed, p), (i + a) % bits) == Bit(d, i) {
      PatternBit(left, x, n, bits, i);
      BitPermutations.StoredBits(p, bits, signed, (i + a) % bits);
      BitCong(x, d, bits, i);
    }
  }

  /** Rotating back by the same amount, whichever way, restores the value. */
  lemma RotateBack(v: int, r: int, q: int, s: int, bits: nat, signed: bool)
    requires bits > 0 && InRange(bits, signed, v) && InRange(bits, signed, q)
    requires RotatedLeft(v, r, s, bits) && RotatedLeft(r, q, -s, bits)
    ensures q == v
  {
    hide Pow2, Bit, InRange;
    forall i: nat | i < bits ensures Bit(q, i) == Bit(v, i) {
      var j := (i + s) % bits;
      ModSum(i, s, bits);
      ModSum(j, s, bits);
      assert (j + -s) % bits == i;
      assert Bit(q, (j + -s) % bits) == Bit(r, j);
    }
    BitPermutations.SameBits(q, v, bits, signed);
  }

  // ----- bit reversal -----

  /** The low n bits of d in reverse order. */
  function Reversed(d: int, n: nat): (r: int)
    ensures 0 <= r < Pow2(n)
  {
    if n == 0 then 0 else 2 * Reversed(d, n - 1) + if Bit(d, n - 1) then 1 else 0
  }

  lemma {:induction false} ReversedBit(d: int, n: nat, k: nat)
    requires k < n
    ensures Bit(Reversed(d, n), k) == Bit(d, n - 1 - k)
    decreases n
  {
    var low := if Bit(d, n - 1) then 1 else 0;
    DivModUnique(Reversed(d, n), 2, Reversed(d, n - 1), low);
    if k > 0 { ReversedBit(d, n - 1, k - 1); }
  }

  lemma LowBitOf(x: int, i: nat, bits: nat)
    requires bits > 0
    ensures BitOp(And(), x / Pow2(i), 1, bits) == if Bit(x, i) then 1 else 0
  {
    hide BitOp, Pow2;
    SmallPow2();
    LowMask(x / Pow2(i), 1, bits - 1);
    BitShift(x, i, 0);
  }

  lemma ReverseEvaluates(e: Text, v: Text, i: Text, ty: TypeName, bits: nat, temps: Vars<Num>, ptr: nat, d: int, n: nat)
    requires IntegerType(ty, bits, ptr) && n < bits
    requires Denote(e, temps).Some? && Denote(e, temps).value.v == Wrap(bits, Signed(ty), Reversed(d, n))
    requires Denote(v, temps).Some? && Denote(v, temps).value.v == d && Denote(i, temps) == Some(IntNum(n))
    ensures Eval(ReverseStep(e, v, i, ty), temps, ptr)
            == Some(Num(bits, Signed(ty), Wrap(bits, Signed(ty), Reversed(d, n + 1))))
  {
    hide Apply, Denote, Pow2, BitOp, Eval, Wrap, UnsignedOrSame, Bit, Reversed;
    var ut := UnsignedOrSame(ty);
    var x, rev := d % Pow2(bits), Reversed(d, n);
    var one, ue, uv := Lit(DecimalText(1)), Cast(ut, Var(e)), Cast(ut, Var(v));
    UnsignedCast(ty, bits, ptr, e, temps);
    UnsignedCast(ty, bits, ptr, v, temps);
    StoredPattern(rev, n, bits, Signed(ty));
    EvalLeaf(DecimalText(1), temps, ptr);
    EvalLeaf(i, temps, ptr);
    OneDenotes(temps);
    ShiftLeft(rev, bits, IntNum(1));
    ShiftRight(x, bits, IntNum(n));
    EvalBin(ue, Shl, one, temps, ptr);
    EvalParen(Bin(ue, Shl, one), temps, ptr);
    EvalBin(uv, Shr, Var(i), temps, ptr);
    EvalParen(Bin(uv, Shr, Var(i)), temps, ptr);
    var a, b := Eval(Bin(ue, Shl, one), temps, ptr).value, Eval(Bin(uv, Shr, Var(i)), temps, ptr).value;
    MaskLowBit(b, x / Pow2(n), bits);
    EvalBin(Paren(Bin(uv, Shr, Var(i))), BitAnd, one, temps, ptr);
    EvalParen(Bin(Paren(Bin(uv, Shr, Var(i))), BitAnd, one), temps, ptr);
    var c := Apply(BitAnd, b, IntNum(1)).value;
    LowBitOf(x, n, bits);
    var bit := if Bit(x, n) then 1 else 0;
    OrStored(a, c, rev * Pow2(1), bit, bits, Signed(ty));
    var l, r := Paren(Bin(ue, Shl, one)), Paren(Bin(Paren(Bin(uv, Shr, Var(i))), BitAnd, one));
    EvalBin(l, BitOr, r, temps, ptr);
    EvalParen(Bin(l, BitOr, r), temps, ptr);
    EvalCast(ty, Paren(Bin(l, BitOr, r)), temps, ptr);
    NextReversed(d, n, bits, Signed(ty));
  }

  lemma EvalLeaf(t: Text, temps: Vars<Num>, ptr: nat)
    ensures Eval(Var(t), temps, ptr) == Denote(t, temps) && Eval(Lit(t), temps, ptr) == Denote(t, temps)
  {
  }

  lemma OneDenotes(temps: Vars<Num>)
    ensures Denote(DecimalText(1), temps) == Some(IntNum(1))
  {
  }

  lemma StoredPattern(rev: int, n: nat, bits: nat, signed: bool)
    requires 0 <= rev < Pow2(n) && n < bits
    ensures Wrap(bits, signed, rev) % Pow2(bits) == rev && 0 <= rev < Pow2(bits)
  {
    hide Pow2, Wrap;
    Pow2Monotone(n, bits);
    WrapCong(bits, signed, rev);
    DivModUnique(rev, Pow2(bits), 0, rev);
  }

  lemma MaskLowBit(b: Num, y: int, bits: nat)
    requires Standard(bits) && b.v == y && b.bits >= bits && b.bits >= 32
    ensures var r := Apply(BitAnd, b, IntNum(1));
            r.Some? && r.value.bits >= bits && Cong(r.value.v, BitOp(And(), y, 1, bits), Pow2(bits))
  {
    hide Pow2, BitOp, Wrap, Apply;
    ModularApply(IAnd, b, IntNum(1), y, 1, bits);
    AndBits(b);
  }

  lemma AndBits(b: Num)
    requires b.bits >= 32
    ensures Apply(BitAnd, b, IntNum(1)).Some? && Apply(BitAnd, b, IntNum(1)).value.bits == b.bits
  {
    hide Pow2, BitOp, Wrap;
  }

  lemma NextReversed(d: int, n: nat, bits: nat, signed: bool)
    requires n < bits
    ensures var bit := if Bit(d % Pow2(bits), n) then 1 else 0;
            Wrap(bits, signed, BitOp(Or(), Reversed(d, n) * Pow2(1), bit, bits))
              == Wrap(bits, signed, Reversed(d, n + 1))
  {
    hide Pow2, Wrap, BitOp, Bit;
    SmallPow2();
    CongMod(d, Pow2(bits));
    BitCong(d % Pow2(bits), d, bits, n);
    var bit := if Bit(d, n) then 1 else 0;
    OrDisjoint(Reversed(d, n), bit, 1, bits);
    CongMod(Reversed(d, n + 1), Pow2(bits));
    WrapOfCong(bits, signed, Reversed(d, n + 1) % Pow2(bits), Reversed(d, n + 1));
  }

  lemma DenoteExtended(t: Text, temps: Vars<Num>, a: Num, b: Num)
    requires Denote(t, temps).Some?
    ensures Denote(t, Push(Push(temps, a), b)) == Denote(t, temps)
  {
  }

  /** The emitted loop, each iteration running the text of its body. */
  method BitReverse(v: Text, ty: TypeName, bits: nat, temps: Vars<Num>, ptr: nat) returns (r: Num)
    requires IntegerType(ty, bits, ptr) && Denote(v, temps).Some?
    ensures r.bits == bits && r.signed == Signed(ty) && ValidNum(r)
    ensures forall k: nat | k < bits :: Bit(r.v, k) == Bit(Denote(v, temps).value.v, bits - 1 - k)
  {
    hide Pow2, Wrap, Eval, Bit, Denote, Execute, Shaped, Print, ReverseStep, Reversed;
    ghost var d := Denote(v, temps).value.v;
    var e, it := Temp(|temps.temps|), Temp(|temps.temps| + 1);
    StartReversed(d, bits, Signed(ty));
    r := Num(bits, Signed(ty), 0);
    var i := 0;
    while i < bits
      invariant 0 <= i <= bits
      invariant r == Num(bits, Signed(ty), Wrap(bits, Signed(ty), Reversed(d, i)))
    {
      var state := Push(Push(temps, r), IntNum(i));
      LocalsDenote(temps, r, IntNum(i));
      DenoteExtended(v, temps, r, IntNum(i));
      ReverseEvaluates(e, v, it, ty, bits, state, ptr, d, i);
      ReverseShaped(e, v, it, ty);
      ExecutePrinted(ReverseStep(e, v, it, ty), state, ptr);
      r := Execute(Print(ReverseStep(e, v, it, ty)), state, ptr).value;
      i := i + 1;
    }
    forall k: nat | k < bits ensures Bit(r.v, k) == Bit(d, bits - 1 - k) {
      BitPermutations.StoredBits(Reversed(d, bits), bits, Signed(ty), k);
      ReversedBit(d, bits, k);
    }
  }

  lemma StartReversed(d: int, bits: nat, signed: bool)
    requires bits > 0
    ensures Wrap(bits, signed, Reversed(d, 0)) == 0
  {
    hide Pow2;
    WrapId(bits, signed, 0);
  }

  lemma LocalsDenote(temps: Vars<Num>, a: Num, b: Num)
    ensures var n, both := |temps.temps|, Push(Push(temps, a), b);
            Denote(Temp(n), both) == Some(a) && Denote(Temp(n + 1), both) == Some(b)
  {
  }

  /** Reversing the bits twice gives the value back. */
  lemma ReverseTwice(v: int, r: int, q: int, bits: nat, signed: bool)
    requires bits > 0 && InRange(bits, signed, v) && InRange(bits, signed, q)
    requires forall k: nat | k < bits :: Bit(r, k) == Bit(v, bits - 1 - k)
    requires forall k: nat | k < bits :: Bit(q, k) == Bit(r, bits - 1 - k)
    ensures q == v
  {
    hide Pow2, Bit, InRange;
    forall k: nat | k < bits ensures Bit(q, k) == Bit(v, k) {
      assert Bit(r, bits - 1 - k) == Bit(v, bits - 1 - (bits - 1 - k));
    }
    BitPermutations.SameBits(q, v, bits, signed);
  }

  // ----- funnel shifts -----

  function FunnelExpr(left: bool, a: Text, b: Text, s: Text, ty: TypeName, bits: nat): CExpr {
    var ut := UnsignedOrSame(ty);
    Cast(ty, Paren(Bin(Paren(Bin(Cast(ut, Var(a)), if left then Shl else Shr, Var(s))), BitOr,
                       Paren(Bin(Cast(ut, Var(b)), if left then Shr else Shl,
                                 Paren(Bin(Lit(DecimalText(bits)), Sub, Var(s))))))))
  }

  lemma FunnelShaped(left: bool, a: Text, b: Text, s: Text, ty: TypeName, bits: nat)
    ensures Shaped(FunnelExpr(left, a, b, s, ty, bits))
  {
    var ut, lit := UnsignedOrSame(ty), Lit(DecimalText(bits));
    LeafShaped(s);
    LeafShaped(DecimalText(bits));
    CastShaped(ut, a);
    CastShaped(ut, b);
    assert Level(Cast(ut, Var(a))) == Level(Cast(ut, Var(b))) == 11;
    hide Shaped, Level;
    var up, down := if left then Shl else Shr, if left then Shr else Shl;
    BinShaped(lit, Sub, Var(s));
    BinShaped(Cast(ut, Var(a)), up, Var(s));
    BinShaped(Cast(ut, Var(b)), down, Paren(Bin(lit, Sub, Var(s))));
    JoinShaped(Paren(Bin(Cast(ut, Var(a)), up, Var(s))),
               Paren(Bin(Cast(ut, Var(b)), down, Paren(Bin(lit, Sub, Var(s))))), ty);
  }

  lemma JoinShaped(l: CExpr, r: CExpr, ty: TypeName)
    requires Shaped(l) && Shaped(r) && Level(l) == Level(r) == 14
    ensures Shaped(Cast(ty, Paren(Bin(l, BitOr, r))))
  {
    BinShaped(l, BitOr, r);
  }

  /** The bits either funnel text produces: the first operand shifted by s and the
      second filling the vacated end. */
  ghost predicate Funnelled(left: bool, a: int, b: int, r: int, s: nat, bits: nat)
    requires s <= bits
  {
    forall i: nat | i < bits ::
      Bit(r, i) == if left then (if i >= s then Bit(a, i - s) else Bit(b, i + bits - s))
                   else (if i + s < bits then Bit(a, i + s) else Bit(b, i + s - bits))
  }

  lemma FunnelAmount(n: Num, bits: nat)
    requires !n.signed && n.bits >= 32 && ValidNum(n) && Standard(bits) && n.v < bits
    ensures Apply(Sub, IntNum(bits), n) == Some(Num(n.bits, false, bits - n.v))
  {
    hide Pow2, Wrap, Balance;
    OppositeValue(n, bits);
    SmallPow2();
    Pow2Monotone(32, n.bits);
    WrapId(n.bits, false, bits - n.v);
  }

  lemma ShiftTooFar(left: bool, x: int, bits: nat, k: Num)
    requires bits >= 32 && k.bits >= 32 && k.v >= bits
    ensures Apply(if left then Shl else Shr, Num(bits, false, x), k) == None
  {
  }

  /** A funnel shift by an amount below the width has a value unless the amount is
      zero and the type is at least as wide as int; where it has one, these are
      its bits. */
  lemma FunnelMeans(left: bool, a: Text, b: Text, s: Text, ty: TypeName, bits: nat, temps: Vars<Num>, ptr: nat)
    requires IntegerType(ty, bits, ptr) && Denote(a, temps).Some? && Denote(b, temps).Some?
    requires Denote(s, temps).Some? && !Denote(s, temps).value.signed && Denote(s, temps).value.bits >= 32
    requires ValidNum(Denote(s, temps).value) && Denote(s, temps).value.v < bits
    ensures var e := FunnelExpr(left, a, b, s, ty, bits);
            var n := Denote(s, temps).value.v;
            var r := Execute(Print(e), temps, ptr);
            && (r.Some? <==> n > 0 || bits < 32)
            && (r.Some? ==> Funnelled(left, Denote(a, temps).value.v, Denote(b, temps).value.v, r.value.v, n, bits))
  {
    hide Apply, Denote, Pow2, BitOp, Eval, Wrap, UnsignedOrSame, Execute, Shaped, Print, Bit;
    FunnelShaped(left, a, b, s, ty, bits);
    ExecutePrinted(FunnelExpr(left, a, b, s, ty, bits), temps, ptr);
    var n := Denote(s, temps).value;
    var x, y := Denote(a, temps).value.v % Pow2(bits), Denote(b, temps).value.v % Pow2(bits);
    var ua, ub := Cast(UnsignedOrSame(ty), Var(a)), Cast(UnsignedOrSame(ty), Var(b));
    var lit := Lit(DecimalText(bits));
    var up, down := if left then Shl else Shr, if left then Shr else Shl;
    var rest := Paren(Bin(lit, Sub, Var(s)));
    var d := Num(n.bits, false, bits - n.v);
    UnsignedCast(ty, bits, ptr, a, temps);
    UnsignedCast(ty, bits, ptr, b, temps);
    FunnelAmount(n, bits);
    EvalLeaf(s, temps, ptr);
    EvalLeaf(DecimalText(bits), temps, ptr);
    LiteralDenotes(bits, temps);
    EvalBin(lit, Sub, Var(s), temps, ptr);
    EvalParen(Bin(lit, Sub, Var(s)), temps, ptr);
    if left { ShiftLeft(x, bits, n); } else { ShiftRight(x, bits, n); }
    EvalBin(ua, up, Var(s), temps, ptr);
    EvalParen(Bin(ua, up, Var(s)), temps, ptr);
    EvalBin(ub, down, rest, temps, ptr);
    var l, r := Bin(ua, up, Var(s)), Bin(ub, down, rest);
    if n.v == 0 && bits >= 32 {
      ShiftTooFar(!left, y, bits, d);
      NoneParen(r, temps, ptr);
      NoneBin(Paren(l), BitOr, Paren(r), temps, ptr);
      NoneParen(Bin(Paren(l), BitOr, Paren(r)), temps, ptr);
      NoneCast(ty, Paren(Bin(Paren(l), BitOr, Paren(r))), temps, ptr);
    } else {
      if left { ShiftRight(y, bits, d); } else { ShiftLeft(y, bits, d); }
      EvalParen(r, temps, ptr);
      EvalBin(Paren(l), BitOr, Paren(r), temps, ptr);
      var p, q := if left then x * Pow2(n.v) else x / Pow2(n.v), if left then y / Pow2(d.v) else y * Pow2(d.v);
      OrStored(Eval(l, temps, ptr).value, Eval(r, temps, ptr).value, p, q, bits, Signed(ty));
      EvalParen(Bin(Paren(l), BitOr, Paren(r)), temps, ptr);
      EvalCast(ty, Paren(Bin(Paren(l), BitOr, Paren(r))), temps, ptr);
      FunnelStored(left, Denote(a, temps).value.v, Denote(b, temps).value.v, n.v, bits, Signed(ty));
    }
  }

  lemma LiteralDenotes(bits: nat, temps: Vars<Num>)
    ensures Denote(DecimalText(bits), temps) == Some(IntNum(bits))
  {
  }

  lemma NoneParen(e: CExpr, temps: Vars<Num>, ptr: nat)
    requires Eval(e, temps, ptr) == None
    ensures Eval(Paren(e), temps, ptr) == None
  {
  }

  lemma NoneBin(l: CExpr, op: BinOp, r: CExpr, temps: Vars<Num>, ptr: nat)
    requires Eval(r, temps, ptr) == None && !op.LogAnd? && !op.LogOr?
    ensures Eval(Bin(l, op, r), temps, ptr) == None
  {
    hide Conditional, Apply, ApplyUnary, Denote, Convert, Width, Signed, TypeOf;
  }

  lemma NoneCast(ty: TypeName, e: CExpr, temps: Vars<Num>, ptr: nat)
    requires Eval(e, temps, ptr) == None
    ensures Eval(Cast(ty, e), temps, ptr) == None
  {
  }

  lemma FunnelStored(left: bool, a: int, b: int, s: nat, bits: nat, signed: bool)
    requires Standard(bits) && s < bits
    ensures var x, y := a % Pow2(bits), b % Pow2(bits);
            var p, q := if left then x * Pow2(s) else x / Pow2(s),
                if left then y / Pow2(bits - s) else y * Pow2(bits - s);
            Funnelled(left, a, b, Wrap(bits, signed, BitOp(Or(), p, q, bits)), s, bits)
  {
    hide Pow2, Wrap, BitOp, Bit;
    var x, y := a % Pow2(bits), b % Pow2(bits);
    var p, q := if left then x * Pow2(s) else x / Pow2(s), if left then y / Pow2(bits - s) else y * Pow2(bits - s);
    CongMod(a, Pow2(bits));
    CongMod(b, Pow2(bits));
    var r := Wrap(bits, signed, BitOp(Or(), p, q, bits));
    forall i: nat | i < bits
      ensures Bit(r, i) == if left then (if i >= s then Bit(a, i - s) else Bit(b, i + bits - s))
                           else (if i + s < bits then Bit(a, i + s) else Bit(b, i + s - bits))
    {
      BitPermutations.StoredBits(BitOp(Or(), p, q, bits), bits, signed, i);
      BitOpBit(Or(), p, q, bits, i);
      if left {
        BitPermutations.BitOfProduct(x, s, i);
        BitShift(y, bits - s, i);
        if i >= s {
          BitCong(x, a, bits, i - s);
          BitPermutations.NoHighBit(y, bits, i + bits - s);
        } else {
          BitCong(y, b, bits, i + bits - s);
        }
      } else {
        BitShift(x, s, i);
        BitPermutations.BitOfProduct(y, bits - s, i);
        if i + s < bits {
          BitCong(x, a, bits, i + s);
        } else {
          BitCong(y, b, bits, i + s - bits);
          BitPermutations.NoHighBit(x, bits, i + s);
        }
      }
    }
  }

  /** The right funnel shift of the pair with a above b takes its low half's bits
      from b first. The emitted text takes them from a first: it agrees exactly
      when the two operands have the same pattern. */
  lemma FunnelRightExchangesOperands(a: int, b: int, r: int, s: nat, bits: nat)
    requires bits > 0 && s < bits && Funnelled(false, a, b, r, s, bits)
    ensures Funnelled(false, b, a, r, s, bits) <==> a % Pow2(bits) == b % Pow2(bits)
  {
    hide Pow2, Bit;
    var m := Pow2(bits);
    CongMod(a, m);
    CongMod(b, m);
    if a % m == b % m {
      forall i: nat | i < bits ensures Bit(a, i) == Bit(b, i) { BitCong(a, b, bits, i); }
    }
    if Funnelled(false, b, a, r, s, bits) {
      forall k: nat | k < bits ensures Bit(a % m, k) == Bit(b % m, k) {
        BitCong(a % m, a, bits, k);
        BitCong(b % m, b, bits, k);
        var i: nat := if k >= s then k - s else k + bits - s;
        assert Bit(r, i) == if i + s < bits then Bit(a, i + s) else Bit(b, i + s - bits);
      }
      BitsDetermine(a % m, b % m, bits);
    }
  }

  /** Whatever byte the emitted right funnel shift of 1 and 0 by 1 stores, it is not
      the one meant. */
  lemma FunnelRightFails(r: int)
    requires Funnelled(false, 1, 0, r, 1, 8)
    ensures !Funnelled(false, 0, 1, r, 1, 8)
  {
    hide Bit;
    SmallPow2();
    FunnelRightExchangesOperands(1, 0, r, 1, 8);
  }
}
