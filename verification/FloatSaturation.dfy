/** The saturating conversions from floating point: what their nested conditionals
    compute, and where they are undefined. */
module FloatSaturation {
  import opened Wrappers
  import opened IntMath
  import opened CSyntax
  import opened CSemantics
  import opened BuilderShapes
  import opened BuilderValues
  import StandardTypes

  // ----- limits as doubles -----

  lemma {:induction false} SpacingIs(n: nat, k: nat)
    requires Pow2(52 + k) <= n < Pow2(53 + k)
    ensures Spacing(n) == Pow2(k)
    decreases k
  {
    hide Pow2;
    Pow53();
    Double(53 + k);
    if k > 0 {
      Double(52 + k);
      Double(k);
      Pow2Monotone(53, 52 + k);
      SpacingIs(n / 2, k - 1);
    } else {
      PowZero();
    }
  }

  lemma PowZero()
    ensures Pow2(0) == 1
  {
  }

  lemma Pow53()
    ensures Pow2(53) == 0x20_0000_0000_0000 && Pow2(52) == 0x10_0000_0000_0000
    ensures Pow2(63) == 0x8000_0000_0000_0000 && Pow2(64) == 0x1_0000_0000_0000_0000 && Pow2(11) == 0x800
            && Pow2(10) == 0x400
  {
    assert Pow2(10) == 0x400 && Pow2(11) == 0x800;
    Pow2Add(10, 10);
    Pow2Add(20, 11);
    Pow2Add(20, 20);
    Pow2Add(40, 12);
    Pow2Add(2, 10);
    Double(53);
    Pow2Add(52, 11);
    Pow2Add(53, 11);
  }

  /** 2^w - 1 is a double up to 53 bits; beyond, it rounds up to 2^w. */
  lemma NearestAllOnes(w: nat)
    requires w <= 53 || w == 63 || w == 64
    ensures Nearest(Pow2(w) - 1) == if w <= 53 then Pow2(w) - 1 else Pow2(w)
  {
    hide Pow2, Spacing;
    Pow53();
    Pow2Monotone(0, w);
    PowZero();
    if w <= 53 {
      Pow2Monotone(w, 53);
      SmallExact(Pow2(w) - 1);
    } else {
      Double(w);
      SpacingIs(Pow2(w) - 1, w - 53);
    }
  }

  lemma SmallExact(n: nat)
    requires n < 0x20_0000_0000_0000
    ensures Nearest(n) == n
  {
    DivModUnique(n, 1, n, 0);
  }

  /** Powers of two are doubles. */
  lemma NearestPower(w: nat)
    requires w <= 52 || w == 63
    ensures Nearest(Pow2(w)) == Pow2(w)
  {
    hide Pow2, Spacing;
    Pow53();
    Pow2Monotone(0, w);
    if w <= 52 {
      Pow2Monotone(w, 52);
      SmallExact(Pow2(w));
    } else {
      SpacingIs(Pow2(w), 11);
    }
  }

  // ----- conditionals over one integer type -----

  function Promoted(w: nat, s: bool): Kind { PromotedKind(Kind(w, s)) }

  /** The tree is of type (w, s), promoted or not, and has value v, or none. */
  ghost predicate Yields(t: Tree, v: Option<int>, w: nat, s: bool, cx: Context) {
    && w > 1 && (KindIn(t, cx) == Some(Kind(w, s)) || KindIn(t, cx) == Some(Promoted(w, s)))
    && match v
       case None => Evaluate(t, cx) == None
       case Some(k) => InRange(w, s, k) && NumOf(Evaluate(t, cx)).Some? && NumOf(Evaluate(t, cx)).value.v == k
  }

  lemma ParenYields(t: Tree, v: Option<int>, w: nat, s: bool, cx: Context)
    requires Yields(t, v, w, s, cx)
    ensures Yields(ParenT(t), v, w, s, cx)
  {
    assert Evaluate(ParenT(t), cx) == Evaluate(t, cx) && KindIn(ParenT(t), cx) == KindIn(t, cx);
  }

  lemma PromotedHolds(w: nat, s: bool, k: int)
    requires w > 1 && InRange(w, s, k)
    ensures var p := Promoted(w, s); p.bits > 0 && Wrap(p.bits, p.signed, k) == k
    ensures CommonKind(Kind(w, s), Kind(w, s)) == CommonKind(Kind(w, s), Promoted(w, s)) == Promoted(w, s)
    ensures CommonKind(Promoted(w, s), Kind(w, s)) == CommonKind(Promoted(w, s), Promoted(w, s)) == Promoted(w, s)
  {
    hide Pow2, Wrap;
    if w < 32 { InRangeWider(w, s, k, 32, true); }
    WrapId(Promoted(w, s).bits, Promoted(w, s).signed, k);
  }

  /** `(c) ? (a) : (b)` */
  lemma CondYields(c: Tree, a: Tree, b: Tree, holds: bool, va: Option<int>, vb: Option<int>, w: nat, s: bool,
                   cx: Context)
    requires Evaluate(c, cx) == Some(I(Truth(holds))) && Yields(a, va, w, s, cx) && Yields(b, vb, w, s, cx)
    ensures Yields(CondT(ParenT(c), ParenT(a), ParenT(b)), if holds then va else vb, w, s, cx)
  {
    hide Wrap, Pow2, Yields;
    ParenYields(a, va, w, s, cx);
    ParenYields(b, vb, w, s, cx);
    assert Evaluate(ParenT(c), cx) == Some(I(Truth(holds)));
    Chosen(ParenT(c), ParenT(a), ParenT(b), holds, va, vb, w, s, cx);
  }

  lemma Chosen(c: Tree, a: Tree, b: Tree, holds: bool, va: Option<int>, vb: Option<int>, w: nat, s: bool, cx: Context)
    requires Evaluate(c, cx) == Some(I(Truth(holds))) && Yields(a, va, w, s, cx) && Yields(b, vb, w, s, cx)
    ensures Yields(CondT(c, a, b), if holds then va else vb, w, s, cx)
  {
    hide Wrap, Pow2, InRange, CommonKind, PromotedKind, Evaluate, KindIn;
    var v := if holds then va else vb;
    ZeroFits(w, s);
    PromotedHolds(w, s, if v.Some? then v.value else 0);
    CondUnfolds(c, a, b, cx);
  }

  lemma CondUnfolds(c: Tree, a: Tree, b: Tree, cx: Context)
    ensures KindIn(CondT(c, a, b), cx) == ArmsKind(Some(Kind(32, true)), KindIn(a, cx), KindIn(b, cx))
    ensures Evaluate(CondT(c, a, b), cx)
            == AsVal(Conditional(NumOf(Evaluate(c, cx)), NumOf(Evaluate(a, cx)), NumOf(Evaluate(b, cx)),
                                 KindIn(CondT(c, a, b), cx)))
  {
    hide Conditional, ArmsKind;
  }

  lemma ZeroFits(w: nat, s: bool)
    requires w > 1
    ensures InRange(w, s, 0)
  {
    Pow2Monotone(0, w - 1);
  }

  // ----- the clamp -----

  /** What converting x to a w-bit integer gives, or none where C leaves it undefined. */
  function Conversion(x: Flt, w: nat, s: bool): Option<int>
    requires w > 0
  {
    if x.Finite? && InRange(w, s, Truncated(x.r)) then Some(Truncated(x.r)) else None
  }

  /** The nested conditionals on numbers: `lo` and `hi` are the limits as doubles. */
  function ClampedTo(x: Flt, lo: int, hi: int, w: nat, s: bool): Option<int>
    requires w > 0
  {
    if x.NaN? then Some(0)
    else if Below(x, Finite(lo as real)) then Some(lo)
    else if Below(Finite(hi as real), x) then Conversion(Finite(hi as real), w, s)
    else Conversion(x, w, s)
  }

  lemma WholeTruncates(n: int)
    ensures Truncated(n as real) == n
  {
  }

  lemma CastYields(ty: TypeName, t: Tree, x: Flt, cx: Context)
    requires Width(ty, cx.ptr) > 1 && !ty.FloatT? && Evaluate(t, cx) == Some(F(x))
    ensures Yields(CastT(ty, t), Conversion(x, Width(ty, cx.ptr), Signed(ty)), Width(ty, cx.ptr), Signed(ty), cx)
  {
    hide InRange, Truncated, Width, Signed;
  }

  lemma ZeroYields(ty: TypeName, cx: Context)
    requires Width(ty, cx.ptr) > 1 && !ty.FloatT? && DecimalText(0) !in cx.env
    ensures Yields(CastT(ty, Leaf(DecimalText(0))), Some(0), Width(ty, cx.ptr), Signed(ty), cx)
  {
    hide Width, Signed, Wrap;
    var w, s := Width(ty, cx.ptr), Signed(ty);
    ZeroFits(w, s);
    WrapId(w, s, 0);
    assert Evaluate(Leaf(DecimalText(0)), cx) == Some(I(Num(32, true, 0)));
    ConvertedNum(ty, Num(32, true, 0), cx.ptr);
  }

  lemma Compared(op: BinOp, v: Text, x: Flt, limit: Tree, n: int, cx: Context)
    requires v in cx.env && cx.env[v] == F(x) && Evaluate(limit, cx) == Some(F(Finite(n as real)))
    requires op == Lt || op == Gt
    ensures Evaluate(BinT(op, Leaf(v), limit), cx)
            == Some(I(Truth(if op.Lt? then Below(x, Finite(n as real)) else Below(Finite(n as real), x))))
  {
    hide Below;
  }

  lemma ClampedReading(v: Text, ty: TypeName, min: CExpr, below: CExpr, max: CExpr)
    ensures Reading(Clamped(v, ty, min, below, max)) ==
            CondT(ParenT(Reading(NotANumber(v))), ParenT(CastT(ty, Leaf(DecimalText(0)))),
                  ParenT(CondT(ParenT(BinT(Lt, Leaf(v), Reading(min))), ParenT(Reading(below)),
                               ParenT(CondT(ParenT(BinT(Gt, Leaf(v), Reading(max))), ParenT(CastT(ty, Reading(max))),
                                            ParenT(CastT(ty, Leaf(v))))))))
  {
    hide NotANumber;
    var inner := Ternary(Bin(Var(v), Gt, max), Cast(ty, max), Cast(ty, Var(v)));
    assert Reading(Bin(Var(v), Gt, max)) == BinT(Gt, Leaf(v), Reading(max));
    assert Reading(Cast(ty, Var(v))) == CastT(ty, Leaf(v));
    assert Reading(inner) == CondT(ParenT(BinT(Gt, Leaf(v), Reading(max))), ParenT(CastT(ty, Reading(max))),
                                   ParenT(CastT(ty, Leaf(v))));
    var mid := Ternary(Bin(Var(v), Lt, min), below, inner);
    assert Reading(Bin(Var(v), Lt, min)) == BinT(Lt, Leaf(v), Reading(min));
    assert Reading(mid) == CondT(ParenT(BinT(Lt, Leaf(v), Reading(min))), ParenT(Reading(below)),
                                 ParenT(Reading(inner)));
    assert Reading(Cast(ty, Lit(DecimalText(0)))) == CastT(ty, Leaf(DecimalText(0)));
  }

  lemma ClampedYields(v: Text, ty: TypeName, min: CExpr, below: CExpr, max: CExpr, x: Flt, lo: int, hi: int,
                      cx: Context)
    requires Width(ty, cx.ptr) > 1 && !ty.FloatT? && DecimalText(0) !in cx.env && v in cx.env && cx.env[v] == F(x)
    requires Evaluate(Reading(min), cx) == Some(F(Finite(lo as real)))
    requires Evaluate(Reading(max), cx) == Some(F(Finite(hi as real)))
    requires Yields(Reading(below), Some(lo), Width(ty, cx.ptr), Signed(ty), cx)
    ensures Yields(Reading(Clamped(v, ty, min, below, max)),
                   ClampedTo(x, lo, hi, Width(ty, cx.ptr), Signed(ty)), Width(ty, cx.ptr), Signed(ty), cx)
  {
    hide Yields, Evaluate, Reading, Below, Conversion, NotANumber, Width, Signed;
    var w, s := Width(ty, cx.ptr), Signed(ty);
    ClampedReading(v, ty, min, below, max);
    NotANumberMeans(v, x, cx);
    Compared(Lt, v, x, Reading(min), lo, cx);
    Compared(Gt, v, x, Reading(max), hi, cx);
    CastYields(ty, Reading(max), Finite(hi as real), cx);
    VariableLeaf(v, x, cx);
    CastYields(ty, Leaf(v), x, cx);
    ZeroYields(ty, cx);
    var over, under := Below(Finite(hi as real), x), Below(x, Finite(lo as real));
    var ch, cv := Conversion(Finite(hi as real), w, s), Conversion(x, w, s);
    var inner := CondT(ParenT(BinT(Gt, Leaf(v), Reading(max))), ParenT(CastT(ty, Reading(max))),
                       ParenT(CastT(ty, Leaf(v))));
    CondYields(BinT(Gt, Leaf(v), Reading(max)), CastT(ty, Reading(max)), CastT(ty, Leaf(v)), over, ch, cv, w, s, cx);
    var mid := CondT(ParenT(BinT(Lt, Leaf(v), Reading(min))), ParenT(Reading(below)), ParenT(inner));
    CondYields(BinT(Lt, Leaf(v), Reading(min)), Reading(below), inner, under, Some(lo), if over then ch else cv, w, s,
               cx);
    CondYields(Reading(NotANumber(v)), CastT(ty, Leaf(DecimalText(0))), mid, x.NaN?, Some(0),
               if under then Some(lo) else if over then ch else cv, w, s, cx);
  }

  lemma VariableLeaf(v: Text, x: Flt, cx: Context)
    requires v in cx.env && cx.env[v] == F(x)
    ensures Evaluate(Leaf(v), cx) == Some(F(x))
  {
  }

  // ----- the saturating conversion -----

  /** The meaning of the saturating conversion: NaN to 0, what lies outside to the
      nearer end of the range, everything else truncated. */
  function Saturated(x: Flt, lo: int, hi: int): int {
    match x
    case NaN => 0
    case Infinite(negative) => if negative then lo else hi
    case Finite(r) => if r < lo as real then lo else if r > hi as real then hi else Truncated(r)
  }

  /** The types it is emitted for. */
  predicate Saturable(ty: TypeName, ptr: nat) {
    match ty
    case IntT(bits, _) => bits == 8 || bits == 16 || bits == 32 || bits == 64
    case PtrWidthT(_) => ptr == 32 || ptr == 64
    case _ => false
  }

  /** Every standard integer type narrower than 128 bits. */
  lemma SaturableTypes(ty: TypeName, ptr: nat)
    ensures Saturable(ty, ptr)
            <==> StandardTypes.Standard(ty, ptr) && 1 < StandardTypes.BitsOf(ty, ptr) < 128
  {
  }

  /** Opaque texts other than the macros mean what they do in C: they are no numbers,
      and the macros are the limits of the pointer-width types. */
  ghost predicate LimitsKnown(cx: Context) {
    && cx.ptr > 1 && DecimalText(0) !in cx.env && (forall n :: RealText(n) !in cx.env)
    && Atom("UINTPTR_MAX") in cx.env && cx.env[Atom("UINTPTR_MAX")] == I(Num(cx.ptr, false, Pow2(cx.ptr) - 1))
    && Atom("INTPTR_MAX") in cx.env && cx.env[Atom("INTPTR_MAX")] == I(Num(cx.ptr, true, Pow2(cx.ptr - 1) - 1))
    && Atom("INTPTR_MIN") in cx.env && cx.env[Atom("INTPTR_MIN")] == I(Num(cx.ptr, true, -Pow2(cx.ptr - 1)))
  }

  lemma LimitValue(ty: TypeName, n: int, e: CExpr, macro: Text, signed: bool, cx: Context)
    requires e == if ty.IntT? then Lit(RealText(n)) else Cast(FloatT(64), Var(macro))
    requires (forall k :: RealText(k) !in cx.env) && macro in cx.env
    requires !ty.IntT? ==> cx.env[macro] == I(Num(cx.ptr, signed, n))
    ensures Evaluate(Reading(e), cx) == Some(F(Finite(NearestDouble(n) as real)))
  {
    hide NearestDouble;
  }

  /** At or above hi + 1, where 64-bit limits round. */
  predicate Beyond(x: Flt, hi: int) {
    match x
    case NaN => false
    case Infinite(negative) => !negative
    case Finite(r) => r >= (hi + 1) as real
  }

  /** With exact limits the clamp saturates; where the upper limit rounds up to hi + 1
      it does exactly below that, and is undefined from there on. */
  lemma ClampSaturates(x: Flt, lo: int, hi: int, limit: int, w: nat, s: bool)
    requires w > 1 && lo <= 0 < hi && InRange(w, s, lo) && InRange(w, s, hi) && !InRange(w, s, hi + 1)
             && !InRange(w, s, lo - 1)
    requires limit == hi || limit == hi + 1
    ensures var c := ClampedTo(x, lo, limit, w, s);
            if limit == hi + 1 && Beyond(x, hi) then c == None else c == Some(Saturated(x, lo, hi))
  {
    WholeTruncates(limit);
    if x.Finite? { TruncatedBounds(x.r); }
  }

  lemma TruncatedBounds(r: real)
    ensures r >= 0.0 ==> Truncated(r) as real <= r < (Truncated(r) + 1) as real
    ensures r < 0.0 ==> (Truncated(r) - 1) as real < r <= Truncated(r) as real
    ensures r >= 0.0 ==> Truncated(r) >= 0
    ensures r < 0.0 ==> Truncated(r) <= 0
  {
  }

  function BitsOf(ty: TypeName, ptr: nat): nat { if ty.IntT? then ty.bits else ptr }

  lemma SaturableWidth(ty: TypeName, signed: bool, ptr: nat)
    requires Saturable(ty, ptr) && ty.signed == signed
    ensures Width(ty, ptr) == BitsOf(ty, ptr) && Signed(ty) == signed && !ty.FloatT?
    ensures BitsOf(ty, ptr) in {8, 16, 32, 64}
  {
  }

  /** The limits of the two families, as doubles: only the upper ones of 64 bits are
      rounded. */
  lemma RoundedLimits(w: nat)
    requires w in {8, 16, 32, 64}
    ensures Pow2(w) == 2 * Pow2(w - 1) && Pow2(w - 1) >= 2
    ensures NearestDouble(Pow2(w) - 1) == if w == 64 then Pow2(w) else Pow2(w) - 1
    ensures NearestDouble(Pow2(w - 1) - 1) == if w == 64 then Pow2(w - 1) else Pow2(w - 1) - 1
    ensures NearestDouble(-Pow2(w - 1)) == -Pow2(w - 1) && NearestDouble(0) == 0
  {
    hide Pow2, Nearest;
    Double(w);
    Pow2Monotone(1, w - 1);
    PowOne();
    NearestAllOnes(w);
    NearestAllOnes(w - 1);
    NearestPower(w - 1);
    SmallExact(0);
  }

  lemma PowOne()
    ensures Pow2(1) == 2
  {
  }

  lemma FitsLimits(w: nat)
    requires w > 1 && Pow2(w) == 2 * Pow2(w - 1) && Pow2(w - 1) >= 2
    ensures InRange(w, false, 0) && InRange(w, false, Pow2(w) - 1) && !InRange(w, false, Pow2(w))
            && !InRange(w, false, -1)
    ensures InRange(w, true, -Pow2(w - 1)) && InRange(w, true, Pow2(w - 1) - 1)
    ensures !InRange(w, true, Pow2(w - 1)) && !InRange(w, true, -Pow2(w - 1) - 1)
  {
    hide Pow2;
  }

  /** The result of running a text: the value, or none. */
  ghost predicate Results(text: seq<Token>, v: Option<int>, cx: Context) {
    match v
    case None => Run(text, cx) == None
    case Some(k) => NumOf(Run(text, cx)).Some? && NumOf(Run(text, cx)).value.v == k
  }

  /** Main result: the emitted conversion to an unsigned type saturates every value,
      except that at 64 bits it is undefined exactly from 2^64 up, infinity included. */
  lemma SaturatingUnsignedMeans(ty: TypeName, v: Text, x: Flt, cx: Context)
    requires Saturable(ty, cx.ptr) && !ty.signed && LimitsKnown(cx) && v in cx.env && cx.env[v] == F(x)
    ensures var w := BitsOf(ty, cx.ptr);
            Results(Print(SaturatingUnsigned(v, ty)),
                    if w == 64 && Beyond(x, Pow2(64) - 1) then None else Some(Saturated(x, 0, Pow2(w) - 1)), cx)
  {
    hide Evaluate, Reading, ReadExpr, Print, Pow2, Yields, NearestDouble, Saturated, ClampedTo, Width, Signed, Clamped;
    var w := BitsOf(ty, cx.ptr);
    SaturableWidth(ty, false, cx.ptr);
    RoundedLimits(w);
    FitsLimits(w);
    var min, below, max := Lit(RealText(0)), Cast(ty, Lit(DecimalText(0))), UnsignedMax(ty);
    LimitValue(IntT(w, false), 0, min, Atom("INTPTR_MIN"), true, cx);
    LimitValue(ty, Pow2(w) - 1, max, Atom("UINTPTR_MAX"), false, cx);
    ZeroYields(ty, cx);
    assert Reading(below) == CastT(ty, Leaf(DecimalText(0))) by { ZeroReading(ty); }
    ClampedYields(v, ty, min, below, max, x, 0, NearestDouble(Pow2(w) - 1), cx);
    ClampSaturates(x, 0, Pow2(w) - 1, NearestDouble(Pow2(w) - 1), w, false);
    SaturatingReads(v, ty);
    YieldsResults(SaturatingUnsigned(v, ty), ClampedTo(x, 0, NearestDouble(Pow2(w) - 1), w, false), w, false, cx);
  }

  lemma ZeroReading(ty: TypeName)
    ensures Reading(Cast(ty, Lit(DecimalText(0)))) == CastT(ty, Leaf(DecimalText(0)))
  {
  }

  lemma YieldsResults(e: CExpr, v: Option<int>, w: nat, s: bool, cx: Context)
    requires ReadExpr(Print(e)) == Got(Reading(e), []) && Yields(Reading(e), v, w, s, cx)
    ensures Results(Print(e), v, cx)
  {
    hide Evaluate, Reading, Print, ReadExpr;
  }

  /** To a signed type it saturates likewise, undefined at 64 bits exactly from 2^63
      up; the lower limit is exact. */
  lemma SaturatingSignedMeans(ty: TypeName, v: Text, x: Flt, cx: Context)
    requires Saturable(ty, cx.ptr) && ty.signed && LimitsKnown(cx) && v in cx.env && cx.env[v] == F(x)
    ensures var w := BitsOf(ty, cx.ptr);
            Results(Print(SaturatingSigned(v, ty)),
                    if w == 64 && Beyond(x, Pow2(63) - 1) then None
                    else Some(Saturated(x, -Pow2(w - 1), Pow2(w - 1) - 1)), cx)
  {
    hide Evaluate, Reading, ReadExpr, Print, Pow2, Yields, NearestDouble, Saturated, ClampedTo, Width, Signed, Clamped;
    var w := BitsOf(ty, cx.ptr);
    SaturableWidth(ty, true, cx.ptr);
    RoundedLimits(w);
    FitsLimits(w);
    var lo, hi := -Pow2(w - 1), Pow2(w - 1) - 1;
    var min, max := SignedMin(ty), SignedMax(ty);
    LimitValue(ty, lo, min, Atom("INTPTR_MIN"), true, cx);
    LimitValue(ty, hi, max, Atom("INTPTR_MAX"), true, cx);
    LowerYields(ty, min, lo, cx);
    ClampedYields(v, ty, min, Cast(ty, min), max, x, lo, NearestDouble(hi), cx);
    ClampSaturates(x, lo, hi, NearestDouble(hi), w, true);
    SaturatingReads(v, ty);
    YieldsResults(SaturatingSigned(v, ty), ClampedTo(x, lo, NearestDouble(hi), w, true), w, true, cx);
  }

  lemma LowerYields(ty: TypeName, min: CExpr, lo: int, cx: Context)
    requires Width(ty, cx.ptr) > 1 && !ty.FloatT? && Evaluate(Reading(min), cx) == Some(F(Finite(lo as real)))
    requires InRange(Width(ty, cx.ptr), Signed(ty), lo)
    ensures Yields(Reading(Cast(ty, min)), Some(lo), Width(ty, cx.ptr), Signed(ty), cx)
  {
    hide Yields, Evaluate, Truncated, Width, Signed, InRange;
    CastYields(ty, Reading(min), Finite(lo as real), cx);
    WholeTruncates(lo);
  }

  /** 128-bit conversions do not saturate: they are defined exactly for the finite
      floats whose truncation the type holds. */
  lemma WideConversion(signed: bool, v: Text, x: Flt, cx: Context)
    requires v in cx.env && cx.env[v] == F(x)
    ensures var (ty, lo, hi) := (IntT(128, signed), if signed then -Pow2(127) else 0,
                                 if signed then Pow2(127) - 1 else Pow2(128) - 1);
            Results(Print(if signed then SaturatingSigned(v, ty) else SaturatingUnsigned(v, ty)),
                    if x.Finite? && lo <= Truncated(x.r) <= hi then Some(Saturated(x, lo, hi)) else None, cx)
  {
    hide Evaluate, Reading, ReadExpr, Print, Pow2, Yields, NearestDouble, Clamped;
    var ty := IntT(128, signed);
    var hi := if signed then Pow2(127) - 1 else Pow2(128) - 1;
    var lo := if signed then -Pow2(127) else 0;
    SaturatingReads(v, ty);
    VariableLeaf(v, x, cx);
    assert Reading(Cast(ty, Var(v))) == CastT(ty, Leaf(v)) by { CastReading(ty, v); }
    CastYields(ty, Leaf(v), x, cx);
    var r := if x.Finite? && lo <= Truncated(x.r) <= hi then Some(Saturated(x, lo, hi)) else None;
    YieldsResults(Cast(ty, Var(v)), r, 128, signed, cx);
  }

  lemma CastReading(ty: TypeName, v: Text)
    ensures Reading(Cast(ty, Var(v))) == CastT(ty, Leaf(v))
  {
  }

  /** The clamp of infinity to a 64-bit unsigned integer is undefined: its limit is
      2^64 as a double. */
  lemma InfinityFails()
    ensures Beyond(Infinite(false), Pow2(64) - 1) && NearestDouble(Pow2(64) - 1) == Pow2(64)
  {
    hide Pow2;
    RoundedLimits(64);
  }
}
