/** The integer lowering stated for the standard types by their own widths: nothing
    here asks whether the model's width table admits a type. */
module StandardTypes {
  import opened Wrappers
  import opened IntMath
  import opened CSyntax
  import opened CSemantics
  import opened IntLowering
  import IntConstants

  /** `_Bool`, the fixed-width integer types and the pointer-width ones. */
  predicate Standard(ty: TypeName, ptr: nat) {
    match ty
    case BoolT => true
    case IntT(bits, _) => bits == 8 || bits == 16 || bits == 32 || bits == 64 || bits == 128
    case PtrWidthT(_) => ptr == 32 || ptr == 64
    case _ => false
  }

  function BitsOf(ty: TypeName, ptr: nat): (n: nat)
    ensures Standard(ty, ptr) ==> n > 0
  {
    match ty
    case BoolT => 1
    case IntT(bits, _) => bits
    case _ => ptr
  }

  function SignOf(ty: TypeName): bool {
    match ty
    case IntT(_, signed) => signed
    case PtrWidthT(signed) => signed
    case _ => false
  }

  /** Every standard type has its own width and signedness in C. */
  lemma StandardIsSized(ty: TypeName, ptr: nat)
    requires Standard(ty, ptr)
    ensures Sized(ty, ptr) && Width(ty, ptr) == BitsOf(ty, ptr) && Signed(ty) == SignOf(ty)
  {
  }

  /** Other widths are rounded up to the next standard one, and to 128 above it. */
  lemma WidthRoundsUp(bits: nat, signed: bool, ptr: nat)
    requires bits != 1
    ensures Standard(IntT(Width(IntT(bits, signed), ptr), signed), ptr)
    ensures bits <= 128 ==> bits <= Width(IntT(bits, signed), ptr)
    ensures bits > 128 ==> Width(IntT(bits, signed), ptr) == 128
    ensures forall n: nat | bits <= n && Standard(IntT(n, signed), ptr) :: Width(IntT(bits, signed), ptr) <= n
  {
  }

  // ----- states -----

  /** n is the integer of pattern a in type ty. */
  predicate Agrees(n: Num, a: int, ty: TypeName, ptr: nat)
    requires Standard(ty, ptr)
  {
    var w := BitsOf(ty, ptr);
    && n.bits == w && n.signed == SignOf(ty) && 0 <= a < Pow2(w)
    && n.v == if SignOf(ty) && a >= Pow2(w - 1) then a - Pow2(w) else a
  }

  ghost predicate AllAgree(nums: seq<Num>, pats: seq<int>, tys: seq<TypeName>, ptr: nat)
    requires forall ty | ty in tys :: Standard(ty, ptr)
  {
    |nums| == |pats| == |tys| && forall k | 0 <= k < |tys| :: Agrees(nums[k], pats[k], tys[k], ptr)
  }

  lemma CanonAgrees(n: Num, a: int, ty: TypeName, ptr: nat)
    requires Standard(ty, ptr)
    ensures Width(ty, ptr) > 0 && (Agrees(n, a, ty, ptr) <==> 0 <= a < Pow2(BitsOf(ty, ptr)) && n == Canon(ty, ptr, a))
  {
    hide Pow2, Wrap;
    StandardIsSized(ty, ptr);
    var w := BitsOf(ty, ptr);
    if 0 <= a < Pow2(w) {
      Double(w);
      if SignOf(ty) && a >= Pow2(w - 1) { CongFrom(a - Pow2(w), a, -1, Pow2(w)); }
      WrapUnique(w, SignOf(ty), a, if SignOf(ty) && a >= Pow2(w - 1) then a - Pow2(w) else a);
    }
  }

  /** The invariant of the lowering, for variables of standard types. */
  lemma CanonicalIsAgreement(nums: seq<Num>, pats: seq<int>, tys: seq<TypeName>, ptr: nat)
    requires forall ty | ty in tys :: Standard(ty, ptr)
    ensures AllCanonical(nums, pats, tys, ptr) <==> AllAgree(nums, pats, tys, ptr)
  {
    hide Agrees, Standard, Canon, Pow2;
    forall k | 0 <= k < |tys|
      ensures Scalar(tys[k], ptr) && Width(tys[k], ptr) == BitsOf(tys[k], ptr) > 0
    {
      assert tys[k] in tys;
      StandardIsSized(tys[k], ptr);
      CanonAgrees(Num(1, false, 0), 0, tys[k], ptr);
    }
    if |nums| == |pats| == |tys| {
      forall k | 0 <= k < |tys|
        ensures Agrees(nums[k], pats[k], tys[k], ptr)
                <==> 0 <= pats[k] < Pow2(Width(tys[k], ptr)) && nums[k] == Canon(tys[k], ptr, pats[k])
      {
        assert tys[k] in tys;
        CanonAgrees(nums[k], pats[k], tys[k], ptr);
      }
    }
  }

  // ----- instructions on variables and constants -----

  predicate Variable(o: Operand, tys: Vars<TypeName>, ptr: nat) {
    IsVar(o.text) && Lookup(o.text, tys) == Some(o.ty) && Standard(o.ty, ptr)
  }

  /** A constant of the type's range, as `const_uint` and `const_uint_big` write it. */
  ghost predicate Constant(o: Operand, ptr: nat) {
    && (o.ty.IntT? || o.ty.PtrWidthT?) && Standard(o.ty, ptr) && Sized(o.ty, ptr)
    && exists u :: 0 <= u < Pow2(BitsOf(o.ty, ptr)) && o == IntConstants.ConstUint(o.ty, u, ptr)
  }

  ghost predicate Usable(o: Operand, tys: Vars<TypeName>, ptr: nat) {
    Variable(o, tys, ptr) || Constant(o, ptr)
  }

  /** The typing rules of the intermediate language, for operands that are variables
      of standard types or constants, not both constants where there are two; division
      and arithmetic shift come with signed types. */
  ghost predicate Typed(i: Instr, tys: Vars<TypeName>, ptr: nat) {
    match i
    case Binary(op, l, r) =>
      && UsablePair(l, r, tys, ptr) && (l.ty.BoolT? ==> op.IAnd? || op.IOr? || op.IXor?)
      && (op.ISDiv? || op.ISRem? || op.IAShr? ==> SignOf(l.ty))
      && ((op.IShl? || op.ILShr? || op.IAShr?) && SignOf(r.ty) ==> Variable(r, tys, ptr))
    case Negate(v) => Variable(v, tys, ptr) && !v.ty.BoolT?
    case Not(v) => Variable(v, tys, ptr)
    case Trunc(v, ty) =>
      Variable(v, tys, ptr) && Standard(ty, ptr) && !ty.BoolT? && BitsOf(ty, ptr) <= BitsOf(v.ty, ptr)
    case SExt(v, ty) => Usable(v, tys, ptr) && SignOf(v.ty) && Standard(ty, ptr) && !ty.BoolT?
    case ZExt(v, ty) => Usable(v, tys, ptr) && Standard(ty, ptr) && !ty.BoolT?
    case IntCast(v, ty, signed) =>
      Usable(v, tys, ptr) && Standard(ty, ptr) && !ty.BoolT? && (signed ==> !v.ty.BoolT?)
    case ICmp(p, l, r) => UsablePair(l, r, tys, ptr) && (l.ty.BoolT? ==> !IsSignedPred(p))
    case Select(c, l, r) => Variable(c, tys, ptr) && c.ty.BoolT? && UsablePair(l, r, tys, ptr)
  }

  ghost predicate UsablePair(l: Operand, r: Operand, tys: Vars<TypeName>, ptr: nat) {
    && l.ty == r.ty && Usable(l, tys, ptr) && Usable(r, tys, ptr)
    && (Variable(l, tys, ptr) || Variable(r, tys, ptr))
  }

  /** The rules admit every operation on two variables of an integer type, and on a
      variable and a constant in either order, with two exceptions: signed division
      and arithmetic shift need a signed type, and a signed shift amount is a
      variable. */
  lemma TypedCovers(op: IntOp, p: Pred, v: Operand, w: Operand, u: int, to: TypeName, signed: bool,
                    tys: Vars<TypeName>, ptr: nat)
    requires IsVar(v.text) && Lookup(v.text, tys) == Some(v.ty) && IsVar(w.text) && Lookup(w.text, tys) == Some(w.ty)
    requires v.ty == w.ty && v.ty.IntT? && v.ty.bits in {8, 16, 32, 64, 128} && 0 <= u < Pow2(v.ty.bits)
    requires to.IntT? && to.bits in {8, 16, 32, 64, 128}
    ensures Sized(v.ty, ptr)
    ensures var c := IntConstants.ConstUint(v.ty, u, ptr);
            && Typed(ICmp(p, v, w), tys, ptr) && Typed(ICmp(p, v, c), tys, ptr) && Typed(ICmp(p, c, v), tys, ptr)
            && Typed(ZExt(v, to), tys, ptr) && Typed(ZExt(c, to), tys, ptr)
              && (v.ty.signed ==> Typed(SExt(v, to), tys, ptr))
            && Typed(IntCast(v, to, signed), tys, ptr) && Typed(Negate(v), tys, ptr) && Typed(Not(v), tys, ptr)
            && (to.bits <= v.ty.bits ==> Typed(Trunc(v, to), tys, ptr))
    ensures v.ty.signed || op !in {ISDiv, ISRem, IAShr} ==>
              && Typed(Binary(op, v, w), tys, ptr)
              && Typed(Binary(op, IntConstants.ConstUint(v.ty, u, ptr), w), tys, ptr)
              && (op !in {IShl, ILShr, IAShr} || !v.ty.signed ==>
                    Typed(Binary(op, v, IntConstants.ConstUint(v.ty, u, ptr)), tys, ptr))
  {
    hide Pow2;
    StandardIsSized(v.ty, ptr);
    assert Variable(v, tys, ptr) && Variable(w, tys, ptr);
    assert Constant(IntConstants.ConstUint(v.ty, u, ptr), ptr);
  }

  lemma VariableFacts(o: Operand, tys: Vars<TypeName>, ptr: nat)
    requires Variable(o, tys, ptr)
    ensures Known(o, tys) && Sized(o.ty, ptr) && Width(o.ty, ptr) == BitsOf(o.ty, ptr) == TextBits(o, ptr)
    ensures Signed(o.ty) == SignOf(o.ty) && ShowsPattern(o, ptr) && ConstantValue(o.text).None?
    ensures (SignOf(o.ty) ==> ShowsSigned(o, ptr)) && (!SignOf(o.ty) ==> ShowsUnsigned(o, ptr))
    ensures Width(o.ty, ptr) > 0 && (Width(o.ty, ptr) == 1 <==> o.ty.BoolT?)
  {
  }

  /** Any usable operand; a constant is written as the operation reads it. */
  lemma UsableFacts(o: Operand, tys: Vars<TypeName>, ptr: nat)
    requires Usable(o, tys, ptr)
    ensures Known(o, tys) && Sized(o.ty, ptr) && Width(o.ty, ptr) == BitsOf(o.ty, ptr) && !o.ty.PointerT?
    ensures Standard(o.ty, ptr) && Signed(o.ty) == SignOf(o.ty)
    ensures (SignOf(o.ty) ==> ShowsSigned(o, ptr)) && (!SignOf(o.ty) ==> ShowsUnsigned(o, ptr) && ShowsPattern(o, ptr))
    ensures Width(o.ty, ptr) > 0 && (Width(o.ty, ptr) == 1 <==> o.ty.BoolT?)
  {
    if Variable(o, tys, ptr) {
      VariableFacts(o, tys, ptr);
    } else {
      hide Pow2, Wrap;
      StandardIsSized(o.ty, ptr);
      var u :| 0 <= u < Pow2(BitsOf(o.ty, ptr)) && o == IntConstants.ConstUint(o.ty, u, ptr);
      Pow2Monotone(BitsOf(o.ty, ptr), 128);
      IntConstants.ConstUintShows(o.ty, u, ptr, Vars([], []));
      assert Known(o, Vars([], [])) ==> Known(o, tys);
    }
  }

  /** Every such instruction is one the lowering theorem speaks of. */
  lemma TypedIsWellTyped(i: Instr, tys: Vars<TypeName>, ptr: nat)
    requires Typed(i, tys, ptr)
    ensures OperandsSized(i, ptr) && WellTyped(i, tys, ptr)
    ensures Standard(ResultType(i), ptr) && Sized(ResultType(i), ptr)
  {
    hide Known, Variable, Usable, Standard, Width, Sized, ShowsPattern, ShowsSigned, ShowsUnsigned, TextBits;
    match i
    case Binary(_, l, r) => PairFacts(l, r, tys, ptr);
    case Negate(v) => OperandFactsOf(v, tys, ptr);
    case Not(v) => OperandFactsOf(v, tys, ptr);
    case Trunc(v, ty) => OperandFactsOf(v, tys, ptr); TargetFacts(ty, ptr);
    case SExt(v, ty) => UsableFacts(v, tys, ptr); TargetFacts(ty, ptr);
    case ZExt(v, ty) => UsableFacts(v, tys, ptr); TargetFacts(ty, ptr);
    case IntCast(v, ty, _) => UsableFacts(v, tys, ptr); TargetFacts(ty, ptr);
    case ICmp(_, l, r) => PairFacts(l, r, tys, ptr); TargetFacts(BoolT, ptr);
    case Select(c, l, r) => OperandFactsOf(c, tys, ptr); PairFacts(l, r, tys, ptr);
  }

  lemma OperandFactsOf(o: Operand, tys: Vars<TypeName>, ptr: nat)
    requires Variable(o, tys, ptr)
    ensures Known(o, tys) && Sized(o.ty, ptr) && Standard(o.ty, ptr)
            && Width(o.ty, ptr) == BitsOf(o.ty, ptr) == TextBits(o, ptr)
    ensures ShowsPattern(o, ptr) && Width(o.ty, ptr) > 0 && (Width(o.ty, ptr) == 1 <==> o.ty.BoolT?)
  {
    VariableFacts(o, tys, ptr);
  }

  /** Two operands of one type, one of them a variable. */
  lemma PairFacts(l: Operand, r: Operand, tys: Vars<TypeName>, ptr: nat)
    requires UsablePair(l, r, tys, ptr)
    ensures Known(l, tys) && Known(r, tys) && Sized(l.ty, ptr) && Standard(l.ty, ptr) && WideEnough(l, r, ptr)
    ensures Scalar(l.ty, ptr) && Signed(l.ty) == SignOf(l.ty) && !l.ty.PointerT?
    ensures Width(l.ty, ptr) > 0 && (Width(l.ty, ptr) == 1 <==> l.ty.BoolT?)
    ensures SignOf(l.ty) ==> ShowsSigned(l, ptr) && ShowsSigned(r, ptr)
    ensures !SignOf(l.ty)
            ==> ShowsUnsigned(l, ptr) && ShowsUnsigned(r, ptr) && ShowsPattern(l, ptr) && ShowsPattern(r, ptr)
    ensures Variable(r, tys, ptr) ==> ShowsPattern(r, ptr)
  {
    hide Known, Standard, Width, Sized, ShowsPattern, ShowsSigned, ShowsUnsigned, TextBits, Usable;
    UsableFacts(l, tys, ptr);
    UsableFacts(r, tys, ptr);
    if Variable(l, tys, ptr) { VariableFacts(l, tys, ptr); }
    if Variable(r, tys, ptr) { VariableFacts(r, tys, ptr); }
  }

  lemma TargetFacts(ty: TypeName, ptr: nat)
    requires Standard(ty, ptr) || ty.BoolT?
    ensures Standard(ty, ptr) && Sized(ty, ptr) && Width(ty, ptr) == BitsOf(ty, ptr)
            && (Width(ty, ptr) > 1 || ty.BoolT?)
  {
  }

  ghost predicate StateAgrees(temps: Vars<Num>, pats: Vars<int>, tys: Vars<TypeName>, ptr: nat) {
    && (forall ty | ty in tys.params :: Standard(ty, ptr)) && (forall ty | ty in tys.temps :: Standard(ty, ptr))
    && AllAgree(temps.params, pats.params, tys.params, ptr) && AllAgree(temps.temps, pats.temps, tys.temps, ptr)
  }

  /** What assigning n to a variable of the type leaves in it. */
  function Assigned(n: Num, ty: TypeName, ptr: nat): Num
    requires Standard(ty, ptr)
  {
    Num(BitsOf(ty, ptr), SignOf(ty), Convert(BitsOf(ty, ptr), SignOf(ty), n.v))
  }

  /** Every typed instruction on variables and constants of the standard types: its text evaluates,
      and the temporary it is assigned to agrees with the typeless result. */
  lemma VariableInstr(i: Instr, temps: Vars<Num>, pats: Vars<int>, tys: Vars<TypeName>, ptr: nat)
    requires StateAgrees(temps, pats, tys, ptr) && Typed(i, tys, ptr)
    ensures OperandsSized(i, ptr) && Standard(ResultType(i), ptr)
    ensures Meaning(i, pats, ptr).Some? ==>
              && Execute(Print(Emit(i)), temps, ptr).Some?
              && Agrees(Assigned(Execute(Print(Emit(i)), temps, ptr).value, ResultType(i), ptr),
                        Meaning(i, pats, ptr).value, ResultType(i), ptr)
  {
    hide Typed, Meaning, Emit, Execute, Agrees, Standard, Canon, AllAgree, AllCanonical, WellTyped, Print, ResultType;
    TypedIsWellTyped(i, tys, ptr);
    CanonicalIsAgreement(temps.params, pats.params, tys.params, ptr);
    CanonicalIsAgreement(temps.temps, pats.temps, tys.temps, ptr);
    StandardIsSized(ResultType(i), ptr);
    if Meaning(i, pats, ptr).Some? {
      StoreOne(i, temps, pats, tys, ptr);
      CanonAgrees(Assigned(Execute(Print(Emit(i)), temps, ptr).value, ResultType(i), ptr), Meaning(i, pats, ptr).value,
                  ResultType(i), ptr);
    }
  }

  /** Truncation to n bits is the pattern modulo 2^n, as the integer of the type cast
      to: a uint32_t 70000 truncated to uint16_t is 4464. */
  lemma TruncationKeepsLowBits(v: Operand, ty: TypeName, temps: Vars<Num>, pats: Vars<int>, tys: Vars<TypeName>,
                               ptr: nat)
    requires StateAgrees(temps, pats, tys, ptr) && Typed(Trunc(v, ty), tys, ptr)
    ensures Lookup(v.text, pats).Some? && Execute(Print(Emit(Trunc(v, ty))), temps, ptr).Some?
    ensures Agrees(Execute(Print(Emit(Trunc(v, ty))), temps, ptr).value,
                   Lookup(v.text, pats).value % Pow2(BitsOf(ty, ptr)), ty, ptr)
  {
    hide Agrees, Standard, Canon, AllAgree, AllCanonical, Pow2, Wrap, Cong, Width, Signed, Execute, WellTyped, Pattern;
    TypedIsWellTyped(Trunc(v, ty), tys, ptr);
    CanonicalIsAgreement(temps.params, pats.params, tys.params, ptr);
    CanonicalIsAgreement(temps.temps, pats.temps, tys.temps, ptr);
    StandardIsSized(ty, ptr);
    VariableFacts(v, tys, ptr);
    var n, a := GetFacts(v, temps, pats, tys, ptr);
    SamePattern(v, temps, pats, tys, ptr);
    var w, b := BitsOf(ty, ptr), a % Pow2(BitsOf(ty, ptr));
    EmitShaped(Trunc(v, ty));
    ExecutePrinted(Emit(Trunc(v, ty)), temps, ptr);
    EvalVar(v, temps, ptr);
    CongNarrow(n.v, a, BitsOf(v.ty, ptr), w);
    CongMod(a, Pow2(w));
    CongTrans(n.v, a, b, Pow2(w)) by { CongBack(a, Pow2(w)); }
    CastPattern(Var(v.text), n, b, w, ty, temps, ptr);
    CanonAgrees(Canon(ty, ptr, b), b, ty, ptr);
  }

  lemma CongBack(a: int, m: int)
    requires m > 0
    ensures Cong(a, a % m, m)
  {
    CongMod(a, m);
  }

  lemma SamePattern(v: Operand, temps: Vars<Num>, pats: Vars<int>, tys: Vars<TypeName>, ptr: nat)
    requires Canonical(temps, pats, tys, ptr) && IsVar(v.text) && Lookup(v.text, tys).Some?
    ensures Lookup(v.text, pats) == Some(Pattern(v, pats, ptr))
  {
  }

  // ----- whole blocks -----

  ghost predicate TypedBlock(block: seq<Instr>, tys: Vars<TypeName>, ptr: nat) {
    block == [] || (Typed(block[0], tys, ptr) && TypedBlock(block[1..], Push(tys, ResultType(block[0])), ptr))
  }

  lemma {:induction false} TypedBlockOk(block: seq<Instr>, tys: Vars<TypeName>, ptr: nat)
    requires TypedBlock(block, tys, ptr)
    ensures BlockOk(block, tys, ptr)
    ensures forall i | i in block :: OperandsSized(i, ptr)
    ensures forall i | i in block :: Width(ResultType(i), ptr) > 0 && Standard(ResultType(i), ptr)
    decreases block
  {
    hide Typed, WellTyped, OperandsSized, Standard, Sized, ResultType, Width;
    if block != [] {
      TypedIsWellTyped(block[0], tys, ptr);
      StandardIsSized(ResultType(block[0]), ptr);
      TypedBlockOk(block[1..], Push(tys, ResultType(block[0])), ptr);
    }
  }

  /** Every block of typed instructions on such variables keeps the agreement from its
      printed text. */
  lemma VariableBlock(block: seq<Instr>, temps: Vars<Num>, pats: Vars<int>, tys: Vars<TypeName>, ptr: nat)
    returns (all: Vars<TypeName>)
    requires StateAgrees(temps, pats, tys, ptr) && TypedBlock(block, tys, ptr)
    ensures forall i | i in block :: OperandsSized(i, ptr) && Width(ResultType(i), ptr) > 0
    ensures all == Vars(tys.params, tys.temps + seq(|block|, k requires 0 <= k < |block| => ResultType(block[k])))
    ensures RunMeaning(block, pats, ptr).Some? ==>
              && RunText(block, temps, ptr).Some?
              && StateAgrees(RunText(block, temps, ptr).value, RunMeaning(block, pats, ptr).value, all, ptr)
  {
    hide RunText, RunMeaning, Agrees, Standard, AllAgree, AllCanonical, TypedBlock, BlockOk, OperandsSized, ResultType,
         Width;
    TypedBlockOk(block, tys, ptr);
    CanonicalIsAgreement(temps.params, pats.params, tys.params, ptr);
    CanonicalIsAgreement(temps.temps, pats.temps, tys.temps, ptr);
    all := Vars(tys.params, tys.temps + seq(|block|, k requires 0 <= k < |block| => ResultType(block[k])));
    forall ty | ty in all.temps ensures Standard(ty, ptr) {
      var k :| 0 <= k < |all.temps| && all.temps[k] == ty;
      if k >= |tys.temps| { assert block[k - |tys.temps|] in block; } else { assert tys.temps[k] in tys.temps; }
    }
    if RunMeaning(block, pats, ptr).Some? {
      var same := LoweringPreservesPatterns(block, temps, pats, tys, ptr);
      var t, q := RunText(block, temps, ptr).value, RunMeaning(block, pats, ptr).value;
      CanonicalIsAgreement(t.params, q.params, all.params, ptr);
      CanonicalIsAgreement(t.temps, q.temps, all.temps, ptr);
    }
  }
}
