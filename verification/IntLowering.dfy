/** The builder's integer operations: typeless operations on bit patterns become
    typed C expressions, one assignment to a fresh temporary each. */
module IntLowering {
  import opened Wrappers
  import opened IntMath
  import opened CSyntax
  import opened CSemantics
  import CLexing

  /** A value as the builder sees it: rendered text and C type. */
  datatype Operand = Operand(text: Text, ty: TypeName)

  datatype Pred = IntEQ | IntNE | IntUGT | IntUGE | IntULT | IntULE | IntSGT | IntSGE | IntSLT | IntSLE

  datatype IntOp = IAdd | ISub | IMul | IUDiv | ISDiv | IURem | ISRem | IShl | ILShr | IAShr | IAnd | IOr | IXor

  datatype Instr =
    | Binary(op: IntOp, l: Operand, r: Operand)
    | Negate(v: Operand)
    | Not(v: Operand)
    | Trunc(v: Operand, ty: TypeName)
    | SExt(v: Operand, ty: TypeName)
    | ZExt(v: Operand, ty: TypeName)
    | IntCast(v: Operand, ty: TypeName, signed: bool)
    | ICmp(pred: Pred, l: Operand, r: Operand)
    | Select(c: Operand, l: Operand, r: Operand)

  // ----- what the builder emits -----

  function UnsignedType(ty: TypeName): Option<TypeName> {
    match ty
    case IntT(bits, true) => Some(IntT(bits, false))
    case PtrWidthT(true) => Some(PtrWidthT(false))
    case _ => None
  }

  function SignedType(ty: TypeName): TypeName {
    match ty
    case IntT(bits, _) => IntT(bits, true)
    case PtrWidthT(_) => PtrWidthT(true)
    case _ => ty
  }

  function Binop(op: BinOp, l: Operand, r: Operand): CExpr {
    Bin(Var(l.text), op, Var(r.text))
  }

  function UnsignedBinop(op: BinOp, l: Operand, r: Operand): CExpr {
    match UnsignedType(l.ty)
    case Some(ut) => Cast(l.ty, Paren(Bin(Cast(ut, Var(l.text)), op, Cast(ut, Var(r.text)))))
    case None => Binop(op, l, r)
  }

  function ShiftOf(ty: TypeName, op: BinOp, l: Operand, r: Operand): CExpr {
    Bin(Cast(ty, Paren(Var(l.text))), op, Paren(Var(r.text)))
  }

  function EmitBinary(op: IntOp, l: Operand, r: Operand): CExpr {
    match op
    case IAdd => Binop(Add, l, r)
    case ISub => Binop(Sub, l, r)
    case IMul => Binop(Mul, l, r)
    case IUDiv => UnsignedBinop(Div, l, r)
    case ISDiv => Binop(Div, l, r)
    case IURem => UnsignedBinop(Rem, l, r)
    case ISRem => Binop(Rem, l, r)
    case IShl => ShiftOf(l.ty, Shl, l, r)
    case ILShr =>
      (match UnsignedType(l.ty)
       case Some(ut) => Cast(l.ty, Paren(ShiftOf(ut, Shr, l, r)))
       case None => ShiftOf(l.ty, Shr, l, r))
    case IAShr => ShiftOf(l.ty, Shr, l, r)
    case IAnd => Binop(BitAnd, l, r)
    case IOr => Binop(BitOr, l, r)
    case IXor => Binop(BitXor, l, r)
  }

  function EmitZExt(v: Operand, ty: TypeName): CExpr {
    match UnsignedType(v.ty)
    case Some(us) => Cast(ty, Cast(us, Var(v.text)))
    case None => Cast(ty, Var(v.text))
  }

  function COp(p: Pred): BinOp {
    match p
    case IntEQ => Eq
    case IntNE => Ne
    case IntUGT => Gt case IntSGT => Gt
    case IntUGE => Ge case IntSGE => Ge
    case IntULT => Lt case IntSLT => Lt
    case IntULE => Le case IntSLE => Le
  }

  predicate IsUnsignedPred(p: Pred) {
    p.IntUGT? || p.IntUGE? || p.IntULT? || p.IntULE?
  }

  predicate IsSignedPred(p: Pred) {
    p.IntSGT? || p.IntSGE? || p.IntSLT? || p.IntSLE?
  }

  /** Bits the builder counts when it picks a comparison type. */
  function IntWidth(ty: TypeName): nat {
    match ty
    case IntT(bits, _) => bits
    case BoolT => 1
    case PointerT(_) => 64
    case _ => 0
  }

  function CompareType(p: Pred, l: TypeName, r: TypeName): TypeName {
    if l.PtrWidthT? || r.PtrWidthT? then PtrWidthT(!IsUnsignedPred(p))
    else
      var bits := if IntWidth(l) >= IntWidth(r) then IntWidth(l) else IntWidth(r);
      IntT(bits, !IsUnsignedPred(p))
  }

  function Emit(i: Instr): CExpr {
    match i
    case Binary(op, l, r) => EmitBinary(op, l, r)
    case Negate(v) => Un(Neg, Var(v.text))
    case Not(v) => Un(if v.ty.BoolT? then LogNot else BitNot, Var(v.text))
    case Trunc(v, ty) => Cast(ty, Var(v.text))
    case SExt(v, ty) => Cast(ty, Var(v.text))
    case ZExt(v, ty) => EmitZExt(v, ty)
    case IntCast(v, ty, signed) =>
      if !signed then EmitZExt(v, ty)
      else if (v.ty.IntT? || v.ty.PtrWidthT?) && !v.ty.signed then Cast(ty, Cast(SignedType(v.ty), Var(v.text)))
      else Cast(ty, Var(v.text))
    case ICmp(p, l, r) =>
      var ct := CompareType(p, l.ty, r.ty);
      Bin(Cast(ct, Var(l.text)), COp(p), Cast(ct, Var(r.text)))
    case Select(c, l, r) => Ternary(Var(c.text), Var(l.text), Var(r.text))
  }

  /** The declared type of the temporary. */
  function ResultType(i: Instr): TypeName {
    match i
    case Binary(_, l, _) => l.ty
    case Negate(v) => v.ty
    case Not(v) => v.ty
    case Trunc(_, ty) => ty
    case SExt(_, ty) => ty
    case ZExt(_, ty) => ty
    case IntCast(_, ty, _) => ty
    case ICmp(_, _, _) => BoolT
    case Select(_, l, _) => l.ty
  }

  lemma CastShaped(ty: TypeName, t: Text)
    ensures Shaped(Cast(ty, Var(t))) && Shaped(Cast(ty, Paren(Var(t))))
  {
    assert Level(Var(t)) >= 11;
  }

  lemma BinaryShaped(op: IntOp, l: Operand, r: Operand)
    ensures Shaped(EmitBinary(op, l, r))
  {
    hide Shaped, Level;
    if op.IUDiv? {
      UnsignedBinopShaped(Div, l, r);
    } else if op.IURem? {
      UnsignedBinopShaped(Rem, l, r);
    } else if op.ILShr? && UnsignedType(l.ty).Some? {
      ShiftShaped(l.ty, UnsignedType(l.ty).value, Shr, l, r);
    } else if op.IShl? || op.ILShr? || op.IAShr? {
      ShiftShaped(l.ty, l.ty, if op.IShl? then Shl else Shr, l, r);
    } else {
      BinopShaped(EmitBinary(op, l, r).op, l, r);
    }
  }

  lemma BinopShaped(op: BinOp, l: Operand, r: Operand)
    ensures Shaped(Binop(op, l, r))
  {
    LeafShaped(l.text);
    LeafShaped(r.text);
    BinShaped(Var(l.text), op, Var(r.text));
  }

  lemma ShiftShaped(ty: TypeName, ut: TypeName, op: BinOp, l: Operand, r: Operand)
    requires op.Shl? || op.Shr?
    ensures Shaped(ShiftOf(ut, op, l, r)) && Shaped(Cast(ty, Paren(ShiftOf(ut, op, l, r))))
  {
    CastShaped(ut, l.text);
    LeafShaped(r.text);
    BinShaped(Cast(ut, Paren(Var(l.text))), op, Paren(Var(r.text)));
  }

  lemma UnsignedBinopShaped(op: BinOp, l: Operand, r: Operand)
    ensures Shaped(UnsignedBinop(op, l, r))
  {
    match UnsignedType(l.ty)
    case Some(ut) =>
      CastShaped(ut, l.text);
      CastShaped(ut, r.text);
      BinShaped(Cast(ut, Var(l.text)), op, Cast(ut, Var(r.text)));
    case None => BinopShaped(op, l, r);
  }

  lemma InstrShaped(i: Instr)
    ensures Shaped(Emit(i))
  {
    if i.Binary? {
      BinaryShaped(i.op, i.l, i.r);
    }
  }

  /** Everything the builder emits for integers is well shaped, so its characters lex
      to its tokens and these read back as built. */
  lemma EmitShaped(i: Instr)
    ensures Shaped(Emit(i))
    ensures CLexing.Lex(CLexing.Spaced(Emit(i))) == Some(Print(Emit(i)))
    ensures ReadExpr(Print(Emit(i))) == Got(Reading(Emit(i)), [])
  {
    hide Shaped, Emit, Print, ReadExpr, Reading, CLexing.Lex, CLexing.Spaced;
    InstrShaped(i);
    CLexing.TextThenRead(Emit(i));
  }

  // ----- the typeless reference -----

  /** The signed reading of a w-bit pattern. */
  function S(w: nat, a: int): int
    requires w > 0
  {
    Wrap(w, true, a)
  }

  function BinaryMeaning(op: IntOp, a: int, b: int, w: nat): Option<int>
    requires w > 0
  {
    var m := Pow2(w);
    match op
    case IAdd => Some((a + b) % m)
    case ISub => Some((a - b) % m)
    case IMul => Some((a * b) % m)
    case IUDiv => if b == 0 then None else Some((a / b) % m)
    case IURem => if b == 0 then None else Some((a % b) % m)
    case ISDiv => if S(w, b) == 0 || (S(w, a) == -Pow2(w - 1) && S(w, b) == -1) then None
      else Some(TruncDiv(S(w, a), S(w, b)) % m)
    case ISRem => if S(w, b) == 0 || (S(w, a) == -Pow2(w - 1) && S(w, b) == -1) then None
      else Some(TruncRem(S(w, a), S(w, b)) % m)
    case IShl => if b >= w then None else if b < 0 then None else Some((a * Pow2(b)) % m)
    case ILShr => if b >= w then None else if b < 0 then None else Some((a / Pow2(b)) % m)
    case IAShr => if b >= w then None else if b < 0 then None else Some((S(w, a) / Pow2(b)) % m)
    case IAnd => Some(BitOp(And(), a, b, w))
    case IOr => Some(BitOp(Or(), a, b, w))
    case IXor => Some(BitOp(Xor(), a, b, w))
  }

  predicate Holds(p: Pred, a: int, b: int, w: nat)
    requires w > 0
  {
    match p
    case IntEQ => a == b
    case IntNE => a != b
    case IntUGT => a > b
    case IntUGE => a >= b
    case IntULT => a < b
    case IntULE => a <= b
    case IntSGT => S(w, a) > S(w, b)
    case IntSGE => S(w, a) >= S(w, b)
    case IntSLT => S(w, a) < S(w, b)
    case IntSLE => S(w, a) <= S(w, b)
  }

  function VarPattern(t: Text, pats: Vars<int>): int {
    match Lookup(t, pats)
    case Some(a) => a
    case None => 0
  }

  /** The bit pattern of an operand. */
  function Pattern(o: Operand, pats: Vars<int>, ptr: nat): int {
    var m := Pow2(Width(o.ty, ptr));
    match o.text
    case Temp(_) => VarPattern(o.text, pats)
    case Param(_) => VarPattern(o.text, pats)
    case IntText(i) => i % m
    case UintText(u) => u % m
    case BoolText(b) => if b then 1 else 0
    case _ => 0
  }

  /** The pattern an instruction computes; None where the operation is undefined. */
  function Meaning(i: Instr, pats: Vars<int>, ptr: nat): Option<int>
    requires OperandsSized(i, ptr)
  {
    match i
    case Binary(op, l, r) => BinaryMeaning(op, Pattern(l, pats, ptr), Pattern(r, pats, ptr), Width(l.ty, ptr))
    case Negate(v) => Some((-Pattern(v, pats, ptr)) % Pow2(Width(v.ty, ptr)))
    case Not(v) => Some(Pow2(Width(v.ty, ptr)) - 1 - Pattern(v, pats, ptr))
    case Trunc(v, ty) => Some(Pattern(v, pats, ptr) % Pow2(Width(ty, ptr)))
    case SExt(v, ty) => Some(S(Width(v.ty, ptr), Pattern(v, pats, ptr)) % Pow2(Width(ty, ptr)))
    case ZExt(v, ty) => Some(Pattern(v, pats, ptr) % Pow2(Width(ty, ptr)))
    case IntCast(v, ty, signed) =>
      Some((if signed then S(Width(v.ty, ptr), Pattern(v, pats, ptr))
            else Pattern(v, pats, ptr)) % Pow2(Width(ty, ptr)))
    case ICmp(p, l, r) =>
      Some(if Holds(p, Pattern(l, pats, ptr), Pattern(r, pats, ptr), Width(l.ty, ptr)) then 1 else 0)
    case Select(c, l, r) => Some(if Pattern(c, pats, ptr) == 1 then Pattern(l, pats, ptr) else Pattern(r, pats, ptr))
  }

  // ----- what rustc's codegen guarantees -----

  /** Integer and pointer types of a width C has. */
  predicate Scalar(ty: TypeName, ptr: nat) {
    Width(ty, ptr) > 0 && (Width(ty, ptr) == 1 ==> ty.BoolT?) && (ty.IntT? ==> Width(ty, ptr) == ty.bits)
  }

  predicate Sized(ty: TypeName, ptr: nat) {
    Scalar(ty, ptr) && !ty.PointerT?
  }

  predicate OperandsSized(i: Instr, ptr: nat) {
    match i
    case Binary(_, l, r) => Sized(l.ty, ptr) && Sized(r.ty, ptr)
    case Negate(v) => Sized(v.ty, ptr)
    case Not(v) => Sized(v.ty, ptr)
    case Trunc(v, ty) => Sized(v.ty, ptr) && Sized(ty, ptr)
    case SExt(v, ty) => Sized(v.ty, ptr) && Sized(ty, ptr)
    case ZExt(v, ty) => Sized(v.ty, ptr) && Sized(ty, ptr)
    case IntCast(v, ty, _) => Sized(v.ty, ptr) && Sized(ty, ptr)
    case ICmp(_, l, r) => Scalar(l.ty, ptr) && Scalar(r.ty, ptr)
    case Select(c, l, r) => Sized(c.ty, ptr) && Sized(l.ty, ptr) && Sized(r.ty, ptr)
  }

  predicate IsVar(t: Text) { t.Temp? || t.Param? }

  /** A parameter, a temporary already assigned, a constant within the literal range
      or a null pointer. */
  predicate Known(o: Operand, tys: Vars<TypeName>) {
    match o.text
    case Temp(_) => Lookup(o.text, tys) == Some(o.ty)
    case Param(_) => Lookup(o.text, tys) == Some(o.ty)
    case IntText(i) => InRange(128, true, i)
    case UintText(u) => InRange(128, false, u)
    case BoolText(_) => o.ty.BoolT?
    case _ => IsNull(o)
  }

  /** A null pointer is the text `0`. */
  predicate IsNull(o: Operand) {
    o.text == DecimalText(0) && o.ty.PointerT?
  }

  function ConstantValue(t: Text): Option<int> {
    match t
    case IntText(i) => Some(i)
    case UintText(u) => Some(u)
    case BoolText(b) => Some(if b then 1 else 0)
    case _ => None
  }

  /** Width of the C type the operand's text has. */
  function TextBits(o: Operand, ptr: nat): nat {
    match o.text
    case Temp(_) => Width(o.ty, ptr)
    case Param(_) => Width(o.ty, ptr)
    case IntText(i) => if I64_MIN <= i <= I64_MAX then 64 else 128
    case UintText(u) => if u <= U64_MAX then 64 else 128
    case _ => 32
  }

  /** The text's own value is the pattern read without sign. */
  predicate ShowsUnsigned(o: Operand, ptr: nat)
    requires Scalar(o.ty, ptr)
  {
    match ConstantValue(o.text)
    case Some(k) => InRange(Width(o.ty, ptr), false, k)
    case None => !Signed(o.ty)
  }

  /** The text has signed type and its value is the pattern read with sign. */
  predicate ShowsSigned(o: Operand, ptr: nat)
    requires Scalar(o.ty, ptr)
  {
    Signed(o.ty) && !o.text.UintText? && (o.text.IntText? ==> InRange(Width(o.ty, ptr), true, o.text.i))
  }

  /** A shift count or _Bool: a constant must be written as its pattern. */
  predicate ShowsPattern(o: Operand, ptr: nat)
    requires Scalar(o.ty, ptr)
  {
    match ConstantValue(o.text)
    case Some(k) => InRange(Width(o.ty, ptr), false, k)
    case None => true
  }

  /** A 64-bit literal of a wider type. */
  predicate Narrow(o: Operand, ptr: nat) {
    (o.text.IntText? || o.text.UintText?) && TextBits(o, ptr) == 64 < Width(o.ty, ptr)
  }

  function Literal(o: Operand): int {
    match ConstantValue(o.text)
    case Some(k) => k
    case None => 0
  }

  function Exactly(op: IntOp, i: int, j: int): int {
    if op.IAdd? then i + j else if op.ISub? then i - j else i * j
  }

  /** When an operation done at 64 bits on two narrow literals i and j gives the
      result at their type: s says whether both literals are signed. */
  predicate NarrowRight(op: IntOp, i: int, j: int, s: bool) {
    match op
    case IAdd => InRange(64, s, i + j)
    case ISub => InRange(64, s, i - j)
    case IMul => InRange(64, s, i * j)
    case IAnd => s || !(i < 0 && j < 0)
    case IOr => s || !(i < 0 || j < 0)
    case IXor => s || (i < 0) == (j < 0)
    case ISDiv => !(i == I64_MIN && j == -1)
    case ISRem => !(i == I64_MIN && j == -1)
    case _ => true
  }

  predicate BothSigned(l: Operand, r: Operand) { l.text.IntText? && r.text.IntText? }

  /** One operand's text is as wide as the operation, or both are 64-bit literals on
      which 64 bits suffice. */
  predicate WideOr64(op: IntOp, l: Operand, r: Operand, ptr: nat) {
    WideEnough(l, r, ptr)
      || (Narrow(l, ptr) && Narrow(r, ptr) && NarrowRight(op, Literal(l), Literal(r), BothSigned(l, r)))
  }

  /** One operand's text is at least as wide as the operation. */
  predicate WideEnough(l: Operand, r: Operand, ptr: nat) {
    TextBits(l, ptr) >= Width(l.ty, ptr) || TextBits(r, ptr) >= Width(l.ty, ptr)
  }

  /** Pointers compare with pointers, for equality or as addresses. */
  predicate PointersOk(p: Pred, l: Operand, r: Operand, ptr: nat) {
    l.ty == r.ty && (IsVar(l.text) || IsNull(l)) && (IsVar(r.text) || IsNull(r)) && !IsSignedPred(p)
      && (ptr == 32 || ptr == 64)
  }

  predicate WellTyped(i: Instr, tys: Vars<TypeName>, ptr: nat)
    requires OperandsSized(i, ptr)
  {
    match i
    case Binary(op, l, r) =>
      && Known(l, tys) && Known(r, tys) && Width(l.ty, ptr) == Width(r.ty, ptr)
      && (match op
          case IAdd => Width(l.ty, ptr) > 1 && WideOr64(op, l, r, ptr)
          case ISub => Width(l.ty, ptr) > 1 && WideOr64(op, l, r, ptr)
          case IMul => Width(l.ty, ptr) > 1 && WideOr64(op, l, r, ptr)
          case IUDiv => Width(l.ty, ptr) > 1 && (Signed(l.ty) || (ShowsUnsigned(l, ptr) && ShowsUnsigned(r, ptr)))
          case IURem => Width(l.ty, ptr) > 1 && (Signed(l.ty) || (ShowsUnsigned(l, ptr) && ShowsUnsigned(r, ptr)))
          case ISDiv => ShowsSigned(l, ptr) && ShowsSigned(r, ptr) && WideOr64(op, l, r, ptr)
          case ISRem => ShowsSigned(l, ptr) && ShowsSigned(r, ptr) && WideOr64(op, l, r, ptr)
          case IShl => Width(l.ty, ptr) > 1 && ShowsPattern(r, ptr)
          case ILShr => Width(l.ty, ptr) > 1 && ShowsPattern(r, ptr)
          case IAShr => Signed(l.ty) && ShowsPattern(r, ptr)
          case _ => WideOr64(op, l, r, ptr) && (l.ty.BoolT? ==> ShowsPattern(l, ptr) && ShowsPattern(r, ptr)))
    case Negate(v) => Known(v, tys) && Width(v.ty, ptr) > 1
      && (TextBits(v, ptr) >= Width(v.ty, ptr) || (Narrow(v, ptr) && InRange(64, v.text.IntText?, -Literal(v))))
    case Not(v) => Known(v, tys) && (TextBits(v, ptr) >= Width(v.ty, ptr) || (Narrow(v, ptr) && v.text.IntText?))
      && (v.ty.BoolT? ==> ShowsPattern(v, ptr))
    case Trunc(v, ty) => Known(v, tys) && 1 < Width(ty, ptr) <= Width(v.ty, ptr)
    case SExt(v, ty) => Known(v, tys) && ShowsSigned(v, ptr) && Width(ty, ptr) > 1
    case ZExt(v, ty) => Known(v, tys) && (Signed(v.ty) || ShowsUnsigned(v, ptr)) && Width(ty, ptr) > 1
    case IntCast(v, ty, signed) =>
      && Known(v, tys) && Width(ty, ptr) > 1
      && (if signed then Width(v.ty, ptr) > 1 && (Signed(v.ty) ==> ShowsSigned(v, ptr))
          else Signed(v.ty) || ShowsUnsigned(v, ptr))
    case ICmp(p, l, r) =>
      && Known(l, tys) && Known(r, tys) && Width(l.ty, ptr) == Width(r.ty, ptr)
      && (l.ty.BoolT? ==> !IsSignedPred(p) && ShowsPattern(l, ptr) && ShowsPattern(r, ptr))
      && (l.ty.PointerT? || r.ty.PointerT? ==> l.ty.PtrWidthT? || r.ty.PtrWidthT? || PointersOk(p, l, r, ptr))
    case Select(c, l, r) =>
      && Known(c, tys) && Known(l, tys) && Known(r, tys) && c.ty.BoolT? && ShowsPattern(c, ptr)
      && Width(l.ty, ptr) == Width(r.ty, ptr)
      && (WideEnough(l, r, ptr)
          || (Narrow(l, ptr) && Narrow(r, ptr) && (BothSigned(l, r) || (Literal(l) >= 0 && Literal(r) >= 0))))
      && (l.ty.BoolT? ==> ShowsPattern(l, ptr) && ShowsPattern(r, ptr))
  }

  // ----- the invariant -----

  /** The integer a temporary of type ty holds when its pattern is a. */
  function Canon(ty: TypeName, ptr: nat, a: int): Num
    requires Width(ty, ptr) > 0
  {
    Num(Width(ty, ptr), Signed(ty), Wrap(Width(ty, ptr), Signed(ty), a))
  }

  ghost predicate AllCanonical(nums: seq<Num>, pats: seq<int>, tys: seq<TypeName>, ptr: nat) {
    && |nums| == |pats| == |tys|
    && forall k | 0 <= k < |tys| && Scalar(tys[k], ptr) ::
         0 <= pats[k] < Pow2(Width(tys[k], ptr)) && nums[k] == Canon(tys[k], ptr, pats[k])
  }

  /** Every parameter and temporary of integer or pointer type holds the canonical
      integer of its pattern. */
  ghost predicate Canonical(temps: Vars<Num>, pats: Vars<int>, tys: Vars<TypeName>, ptr: nat) {
    AllCanonical(temps.params, pats.params, tys.params, ptr) && AllCanonical(temps.temps, pats.temps, tys.temps, ptr)
  }

  /** What is known of any operand's text: a valid number congruent to its pattern. */
  lemma OperandFacts(o: Operand, temps: Vars<Num>, pats: Vars<int>, tys: Vars<TypeName>, ptr: nat)
    requires Canonical(temps, pats, tys, ptr) && Scalar(o.ty, ptr) && Known(o, tys)
    ensures var a := Pattern(o, pats, ptr);
            var w := Width(o.ty, ptr);
            && Denote(o.text, temps).Some?
            && 0 <= a < Pow2(w)
            && var n := Denote(o.text, temps).value;
               && ValidNum(n) && n.bits == TextBits(o, ptr) && Cong(n.v, a, Pow2(w))
               && (ShowsUnsigned(o, ptr) ==> n.v == a)
               && (ShowsSigned(o, ptr) ==> n.v == S(w, a) && n.signed)
               && (IsVar(o.text) ==> n == Canon(o.ty, ptr, a))
  {
    hide Pow2, Wrap;
    var w := Width(o.ty, ptr);
    var a := Pattern(o, pats, ptr);
    if IsVar(o.text) {
      WrapCong(w, Signed(o.ty), a);
      if !Signed(o.ty) { WrapId(w, false, a); }
    } else if o.text.IntText? {
      IntTextFacts(o.text.i, w);
    } else if o.text.UintText? {
      UintTextFacts(o.text.u, w);
    } else if o.text.BoolText? {
      LiteralRange(32);
    } else {
      NullFacts(w);
    }
  }

  lemma NullFacts(w: nat)
    requires w > 0
    ensures Pow2(w) > 0 && S(w, 0) == 0 && Wrap(w, false, 0) == 0 && ValidNum(Num(32, true, 0)) && Cong(0, 0, Pow2(w))
  {
    hide Pow2, Wrap;
    Pow2Monotone(0, w - 1);
    Pow2Monotone(0, 31);
    WrapId(w, true, 0);
    WrapId(w, false, 0);
  }

  lemma IntTextFacts(i: int, w: nat)
    requires w > 0 && InRange(128, true, i)
    ensures Cong(i, i % Pow2(w), Pow2(w)) && 0 <= i % Pow2(w) < Pow2(w)
    ensures InRange(if I64_MIN <= i <= I64_MAX then 64 else 128, true, i)
    ensures InRange(w, false, i) ==> i % Pow2(w) == i
    ensures InRange(w, true, i) ==> S(w, i % Pow2(w)) == i
  {
    hide Pow2, Wrap;
    CongMod(i, Pow2(w));
    LiteralRange(64);
    if InRange(w, false, i) { DivModUnique(i, Pow2(w), 0, i); }
    if InRange(w, true, i) { WrapUnique(w, true, i % Pow2(w), i); }
  }

  lemma UintTextFacts(u: int, w: nat)
    requires w > 0 && InRange(128, false, u)
    ensures Cong(u, u % Pow2(w), Pow2(w)) && 0 <= u % Pow2(w) < Pow2(w)
    ensures InRange(if u <= U64_MAX then 64 else 128, false, u)
    ensures InRange(w, false, u) ==> u % Pow2(w) == u
  {
    hide Pow2;
    CongMod(u, Pow2(w));
    LiteralRange(64);
    if InRange(w, false, u) { DivModUnique(u, Pow2(w), 0, u); }
  }

  lemma LiteralRange(n: nat)
    ensures Pow2(63) == 0x8000_0000_0000_0000 && Pow2(64) == 0x1_0000_0000_0000_0000 && Pow2(31) == 0x8000_0000
            && Pow2(32) == 0x1_0000_0000
    ensures Pow2(1) == 2
  {
    assert Pow2(8) == 256;
    Pow2Add(8, 8);
    Pow2Add(16, 15);
    Pow2Add(16, 16);
    Pow2Add(32, 31);
    Pow2Add(32, 32);
  }

  // ----- each operation -----

  /** The emitted expression has a value, and storing it in the temporary gives
      the canonical integer of pattern m. */
  ghost predicate Stores(e: CExpr, temps: Vars<Num>, ty: TypeName, ptr: nat, m: int)
    requires Width(ty, ptr) > 0
  {
    && Eval(e, temps, ptr).Some?
    && Convert(Width(ty, ptr), Signed(ty), Eval(e, temps, ptr).value.v) == Canon(ty, ptr, m).v
  }

  lemma StoreCong(v: int, m: int, w: nat, signed: bool)
    requires w > 1 && Cong(v, m, Pow2(w))
    ensures Convert(w, signed, v) == Wrap(w, signed, m)
  {
    WrapOfCong(w, signed, v, m);
  }

  lemma BoolCanon(b: bool)
    ensures Wrap(1, false, if b then 1 else 0) == if b then 1 else 0
  {
    LiteralRange(1);
  }

  predicate Modular(op: IntOp) {
    op.IAdd? || op.ISub? || op.IMul? || op.IAnd? || op.IOr? || op.IXor?
  }

  function ModularOp(op: IntOp): BinOp
    requires Modular(op)
  {
    match op
    case IAdd => Add
    case ISub => Sub
    case IMul => Mul
    case IAnd => BitAnd
    case IOr => BitOr
    case IXor => BitXor
  }

  /** Addition, multiplication and bitwise operations commute with truncation. */
  lemma ModularApply(op: IntOp, x: Num, y: Num, a: int, b: int, w: nat)
    requires Modular(op) && 0 < w <= CommonBits(Promote(x), Promote(y))
    requires Cong(x.v, a, Pow2(w)) && Cong(y.v, b, Pow2(w))
    ensures Apply(ModularOp(op), x, y).Some?
    ensures Cong(Apply(ModularOp(op), x, y).value.v, BinaryMeaning(op, a, b, w).value, Pow2(w))
  {
    BalanceCong(x, y, w);
    var (p, q) := Balance(x, y);
    hide Wrap, BitOp, Promote, Balance, Cong;
    if op.IAdd? || op.ISub? || op.IMul? {
      RingApply(op, p, q, a, b, w);
    } else {
      BitApply(GateOf(ModularOp(op)), p, q, a, b, w);
    }
  }

  lemma RingApply(op: IntOp, p: Num, q: Num, a: int, b: int, w: nat)
    requires op.IAdd? || op.ISub? || op.IMul?
    requires 0 < w <= p.bits && Cong(p.v, a, Pow2(w)) && Cong(q.v, b, Pow2(w))
    ensures var exact := if op.IAdd? then p.v + q.v else if op.ISub? then p.v - q.v else p.v * q.v;
            Cong(InType(p, exact).v, BinaryMeaning(op, a, b, w).value, Pow2(w))
  {
    var m := Pow2(w);
    CongAdd(p.v, a, q.v, b, m);
    CongMul(p.v, a, q.v, b, m);
    var exact := if op.IAdd? then p.v + q.v else if op.ISub? then p.v - q.v else p.v * q.v;
    var meant := if op.IAdd? then a + b else if op.ISub? then a - b else a * b;
    WrapCongNarrow(p.bits, p.signed, exact, w);
    CongMod(meant, m);
  }

  lemma BitApply(g: Gate, p: Num, q: Num, a: int, b: int, w: nat)
    requires 0 < w <= p.bits && Cong(p.v, a, Pow2(w)) && Cong(q.v, b, Pow2(w))
    ensures Cong(InType(p, BitOp(g, p.v, q.v, p.bits)).v, BitOp(g, a, b, w), Pow2(w))
  {
    BitOpNarrow(g, p.v, q.v, w, p.bits);
    BitOpCong(g, p.v, q.v, a, b, w);
    WrapCongNarrow(p.bits, p.signed, BitOp(g, p.v, q.v, p.bits), w);
  }

  // ----- two 64-bit literals at a wider type -----

  lemma NarrowFacts(o: Operand, temps: Vars<Num>, tys: Vars<TypeName>, ptr: nat)
    requires Known(o, tys) && Scalar(o.ty, ptr) && Narrow(o, ptr)
    ensures ConstantValue(o.text).Some? && Width(o.ty, ptr) > 64
    ensures Denote(o.text, temps) == Some(Num(64, o.text.IntText?, Literal(o)))
            && ValidNum(Num(64, o.text.IntText?, Literal(o)))
  {
    hide Pow2;
    LiteralRange(64);
  }

  lemma ToCommon64(x: Num, y: Num)
    requires x.bits == y.bits == 64 && ValidNum(x) && ValidNum(y)
    ensures var s := x.signed && y.signed;
            var (p, q) := Balance(x, y);
            p.bits == q.bits == 64 && p.signed == q.signed == s && Cong(p.v, x.v, Pow2(64)) && Cong(q.v, y.v, Pow2(64))
  {
    hide Pow2;
    BalanceCong(x, y, 64);
  }

  /** At 64 bits the ring operations wrap the exact result. */
  lemma NarrowRing(op: IntOp, x: Num, y: Num)
    requires op.IAdd? || op.ISub? || op.IMul?
    requires x.bits == y.bits == 64 && ValidNum(x) && ValidNum(y)
    ensures Apply(ModularOp(op), x, y).Some?
    ensures Apply(ModularOp(op), x, y).value.v == Wrap(64, x.signed && y.signed, Exactly(op, x.v, y.v))
  {
    hide Wrap, Pow2, Balance, Cong, BitOp;
    ToCommon64(x, y);
    var (p, q) := Balance(x, y);
    CongAdd(p.v, x.v, q.v, y.v, Pow2(64));
    CongMul(p.v, x.v, q.v, y.v, Pow2(64));
    WrapOfCong(64, p.signed, Exactly(op, p.v, q.v), Exactly(op, x.v, y.v));
  }

  /** At 64 bits a gate wraps the low half of the wide result. */
  lemma NarrowGate(op: IntOp, x: Num, y: Num)
    requires op.IAnd? || op.IOr? || op.IXor?
    requires x.bits == y.bits == 64 && ValidNum(x) && ValidNum(y)
    ensures Apply(ModularOp(op), x, y).Some?
    ensures Apply(ModularOp(op), x, y).value.v
            == Wrap(64, x.signed && y.signed, BitOp(GateOf(ModularOp(op)), x.v, y.v, 64))
  {
    hide Wrap, Pow2, Balance, Cong, BitOp;
    ToCommon64(x, y);
    var (p, q) := Balance(x, y);
    BitOpCong(GateOf(ModularOp(op)), p.v, q.v, x.v, y.v, 64);
  }

  /** Extending a 64-bit gate result by its sign, or by zeros, is the wide gate
      exactly when the operands' signs go through the gate to that extension. */
  lemma ExtendedGate(g: Gate, i: int, j: int, s: bool, w: nat)
    requires w > 64 && (if s then InRange(64, true, i) && InRange(64, true, j)
                        else (InRange(64, true, i) || InRange(64, false, i))
                             && (InRange(64, true, j) || InRange(64, false, j)))
    ensures Cong(Wrap(64, s, BitOp(g, i, j, 64)), BitOp(g, i, j, w), Pow2(w)) <==> s || !g(i < 0, j < 0)
  {
    hide Pow2, Bit, BitOp, InRange, Wrap;
    var v, m := Wrap(64, s, BitOp(g, i, j, 64)), BitOp(g, i, j, w);
    if Cong(v, m, Pow2(w)) {
      GateBit(g, i, j, s, w, 64);
      BitCong(v, m, w, 64);
    }
    if s || !g(i < 0, j < 0) {
      CongMod(v, Pow2(w));
      forall k: nat | k < w ensures Bit(v % Pow2(w), k) == Bit(m, k) {
        BitCong(v % Pow2(w), v, w, k);
        GateBit(g, i, j, s, w, k);
      }
      BitsDetermine(v % Pow2(w), m, w);
    }
  }

  lemma GateBit(g: Gate, i: int, j: int, s: bool, w: nat, k: nat)
    requires k < w && w > 64 && (if s then InRange(64, true, i) && InRange(64, true, j)
                        else (InRange(64, true, i) || InRange(64, false, i))
                             && (InRange(64, true, j) || InRange(64, false, j)))
    ensures Bit(BitOp(g, i, j, w), k) == g(Bit(i, k), Bit(j, k))
    ensures k < 64 ==> Bit(Wrap(64, s, BitOp(g, i, j, 64)), k) == g(Bit(i, k), Bit(j, k))
    ensures k >= 64 ==> Bit(i, k) == (i < 0) && Bit(j, k) == (j < 0)
    ensures k >= 64 ==> Bit(Wrap(64, s, BitOp(g, i, j, 64)), k) == (s && g(i < 0, j < 0))
  {
    hide Pow2, Bit, BitOp, InRange, Wrap;
    var p := BitOp(g, i, j, 64);
    var v := Wrap(64, s, p);
    BitOpBit(g, i, j, w, k);
    WrapCong(64, s, p);
    if k < 64 {
      BitOpBit(g, i, j, 64, k);
      BitCong(v, p, 64, k);
    } else {
      HighBits(i, 64, k);
      HighBits(j, 64, k);
      HighBits(v, 64, k);
      if s {
        HighBits(i, 64, 63);
        HighBits(j, 64, 63);
        HighBits(v, 64, 63);
        BitOpBit(g, i, j, 64, 63);
        BitCong(v, p, 64, 63);
      } else {
        NotNegative(p);
      }
    }
  }

  lemma NotNegative(p: int)
    ensures Wrap(64, false, p) >= 0
  {
    hide Pow2;
  }

  /** Storing v gives the canonical integer of pattern m exactly when they agree. */
  lemma StoredIff(v: int, m: int, w: nat, signed: bool)
    requires w > 1
    ensures Convert(w, signed, v) == Wrap(w, signed, m) <==> Cong(v, m, Pow2(w))
  {
    hide Pow2, Wrap;
    if Cong(v, m, Pow2(w)) { WrapOfCong(w, signed, v, m); }
    WrapCong(w, signed, v);
    WrapCong(w, signed, m);
  }

  /** Number-level core for two narrow literals: right where 64 bits suffice, and at
      128 bits only there. */
  lemma NarrowModular(op: IntOp, x: Num, y: Num, a: int, b: int, w: nat, signed: bool)
    requires Modular(op) && x.bits == y.bits == 64 && ValidNum(x) && ValidNum(y) && w > 64
    requires Cong(x.v, a, Pow2(w)) && Cong(y.v, b, Pow2(w))
    ensures var right := NarrowRight(op, x.v, y.v, x.signed && y.signed);
            var stored := Convert(w, signed, Apply(ModularOp(op), x, y).value.v)
                == Wrap(w, signed, BinaryMeaning(op, a, b, w).value);
            && Apply(ModularOp(op), x, y).Some?
            && (right ==> stored) && (w >= 128 ==> (stored ==> right))
  {
    hide Pow2, Wrap, Apply, BitOp, Convert, Cong, BinaryMeaning, InRange, NarrowRight;
    ModularDefined(op, a, b, w);
    var m := BinaryMeaning(op, a, b, w).value;
    var s := x.signed && y.signed;
    if op.IAdd? || op.ISub? || op.IMul? {
      NarrowRing(op, x, y);
      RingMeaning(op, x.v, y.v, a, b, w);
      var e := Exactly(op, x.v, y.v);
      StoredIff(Wrap(64, s, e), m, w, signed);
      CongSwap(Wrap(64, s, e), m, e, Pow2(w));
      if w >= 128 { SmallExact(op, x, y, w); } else if InRange(64, s, e) { WrapId(64, s, e); CongSame(e, Pow2(w)); }
      RingRight(op, x.v, y.v, s);
    } else {
      NarrowGate(op, x, y);
      var g := GateOf(ModularOp(op));
      BitOpCong(g, x.v, y.v, a, b, w);
      GateMeaning(op, a, b, w);
      StoredIff(Wrap(64, s, BitOp(g, x.v, y.v, 64)), m, w, signed);
      LiteralsInRange(x, y);
      ExtendedGate(g, x.v, y.v, s, w);
      GateRight(op, x.v, y.v, s);
    }
  }

  lemma ModularDefined(op: IntOp, a: int, b: int, w: nat)
    requires Modular(op) && w > 0
    ensures BinaryMeaning(op, a, b, w).Some?
  {
    hide Pow2, BitOp, Wrap, TruncDiv, TruncRem;
  }

  lemma LiteralsInRange(x: Num, y: Num)
    requires x.bits == y.bits == 64 && ValidNum(x) && ValidNum(y)
    ensures if x.signed && y.signed then InRange(64, true, x.v) && InRange(64, true, y.v)
            else (InRange(64, true, x.v) || InRange(64, false, x.v))
                 && (InRange(64, true, y.v) || InRange(64, false, y.v))
  {
    hide InRange;
  }

  lemma GateMeaning(op: IntOp, a: int, b: int, w: nat)
    requires (op.IAnd? || op.IOr? || op.IXor?) && w > 0
    ensures BinaryMeaning(op, a, b, w) == Some(BitOp(GateOf(ModularOp(op)), a, b, w))
  {
    hide BitOp, Wrap, TruncDiv, TruncRem, Pow2;
  }

  lemma GateRight(op: IntOp, i: int, j: int, s: bool)
    requires op.IAnd? || op.IOr? || op.IXor?
    ensures NarrowRight(op, i, j, s) <==> s || !GateOf(ModularOp(op))(i < 0, j < 0)
  {
  }

  lemma RingRight(op: IntOp, i: int, j: int, s: bool)
    requires op.IAdd? || op.ISub? || op.IMul?
    ensures NarrowRight(op, i, j, s) <==> InRange(64, s, Exactly(op, i, j))
  {
    hide InRange;
  }

  lemma RingMeaning(op: IntOp, i: int, j: int, a: int, b: int, w: nat)
    requires (op.IAdd? || op.ISub? || op.IMul?) && w > 0 && Cong(i, a, Pow2(w)) && Cong(j, b, Pow2(w))
    ensures Cong(Exactly(op, i, j), BinaryMeaning(op, a, b, w).value, Pow2(w))
  {
    hide Pow2, Wrap, BitOp, TruncDiv, TruncRem;
    CongAdd(i, a, j, b, Pow2(w));
    CongMul(i, a, j, b, Pow2(w));
    CongMod(Exactly(op, a, b), Pow2(w));
  }

  lemma CongSwap(v: int, m: int, e: int, p: int)
    requires p > 0 && Cong(e, m, p)
    ensures Cong(v, m, p) <==> Cong(v, e, p)
  {
  }

  /** Exact results of 64-bit operands are too small to agree with their wrapped
      value by chance. */
  lemma SmallExact(op: IntOp, x: Num, y: Num, w: nat)
    requires (op.IAdd? || op.ISub? || op.IMul?) && w >= 128 && x.bits == y.bits == 64 && ValidNum(x) && ValidNum(y)
    ensures var e, s := Exactly(op, x.v, y.v), x.signed && y.signed;
            Cong(Wrap(64, s, e), e, Pow2(w)) <==> InRange(64, s, e)
  {
    hide Pow2, Wrap;
    var e, s := Exactly(op, x.v, y.v), x.signed && y.signed;
    LiteralRange(64);
    Pow2Add(64, 64);
    Pow2Monotone(128, w);
    ExactBounds(op, x.v, y.v, x.signed, y.signed);
    if InRange(64, s, e) { WrapId(64, s, e); }
    if Cong(Wrap(64, s, e), e, Pow2(w)) {
      var k := CongWitness(Wrap(64, s, e), e, Pow2(w));
      SmallMultiple(k, Pow2(w));
    }
  }

  lemma ExactBounds(op: IntOp, i: int, j: int, si: bool, sj: bool)
    requires op.IAdd? || op.ISub? || op.IMul?
    requires InRange(64, si, i) && InRange(64, sj, j)
    ensures var n, e := 0x1_0000_0000_0000_0000, Exactly(op, i, j);
            if si && sj then -n * n < 2 * e <= n * n else -n * n < 2 * e && e <= (n - 1) * (n - 1)
  {
    hide Pow2;
    LiteralRange(64);
    if op.IMul? { ProductBounds(i, j, si, sj); }
  }

  lemma ProductBounds(i: int, j: int, si: bool, sj: bool)
    requires InRange(64, si, i) && InRange(64, sj, j)
    ensures var n := 0x1_0000_0000_0000_0000;
            if si && sj then -n * n < 2 * (i * j) <= n * n else -n * n < 2 * (i * j) && i * j <= (n - 1) * (n - 1)
  {
    hide Pow2;
    LiteralRange(64);
    var h, n := 0x8000_0000_0000_0000, 0x1_0000_0000_0000_0000;
    if i >= 0 && j >= 0 {
      SameSign(i, j, if si then h - 1 else n - 1, if sj then h - 1 else n - 1);
    } else if i < 0 && j < 0 {
      SameSign(-i, -j, h, h);
      assert (-i) * (-j) == i * j;
    } else if i < 0 {
      SameSign(-i, j, h, if sj then h - 1 else n - 1);
      assert (-i) * j == -(i * j);
    } else {
      SameSign(i, -j, if si then h - 1 else n - 1, h);
      assert i * (-j) == -(i * j);
    }
  }

  lemma SameSign(i: int, j: int, p: int, q: int)
    requires 0 <= i <= p && 0 <= j <= q
    ensures 0 <= i * j <= p * q
  {
    MulMonotone(i, p, j);
    MulMonotone(j, q, p);
    MulMonotone(0, i, j);
    assert p * j == j * p && q * p == p * q;
  }

  /** Signed division of two narrow literals is defined, and right, except for the
      smallest 64-bit value by -1. */
  lemma NarrowDivision(op: IntOp, x: Num, y: Num, a: int, b: int, w: nat, signed: bool)
    requires (op.ISDiv? || op.ISRem?) && x.bits == y.bits == 64 && x.signed && y.signed && ValidNum(x) && ValidNum(y)
             && w > 64
    requires x.v == S(w, a) && y.v == S(w, b) && BinaryMeaning(op, a, b, w).Some?
    ensures var cop := if op.ISDiv? then Div else Rem;
            && (Apply(cop, x, y).Some? <==> NarrowRight(op, x.v, y.v, true))
            && (Apply(cop, x, y).Some?
                ==> Convert(w, signed, Apply(cop, x, y).value.v) == Wrap(w, signed, BinaryMeaning(op, a, b, w).value))
  {
    hide TruncDiv, TruncRem, Wrap, Pow2;
    var cop := if op.ISDiv? then Div else Rem;
    BalanceExact(x, y);
    LiteralRange(64);
    if NarrowRight(op, x.v, y.v, true) {
      DivisionApply(cop, x, y);
      var exact := if op.ISDiv? then TruncDiv(x.v, y.v) else TruncRem(x.v, y.v);
      QuotientIn64(x.v, y.v);
      WrapId(64, true, exact);
      CongMod(exact, Pow2(w));
      StoreCong(exact, BinaryMeaning(op, a, b, w).value, w, signed);
    }
  }

  lemma QuotientIn64(i: int, j: int)
    requires InRange(64, true, i) && InRange(64, true, j) && j != 0 && !(i == I64_MIN && j == -1)
    ensures InRange(64, true, TruncDiv(i, j)) && InRange(64, true, TruncRem(i, j))
  {
    hide Pow2, TruncDiv, TruncRem;
    LiteralRange(64);
    TruncatingDivision(i, j);
    QuotientSmall(Abs(i), Abs(j));
    HalvedQuotient(Abs(i), Abs(j));
  }

  /** A number within 2^64 of zero survives 64 bits exactly when it is in range. */
  lemma SmallWrap(e: int, s: bool, w: nat)
    requires w > 64 && -Pow2(64) < e < Pow2(64)
    ensures Cong(Wrap(64, s, e), e, Pow2(w)) <==> InRange(64, s, e)
  {
    hide Pow2, Wrap;
    LiteralRange(64);
    Double(65);
    Pow2Monotone(65, w);
    if InRange(64, s, e) { WrapId(64, s, e); }
    if Cong(Wrap(64, s, e), e, Pow2(w)) {
      var k := CongWitness(Wrap(64, s, e), e, Pow2(w));
      SmallMultiple(k, Pow2(w));
    }
  }

  /** Negating a narrow literal is right exactly when the result fits 64 bits. */
  lemma NarrowNegate(x: Num, a: int, w: nat, signed: bool)
    requires x.bits == 64 && ValidNum(x) && w > 64 && Cong(x.v, a, Pow2(w))
    ensures Convert(w, signed, ApplyUnary(Neg, x).v) == Wrap(w, signed, (-a) % Pow2(w)) <==> InRange(64, x.signed, -x.v)
  {
    hide Pow2, Wrap, BitOp;
    var m := Pow2(w);
    LiteralRange(64);
    CongAdd(0, 0, x.v, a, m);
    CongMod(-a, m);
    StoredIff(Wrap(64, x.signed, -x.v), (-a) % m, w, signed);
    SmallWrap(-x.v, x.signed, w);
  }

  /** Complementing a narrow literal is right exactly when it is signed. */
  lemma NarrowNot(x: Num, a: int, w: nat, signed: bool)
    requires x.bits == 64 && ValidNum(x) && w > 64 && Cong(x.v, a, Pow2(w)) && 0 <= a < Pow2(w)
    ensures Convert(w, signed, ApplyUnary(BitNot, x).v) == Wrap(w, signed, Pow2(w) - 1 - a) <==> x.signed
  {
    hide Pow2, Wrap, BitOp;
    var g := NotLeft();
    LiteralRange(64);
    BitOpCong(g, x.v, 0, a, 0, w);
    ComplementBits(a, w);
    StoredIff(Wrap(64, x.signed, BitOp(g, x.v, 0, 64)), Pow2(w) - 1 - a, w, signed);
    ExtendedGate(g, x.v, 0, x.signed, w);
  }

  /** A narrow arm is right exactly when it fits the arms' common 64-bit type. */
  lemma NarrowPick(x: Num, y: Num, a: int, b: int, w: nat, signed: bool)
    requires x.bits == y.bits == 64 && ValidNum(x) && ValidNum(y) && w > 64 && Cong(x.v, a, Pow2(w))
             && Cong(y.v, b, Pow2(w))
    ensures Convert(w, signed, Balance(x, y).0.v) == Wrap(w, signed, a) <==> (x.signed && y.signed) || x.v >= 0
    ensures Convert(w, signed, Balance(x, y).1.v) == Wrap(w, signed, b) <==> (x.signed && y.signed) || y.v >= 0
  {
    hide Pow2, Wrap;
    var s := x.signed && y.signed;
    LiteralRange(64);
    assert Balance(x, y).0.v == Wrap(64, s, x.v) && Balance(x, y).1.v == Wrap(64, s, y.v);
    StoredIff(Wrap(64, s, x.v), a, w, signed);
    StoredIff(Wrap(64, s, y.v), b, w, signed);
    SmallWrap(x.v, s, w);
    SmallWrap(y.v, s, w);
  }

  lemma HalvedQuotient(n: int, d: int)
    requires n >= 0 && d > 0
    ensures d > 1 ==> 2 * (n / d) <= n
    ensures d == 1 ==> n / d == n
  {
    if d > 1 { MulMonotone(2, d, n / d); }
  }

  /** On _Bool operands the bitwise operations stay within 0 and 1. */
  lemma BoolGate(op: IntOp, x: Num, y: Num)
    requires op.IAnd? || op.IOr? || op.IXor?
    requires ValidNum(x) && ValidNum(y) && 0 <= x.v <= 1 && 0 <= y.v <= 1
    ensures Apply(ModularOp(op), x, y).Some?
    ensures Apply(ModularOp(op), x, y).value.v == BitOp(GateOf(ModularOp(op)), x.v, y.v, 1)
  {
    BalanceExact(x, y);
    BalanceCong(x, y, 1);
    var (p, q) := Balance(x, y);
    BoolGateExact(GateOf(ModularOp(op)), p);
    hide Balance, Promote, BitOp, Wrap;
    var g := GateOf(ModularOp(op));
    assert BitOp(g, p.v, q.v, p.bits) == BitOp(g, p.v, q.v, 1) by { OneBitGate(g, p.v, q.v, p.bits); }
    WrapId(p.bits, p.signed, BitOp(g, p.v, q.v, 1));
  }

  lemma BoolGateExact(g: Gate, p: Num)
    requires p.bits >= 32
    ensures InRange(p.bits, p.signed, 0) && InRange(p.bits, p.signed, 1)
    ensures forall a, b :: InRange(p.bits, p.signed, BitOp(g, a, b, 1))
  {
    Pow2Monotone(1, p.bits - 1);
    LiteralRange(1);
  }

  lemma OneBitGate(g: Gate, a: int, b: int, n: nat)
    requires !g(false, false) && n > 0 && 0 <= a <= 1 && 0 <= b <= 1
    ensures BitOp(g, a, b, n) == BitOp(g, a, b, 1)
  {
    ZeroGate(g, n - 1);
    assert a / 2 == 0 && b / 2 == 0;
    assert BitOp(g, 0, 0, 0) == 0;
  }

  lemma {:induction false} ZeroGate(g: Gate, n: nat)
    requires !g(false, false)
    ensures BitOp(g, 0, 0, n) == 0
    decreases n
  {
    if n > 0 { ZeroGate(g, n - 1); }
  }

  /** The number-level core of add, sub, mul, and, or, xor. */
  lemma ModularStored(op: IntOp, x: Num, y: Num, a: int, b: int, w: nat, signed: bool)
    requires Modular(op) && 1 < w <= CommonBits(Promote(x), Promote(y))
    requires Cong(x.v, a, Pow2(w)) && Cong(y.v, b, Pow2(w))
    ensures Apply(ModularOp(op), x, y).Some?
    ensures Convert(w, signed, Apply(ModularOp(op), x, y).value.v) == Wrap(w, signed, BinaryMeaning(op, a, b, w).value)
  {
    hide Apply, Wrap, Cong, Convert;
    ModularApply(op, x, y, a, b, w);
    StoreCong(Apply(ModularOp(op), x, y).value.v, BinaryMeaning(op, a, b, w).value, w, signed);
  }

  lemma BoolStored(op: IntOp, x: Num, y: Num, a: int, b: int)
    requires (op.IAnd? || op.IOr? || op.IXor?) && ValidNum(x) && ValidNum(y) && 0 <= x.v == a <= 1 && 0 <= y.v == b <= 1
    ensures Apply(ModularOp(op), x, y).Some?
    ensures Convert(1, false, Apply(ModularOp(op), x, y).value.v) == Wrap(1, false, BinaryMeaning(op, a, b, 1).value)
  {
    hide Apply, BitOp;
    BoolGate(op, x, y);
    LiteralRange(1);
    var m := BinaryMeaning(op, a, b, 1).value;
    DivModUnique(m, 2, 0, m);
  }

  lemma EvalBinop(op: BinOp, l: Operand, r: Operand, temps: Vars<Num>, ptr: nat)
    requires Denote(l.text, temps).Some? && Denote(r.text, temps).Some?
    ensures Eval(Binop(op, l, r), temps, ptr) == Apply(op, Denote(l.text, temps).value, Denote(r.text, temps).value)
  {
    hide Apply, Denote, Combine;
    CombineApplies(op, Denote(l.text, temps).value, Denote(r.text, temps).value);
  }

  /** OperandFacts for two operands, with the definitions behind it hidden. */
  ghost predicate Facts(o: Operand, n: Num, a: int, w: nat, ptr: nat)
    requires Scalar(o.ty, ptr)
  {
    && w == Width(o.ty, ptr) && 0 <= a < Pow2(w)
    && ValidNum(n) && n.bits == TextBits(o, ptr) && Cong(n.v, a, Pow2(w))
    && (ShowsUnsigned(o, ptr) ==> n.v == a)
    && (ShowsSigned(o, ptr) ==> n.v == S(w, a) && n.signed)
    && (o.ty.BoolT? && ShowsPattern(o, ptr) ==> n.v == a)
    && (IsVar(o.text) ==> n == Canon(o.ty, ptr, a))
  }

  lemma GetFacts(o: Operand, temps: Vars<Num>, pats: Vars<int>, tys: Vars<TypeName>, ptr: nat) returns (n: Num, a: int)
    requires Canonical(temps, pats, tys, ptr) && Scalar(o.ty, ptr) && Known(o, tys)
    ensures Denote(o.text, temps) == Some(n) && Pattern(o, pats, ptr) == a && Facts(o, n, a, Width(o.ty, ptr), ptr)
  {
    OperandFacts(o, temps, pats, tys, ptr);
    n, a := Denote(o.text, temps).value, Pattern(o, pats, ptr);
    if o.ty.BoolT? && ShowsPattern(o, ptr) { BoolOperand(o, temps, pats, tys, ptr); }
  }

  lemma LowerModular(op: IntOp, l: Operand, r: Operand, temps: Vars<Num>, pats: Vars<int>, tys: Vars<TypeName>,
                     ptr: nat)
    requires Modular(op) && Canonical(temps, pats, tys, ptr)
    requires OperandsSized(Binary(op, l, r), ptr) && WellTyped(Binary(op, l, r), tys, ptr)
    ensures Stores(EmitBinary(op, l, r), temps, l.ty, ptr, Meaning(Binary(op, l, r), pats, ptr).value)
  {
    hide Apply, Canonical, Known, Pattern, Denote, Wrap, BinaryMeaning, Cong, InRange, Eval, Convert;
    var x, a := GetFacts(l, temps, pats, tys, ptr);
    var y, b := GetFacts(r, temps, pats, tys, ptr);
    EvalBinop(ModularOp(op), l, r, temps, ptr);
    if l.ty.BoolT? {
      LiteralRange(1);
      BoolStored(op, x, y, a, b);
    } else {
      if WideEnough(l, r, ptr) {
        ModularStored(op, x, y, a, b, Width(l.ty, ptr), Signed(l.ty));
      } else {
        NarrowFacts(l, temps, tys, ptr);
        NarrowFacts(r, temps, tys, ptr);
        NarrowModular(op, x, y, a, b, Width(l.ty, ptr), Signed(l.ty));
      }
    }
  }

  lemma BoolOperand(o: Operand, temps: Vars<Num>, pats: Vars<int>, tys: Vars<TypeName>, ptr: nat)
    requires Canonical(temps, pats, tys, ptr) && o.ty.BoolT? && Known(o, tys) && ShowsPattern(o, ptr)
    ensures Denote(o.text, temps).Some? && Denote(o.text, temps).value.v == Pattern(o, pats, ptr)
    ensures 0 <= Pattern(o, pats, ptr) <= 1
  {
    OperandFacts(o, temps, pats, tys, ptr);
    LiteralRange(1);
  }

  // ----- casts -----

  /** A cast to an integer type of the operand's own width recovers the pattern. */
  lemma CastPattern(e: CExpr, n: Num, a: int, w: nat, ty: TypeName, temps: Vars<Num>, ptr: nat)
    requires Eval(e, temps, ptr) == Some(n) && w > 1 && Width(ty, ptr) == w
    requires Cong(n.v, a, Pow2(w)) && 0 <= a < Pow2(w)
    ensures Eval(Cast(ty, e), temps, ptr) == Some(Canon(ty, ptr, a))
    ensures !Signed(ty) ==> Canon(ty, ptr, a).v == a
    ensures Canon(ty, ptr, a) == Num(w, Signed(ty), Wrap(w, Signed(ty), a)) && ValidNum(Canon(ty, ptr, a))
  {
    WrapOfCong(w, Signed(ty), n.v, a);
    WrapId(w, false, a);
  }

  lemma UnsignedWidth(ty: TypeName, ptr: nat)
    requires UnsignedType(ty).Some?
    ensures Width(UnsignedType(ty).value, ptr) == Width(ty, ptr) && !Signed(UnsignedType(ty).value)
  {
  }

  lemma SignedHasUnsigned(ty: TypeName, ptr: nat)
    requires Sized(ty, ptr)
    ensures Signed(ty) <==> UnsignedType(ty).Some?
  {
  }

  // ----- division -----

  lemma DivisionApply(op: BinOp, x: Num, y: Num)
    requires (op.Div? || op.Rem?) && ValidNum(x) && ValidNum(y)
    requires Balance(x, y).0.v == x.v && Balance(x, y).1.v == y.v && y.v != 0
    requires x.v < 0 && y.v == -1 ==> x.v != -Pow2(CommonBits(Promote(x), Promote(y)) - 1)
    requires CommonBits(Promote(x), Promote(y)) > 0 && (x.v >= 0 || (Promote(x).signed && Promote(y).signed))
    ensures var exact := if op.Div? then TruncDiv(x.v, y.v) else TruncRem(x.v, y.v);
            Apply(op, x, y) == Some(InType(Balance(x, y).0, exact))
  {
    hide TruncDiv, TruncRem, Wrap;
  }

  lemma SignedDivision(op: IntOp, x: Num, y: Num, a: int, b: int, w: nat)
    requires (op.ISDiv? || op.ISRem?) && ValidNum(x) && ValidNum(y) && x.signed && y.signed
    requires 1 < w <= CommonBits(Promote(x), Promote(y)) && x.v == S(w, a) && y.v == S(w, b)
    requires BinaryMeaning(op, a, b, w).Some?
    ensures var cop := if op.ISDiv? then Div else Rem;
            && Apply(cop, x, y).Some?
            && Convert(w, true, Apply(cop, x, y).value.v) == Wrap(w, true, BinaryMeaning(op, a, b, w).value)
  {
    hide TruncDiv, TruncRem;
    var cop := if op.ISDiv? then Div else Rem;
    var cb := CommonBits(Promote(x), Promote(y));
    BalanceExact(x, y);
    if cb > w { Pow2Strict(w - 1, cb - 1); }
    DivisionApply(cop, x, y);
    var exact := if op.ISDiv? then TruncDiv(x.v, y.v) else TruncRem(x.v, y.v);
    var v := InType(Balance(x, y).0, exact).v;
    BalanceCong(x, y, w);
    WrapCongNarrow(cb, Balance(x, y).0.signed, exact, w);
    CongMod(exact, Pow2(w));
    StoreCong(v, BinaryMeaning(op, a, b, w).value, w, true);
  }

  /** Operands that show their unsigned values divide exactly. */
  lemma UnsignedDivision(op: IntOp, x: Num, y: Num, a: int, b: int, w: nat)
    requires (op.IUDiv? || op.IURem?) && w > 1 && ValidNum(x) && ValidNum(y)
    requires x.v == a && y.v == b && 0 <= a < Pow2(w) && 0 < b < Pow2(w)
    ensures var cop := if op.IUDiv? then Div else Rem;
            && Apply(cop, x, y).Some?
            && Apply(cop, x, y).value.v == BinaryMeaning(op, a, b, w).value
  {
    hide TruncDiv, TruncRem, Wrap, Apply, Balance, Promote, BinaryMeaning;
    var cop := if op.IUDiv? then Div else Rem;
    PromoteValid(x);
    PromoteValid(y);
    BalanceExact(x, y);
    BalanceCong(x, y, 1);
    DivisionApply(cop, x, y);
    var p := Balance(x, y).0;
    UnsignedQuotient(op, a, b, w, p.bits, p.signed);
    WrapId(p.bits, p.signed, BinaryMeaning(op, a, b, w).value);
  }

  lemma UnsignedQuotient(op: IntOp, a: int, b: int, w: nat, bits: nat, signed: bool)
    requires (op.IUDiv? || op.IURem?) && w > 0 && bits > 0 && 0 <= a < Pow2(w) && 0 < b && InRange(bits, signed, a)
    ensures BinaryMeaning(op, a, b, w) == Some(if op.IUDiv? then TruncDiv(a, b) else TruncRem(a, b))
    ensures InRange(bits, signed, BinaryMeaning(op, a, b, w).value)
  {
    hide Pow2, TruncDiv, TruncRem, InRange, BinaryMeaning;
    QuotientSmall(a, b);
    var exact := if op.IUDiv? then a / b else a % b;
    DivModUnique(exact, Pow2(w), 0, exact);
    UnsignedDivisionMeaning(op, a, b, w);
    TruncOfNat(a, b);
    InRangeBelow(bits, signed, exact, a);
  }

  lemma UnsignedDivisionMeaning(op: IntOp, a: int, b: int, w: nat)
    requires (op.IUDiv? || op.IURem?) && w > 0 && b > 0
    ensures BinaryMeaning(op, a, b, w) == Some((if op.IUDiv? then a / b else a % b) % Pow2(w))
  {
    hide Pow2, Wrap, BitOp, TruncDiv, TruncRem;
  }

  lemma TruncOfNat(a: int, b: int)
    requires a >= 0 && b > 0
    ensures TruncDiv(a, b) == a / b && TruncRem(a, b) == a % b
  {
  }

  lemma InRangeBelow(bits: nat, signed: bool, v: int, a: int)
    requires bits > 0 && 0 <= v <= a && InRange(bits, signed, a)
    ensures InRange(bits, signed, v)
  {
    hide Pow2;
  }

  predicate IsDivision(op: IntOp) {
    op.IUDiv? || op.IURem? || op.ISDiv? || op.ISRem?
  }

  lemma LowerSignedDivision(op: IntOp, l: Operand, r: Operand, temps: Vars<Num>, pats: Vars<int>, tys: Vars<TypeName>,
                            ptr: nat)
    requires (op.ISDiv? || op.ISRem?) && Canonical(temps, pats, tys, ptr)
    requires OperandsSized(Binary(op, l, r), ptr) && WellTyped(Binary(op, l, r), tys, ptr)
    requires Meaning(Binary(op, l, r), pats, ptr).Some?
    ensures Stores(EmitBinary(op, l, r), temps, l.ty, ptr, Meaning(Binary(op, l, r), pats, ptr).value)
  {
    hide Apply, Canonical, Known, Pattern, Denote, Wrap, BinaryMeaning, Cong, InRange, Eval, Convert, S;
    var x, a := GetFacts(l, temps, pats, tys, ptr);
    var y, b := GetFacts(r, temps, pats, tys, ptr);
    EvalBinop(if op.ISDiv? then Div else Rem, l, r, temps, ptr);
    if WideEnough(l, r, ptr) {
      SignedDivision(op, x, y, a, b, Width(l.ty, ptr));
    } else {
      NarrowFacts(l, temps, tys, ptr);
      NarrowFacts(r, temps, tys, ptr);
      NarrowDivision(op, x, y, a, b, Width(l.ty, ptr), true);
    }
  }

  lemma LowerUnsignedDivision(op: IntOp, l: Operand, r: Operand, temps: Vars<Num>, pats: Vars<int>, tys: Vars<TypeName>,
                              ptr: nat)
    requires (op.IUDiv? || op.IURem?) && Canonical(temps, pats, tys, ptr)
    requires OperandsSized(Binary(op, l, r), ptr) && WellTyped(Binary(op, l, r), tys, ptr)
    requires Meaning(Binary(op, l, r), pats, ptr).Some?
    ensures Stores(EmitBinary(op, l, r), temps, l.ty, ptr, Meaning(Binary(op, l, r), pats, ptr).value)
  {
    hide Apply, Canonical, Known, Pattern, Denote, Wrap, Cong, InRange, Eval, Convert;
    var x, a := GetFacts(l, temps, pats, tys, ptr);
    var y, b := GetFacts(r, temps, pats, tys, ptr);
    var w := Width(l.ty, ptr);
    var cop := if op.IUDiv? then Div else Rem;
    SignedHasUnsigned(l.ty, ptr);
    if Signed(l.ty) {
      UnsignedWidth(l.ty, ptr);
      var ut := UnsignedType(l.ty).value;
      EvalVar(l, temps, ptr);
      EvalVar(r, temps, ptr);
      CastPattern(Var(l.text), x, a, w, ut, temps, ptr);
      CastPattern(Var(r.text), y, b, w, ut, temps, ptr);
      var cx, cy := Canon(ut, ptr, a), Canon(ut, ptr, b);
      UnsignedDivision(op, cx, cy, a, b, w);
      EvalParenBin(cop, Cast(ut, Var(l.text)), Cast(ut, Var(r.text)), temps, ptr);
      StoreTwice(Paren(Bin(Cast(ut, Var(l.text)), cop, Cast(ut, Var(r.text)))), l.ty, temps, ptr,
                 BinaryMeaning(op, a, b, w).value, w);
    } else {
      EvalBinop(cop, l, r, temps, ptr);
      UnsignedDivision(op, x, y, a, b, w);
      StoreSame(BinaryMeaning(op, a, b, w).value, w, Signed(l.ty));
    }
  }

  lemma EvalVar(o: Operand, temps: Vars<Num>, ptr: nat)
    ensures Eval(Var(o.text), temps, ptr) == Eval(Paren(Var(o.text)), temps, ptr) == Denote(o.text, temps)
  {
    hide Denote;
  }

  lemma EvalParenBin(op: BinOp, e: CExpr, f: CExpr, temps: Vars<Num>, ptr: nat)
    requires Eval(e, temps, ptr).Some? && Eval(f, temps, ptr).Some?
    ensures Eval(Paren(Bin(e, op, f)), temps, ptr) == Eval(Bin(e, op, f), temps, ptr)
    ensures Eval(Bin(e, op, f), temps, ptr) == Apply(op, Eval(e, temps, ptr).value, Eval(f, temps, ptr).value)
  {
    hide Apply, Combine, Denote, Conditional, ApplyUnary, Convert, Width, Signed, TypeOf;
    CombineApplies(op, Eval(e, temps, ptr).value, Eval(f, temps, ptr).value);
  }

  lemma StoreSame(m: int, w: nat, signed: bool)
    requires w > 1
    ensures Convert(w, signed, m) == Wrap(w, signed, m)
  {
  }

  /** Cast to the result type, then stored in a temporary of that type. */
  lemma StoreTwice(e: CExpr, ty: TypeName, temps: Vars<Num>, ptr: nat, m: int, w: nat)
    requires Eval(e, temps, ptr).Some? && w == Width(ty, ptr) > 1
    requires Cong(Eval(e, temps, ptr).value.v, m, Pow2(w))
    ensures Stores(Cast(ty, e), temps, ty, ptr, m)
  {
    var v := Eval(e, temps, ptr).value.v;
    WrapCong(w, Signed(ty), v);
    WrapOfCong(w, Signed(ty), v, m);
    WrapOfCong(w, Signed(ty), Wrap(w, Signed(ty), v), v);
  }

  // ----- shifts -----

  lemma ShiftCount(o: Operand, n: Num, b: int, w: nat, ptr: nat)
    requires Sized(o.ty, ptr) && Facts(o, n, b, w, ptr) && ShowsPattern(o, ptr) && 0 <= b < w
    requires ConstantValue(o.text).Some? || IsVar(o.text)
    requires ConstantValue(o.text).Some? ==> n.v == ConstantValue(o.text).value
    ensures Promote(n).v == b
  {
    if ConstantValue(o.text).Some? {
      DivModUnique(n.v, Pow2(w), 0, n.v);
      DivModUnique(b, Pow2(w), 0, b);
    } else if Signed(o.ty) {
      CountSmall(w);
      WrapId(w, true, b);
    }
  }

  lemma CountSmall(w: nat)
    requires w > 1
    ensures w <= Pow2(w - 1)
  {
    if w > 2 { CountSmall(w - 1); }
  }

  /** Shifts of a value already cast to the shift's type. */
  lemma ShiftApply(op: IntOp, x: Num, y: Num, a: int, b: int, w: nat)
    requires 1 < w && ValidNum(x) && x.bits == w && 0 <= b < w && Promote(y).v == b
    requires op.IShl? ==> Cong(x.v, a, Pow2(w))
    requires op.ILShr? ==> x.v == a
    requires op.IAShr? ==> x.v == S(w, a)
    requires op.IShl? || op.ILShr? || op.IAShr?
    ensures var cop := if op.IShl? then Shl else Shr;
            && Apply(cop, x, y).Some?
            && Cong(Apply(cop, x, y).value.v, BinaryMeaning(op, a, b, w).value, Pow2(w))
  {
    hide Cong, Wrap;
    var p := Promote(x);
    var m := Pow2(w);
    if op.IShl? {
      CongSame(Pow2(b), m);
      CongMul(x.v, a, Pow2(b), Pow2(b), m);
      WrapCongNarrow(p.bits, p.signed, x.v * Pow2(b), w);
      CongMod(a * Pow2(b), m);
      CongTrans(Wrap(p.bits, p.signed, x.v * Pow2(b)), x.v * Pow2(b), a * Pow2(b), m);
      CongTrans(Wrap(p.bits, p.signed, x.v * Pow2(b)), a * Pow2(b), (a * Pow2(b)) % m, m);
    } else {
      CongMod(x.v / Pow2(b), m);
      CongTrans(x.v / Pow2(b), x.v / Pow2(b), (x.v / Pow2(b)) % m, m);
    }
  }

  lemma CongSame(x: int, m: int)
    requires m > 0
    ensures Cong(x, x, m)
  {
  }

  lemma ConstantDenotes(o: Operand, temps: Vars<Num>)
    requires ConstantValue(o.text).Some? && Denote(o.text, temps).Some?
    ensures Denote(o.text, temps).value.v == ConstantValue(o.text).value
  {
  }

  lemma KnownKind(o: Operand, tys: Vars<TypeName>)
    requires Known(o, tys) && !o.ty.PointerT?
    ensures ConstantValue(o.text).Some? || IsVar(o.text)
  {
  }

  /** `(ty)(l) << (r)` and `(ty)(l) >> (r)`. */
  lemma LowerShiftOf(op: IntOp, ty: TypeName, l: Operand, r: Operand, temps: Vars<Num>, pats: Vars<int>,
                     tys: Vars<TypeName>, ptr: nat)
    requires op.IShl? || (op.ILShr? && !Signed(ty)) || (op.IAShr? && Signed(ty))
    requires Canonical(temps, pats, tys, ptr) && Sized(l.ty, ptr) && Sized(r.ty, ptr) && Known(l, tys) && Known(r, tys)
    requires Width(l.ty, ptr) == Width(r.ty, ptr) == Width(ty, ptr) > 1 && ShowsPattern(r, ptr)
    requires 0 <= Pattern(r, pats, ptr) < Width(l.ty, ptr)
    ensures var e := ShiftOf(ty, if op.IShl? then Shl else Shr, l, r);
            && Eval(e, temps, ptr).Some?
            && Cong(Eval(e, temps, ptr).value.v,
                    BinaryMeaning(op, Pattern(l, pats, ptr), Pattern(r, pats, ptr), Width(l.ty, ptr)).value,
                    Pow2(Width(l.ty, ptr)))
  {
    hide Apply, Canonical, Known, Pattern, Denote, Wrap, Cong, InRange, Eval, Convert, BinaryMeaning;
    var x, a := GetFacts(l, temps, pats, tys, ptr);
    var y, b := GetFacts(r, temps, pats, tys, ptr);
    var w := Width(l.ty, ptr);
    KnownKind(r, tys);
    if ConstantValue(r.text).Some? { ConstantDenotes(r, temps); }
    ShiftCount(r, y, b, w, ptr);
    EvalVar(l, temps, ptr);
    EvalVar(r, temps, ptr);
    CastPattern(Paren(Var(l.text)), x, a, w, ty, temps, ptr);
    var cx := Canon(ty, ptr, a);
    WrapCong(w, Signed(ty), a);
    ShiftApply(op, cx, y, a, b, w);
    EvalParenBin(if op.IShl? then Shl else Shr, Cast(ty, Paren(Var(l.text))), Paren(Var(r.text)), temps, ptr);
  }

  lemma ShiftDefined(op: IntOp, a: int, b: int, w: nat)
    requires w > 0 && (op.IShl? || op.ILShr? || op.IAShr?)
    ensures BinaryMeaning(op, a, b, w).Some? <==> 0 <= b < w
  {
  }

  lemma LowerShift(op: IntOp, l: Operand, r: Operand, temps: Vars<Num>, pats: Vars<int>, tys: Vars<TypeName>, ptr: nat)
    requires (op.IShl? || op.ILShr? || op.IAShr?) && Canonical(temps, pats, tys, ptr)
    requires OperandsSized(Binary(op, l, r), ptr) && WellTyped(Binary(op, l, r), tys, ptr)
    requires Meaning(Binary(op, l, r), pats, ptr).Some?
    ensures Stores(EmitBinary(op, l, r), temps, l.ty, ptr, Meaning(Binary(op, l, r), pats, ptr).value)
  {
    hide Apply, Canonical, Known, Pattern, Denote, Wrap, Cong, InRange, Eval, Convert, BinaryMeaning, Pow2;
    var w := Width(l.ty, ptr);
    var a, b := Pattern(l, pats, ptr), Pattern(r, pats, ptr);
    var m := BinaryMeaning(op, a, b, w).value;
    ShiftDefined(op, a, b, w);
    SignedHasUnsigned(l.ty, ptr);
    if op.ILShr? && Signed(l.ty) {
      UnsignedWidth(l.ty, ptr);
      var ut := UnsignedType(l.ty).value;
      LowerShiftOf(op, ut, l, r, temps, pats, tys, ptr);
      EvalParen(ShiftOf(ut, Shr, l, r), temps, ptr);
      StoreTwice(Paren(ShiftOf(ut, Shr, l, r)), l.ty, temps, ptr, m, w);
    } else {
      LowerShiftOf(op, l.ty, l, r, temps, pats, tys, ptr);
      StoreCong(Eval(ShiftOf(l.ty, if op.IShl? then Shl else Shr, l, r), temps, ptr).value.v, m, w, Signed(l.ty));
    }
  }

  lemma EvalParen(e: CExpr, temps: Vars<Num>, ptr: nat)
    ensures Eval(Paren(e), temps, ptr) == Eval(e, temps, ptr)
  {
  }

  // ----- unary operations and conversions -----

  lemma EvalUn(op: UnOp, e: CExpr, temps: Vars<Num>, ptr: nat)
    requires Eval(e, temps, ptr).Some?
    ensures Eval(Un(op, e), temps, ptr) == Some(ApplyUnary(op, Eval(e, temps, ptr).value))
  {
    hide ApplyUnary;
  }

  lemma NegStored(x: Num, a: int, w: nat, signed: bool)
    requires ValidNum(x) && 1 < w <= x.bits && Cong(x.v, a, Pow2(w))
    ensures Convert(w, signed, ApplyUnary(Neg, x).v) == Wrap(w, signed, (-a) % Pow2(w))
  {
    var p := Promote(x);
    var m := Pow2(w);
    CongAdd(0, 0, x.v, a, m);
    WrapCongNarrow(p.bits, p.signed, -x.v, w);
    CongMod(-a, m);
    StoreCong(ApplyUnary(Neg, x).v, (-a) % m, w, signed);
  }

  lemma NotStored(x: Num, a: int, w: nat, signed: bool)
    requires ValidNum(x) && 1 < w <= x.bits && Cong(x.v, a, Pow2(w)) && 0 <= a < Pow2(w)
    ensures Convert(w, signed, ApplyUnary(BitNot, x).v) == Wrap(w, signed, Pow2(w) - 1 - a)
  {
    hide BitOp;
    var p := Promote(x);
    var g := NotLeft();
    var r := BitOp(g, x.v, 0, p.bits);
    BitOpNarrow(g, x.v, 0, w, p.bits);
    BitOpCong(g, x.v, 0, a, 0, w);
    ComplementBits(a, w);
    WrapCongNarrow(p.bits, p.signed, r, w);
    StoreCong(ApplyUnary(BitNot, x).v, Pow2(w) - 1 - a, w, signed);
  }

  lemma LowerUnary(i: Instr, temps: Vars<Num>, pats: Vars<int>, tys: Vars<TypeName>, ptr: nat)
    requires (i.Negate? || i.Not?) && Canonical(temps, pats, tys, ptr)
    requires OperandsSized(i, ptr) && WellTyped(i, tys, ptr)
    ensures Stores(Emit(i), temps, ResultType(i), ptr, Meaning(i, pats, ptr).value)
  {
    hide ApplyUnary, Canonical, Known, Pattern, Denote, Wrap, Cong, Eval, Convert, InRange, Pow2;
    var x, a := GetFacts(i.v, temps, pats, tys, ptr);
    if Narrow(i.v, ptr) { NarrowFacts(i.v, temps, tys, ptr); }
    var w := Width(i.v.ty, ptr);
    EvalVar(i.v, temps, ptr);
    if i.Negate? {
      EvalUn(Neg, Var(i.v.text), temps, ptr);
      if Narrow(i.v, ptr) { NarrowNegate(x, a, w, Signed(i.v.ty)); } else { NegStored(x, a, w, Signed(i.v.ty)); }
    } else if i.v.ty.BoolT? {
      EvalUn(LogNot, Var(i.v.text), temps, ptr);
      LiteralRange(1);
      LogNotStored(x, a);
    } else {
      EvalUn(BitNot, Var(i.v.text), temps, ptr);
      if Narrow(i.v, ptr) { NarrowNot(x, a, w, Signed(i.v.ty)); } else { NotStored(x, a, w, Signed(i.v.ty)); }
    }
  }

  lemma LogNotStored(x: Num, a: int)
    requires x.v == a && 0 <= a <= 1
    ensures Convert(1, false, ApplyUnary(LogNot, x).v) == Wrap(1, false, 1 - a)
  {
    LiteralRange(1);
    BoolCanon(a == 0);
  }

  lemma CastStored(e: CExpr, n: Num, m: int, ty: TypeName, temps: Vars<Num>, ptr: nat)
    requires Eval(e, temps, ptr) == Some(n) && Width(ty, ptr) > 1 && Cong(n.v, m, Pow2(Width(ty, ptr)))
    ensures Stores(Cast(ty, e), temps, ty, ptr, m)
  {
    StoreTwice(e, ty, temps, ptr, m, Width(ty, ptr));
  }

  lemma LowerTrunc(v: Operand, ty: TypeName, temps: Vars<Num>, pats: Vars<int>, tys: Vars<TypeName>, ptr: nat)
    requires Canonical(temps, pats, tys, ptr) && Sized(v.ty, ptr) && Sized(ty, ptr) && WellTyped(Trunc(v, ty), tys, ptr)
    ensures Stores(Cast(ty, Var(v.text)), temps, ty, ptr, Pattern(v, pats, ptr) % Pow2(Width(ty, ptr)))
  {
    hide Canonical, Known, Pattern, Denote, Wrap, Eval, Convert;
    var n, a := GetFacts(v, temps, pats, tys, ptr);
    var w := Width(ty, ptr);
    EvalVar(v, temps, ptr);
    CongNarrow(n.v, a, Width(v.ty, ptr), w);
    CongMod(a, Pow2(w));
    CastStored(Var(v.text), n, a % Pow2(w), ty, temps, ptr);
  }

  /** A text whose value is already the one to extend. */
  lemma LowerWiden(v: Operand, value: int, ty: TypeName, temps: Vars<Num>, ptr: nat)
    requires Width(ty, ptr) > 1 && Denote(v.text, temps).Some? && Denote(v.text, temps).value.v == value
    ensures Stores(Cast(ty, Var(v.text)), temps, ty, ptr, value % Pow2(Width(ty, ptr)))
  {
    hide Denote, Wrap, Eval, Convert;
    EvalVar(v, temps, ptr);
    CongMod(value, Pow2(Width(ty, ptr)));
    CastStored(Var(v.text), Denote(v.text, temps).value, value % Pow2(Width(ty, ptr)), ty, temps, ptr);
  }

  /** A cast to the other signedness of the same width first. */
  lemma LowerRecast(v: Operand, mid: TypeName, ty: TypeName, temps: Vars<Num>, pats: Vars<int>, tys: Vars<TypeName>,
                    ptr: nat)
    requires Canonical(temps, pats, tys, ptr) && Sized(v.ty, ptr) && Known(v, tys) && Width(ty, ptr) > 1
    requires Width(mid, ptr) == Width(v.ty, ptr) > 1
    ensures var a := Pattern(v, pats, ptr);
            Stores(Cast(ty, Cast(mid, Var(v.text))), temps, ty, ptr,
                   (if Signed(mid) then S(Width(v.ty, ptr), a) else a) % Pow2(Width(ty, ptr)))
  {
    hide Canonical, Known, Pattern, Denote, Eval, Convert;
    var n, a := GetFacts(v, temps, pats, tys, ptr);
    EvalVar(v, temps, ptr);
    CastPattern(Var(v.text), n, a, Width(v.ty, ptr), mid, temps, ptr);
    var value := Canon(mid, ptr, a).v;
    CongMod(value, Pow2(Width(ty, ptr)));
    CastStored(Cast(mid, Var(v.text)), Canon(mid, ptr, a), value % Pow2(Width(ty, ptr)), ty, temps, ptr);
  }

  lemma LowerZExt(v: Operand, ty: TypeName, temps: Vars<Num>, pats: Vars<int>, tys: Vars<TypeName>, ptr: nat)
    requires Canonical(temps, pats, tys, ptr) && Sized(v.ty, ptr) && Sized(ty, ptr) && WellTyped(ZExt(v, ty), tys, ptr)
    ensures Stores(EmitZExt(v, ty), temps, ty, ptr, Pattern(v, pats, ptr) % Pow2(Width(ty, ptr)))
  {
    hide Canonical, Known, Pattern, Denote, Wrap, Eval, Convert, Stores;
    SignedHasUnsigned(v.ty, ptr);
    if Signed(v.ty) {
      UnsignedWidth(v.ty, ptr);
      LowerRecast(v, UnsignedType(v.ty).value, ty, temps, pats, tys, ptr);
    } else {
      var n, a := GetFacts(v, temps, pats, tys, ptr);
      LowerWiden(v, a, ty, temps, ptr);
    }
  }

  lemma LowerSExt(v: Operand, ty: TypeName, temps: Vars<Num>, pats: Vars<int>, tys: Vars<TypeName>, ptr: nat)
    requires Canonical(temps, pats, tys, ptr) && Sized(v.ty, ptr) && Sized(ty, ptr) && WellTyped(SExt(v, ty), tys, ptr)
    ensures Stores(Cast(ty, Var(v.text)), temps, ty, ptr,
                   S(Width(v.ty, ptr), Pattern(v, pats, ptr)) % Pow2(Width(ty, ptr)))
  {
    hide Canonical, Known, Pattern, Denote, Wrap, Eval, Convert, Stores, S;
    var n, a := GetFacts(v, temps, pats, tys, ptr);
    LowerWiden(v, S(Width(v.ty, ptr), a), ty, temps, ptr);
  }

  lemma LowerIntCast(i: Instr, temps: Vars<Num>, pats: Vars<int>, tys: Vars<TypeName>, ptr: nat)
    requires i.IntCast? && Canonical(temps, pats, tys, ptr) && OperandsSized(i, ptr) && WellTyped(i, tys, ptr)
    ensures Stores(Emit(i), temps, ResultType(i), ptr, Meaning(i, pats, ptr).value)
  {
    hide Canonical, Known, Pattern, Denote, Wrap, Eval, Convert, Stores, S;
    if !i.signed {
      LowerZExt(i.v, i.ty, temps, pats, tys, ptr);
    } else if Signed(i.v.ty) {
      LowerSExt(i.v, i.ty, temps, pats, tys, ptr);
    } else {
      SignedTypeFacts(i.v.ty, ptr);
      LowerRecast(i.v, SignedType(i.v.ty), i.ty, temps, pats, tys, ptr);
    }
  }

  lemma SignedTypeFacts(ty: TypeName, ptr: nat)
    requires Sized(ty, ptr) && Width(ty, ptr) > 1 && !Signed(ty)
    ensures (ty.IntT? || ty.PtrWidthT?) && !ty.signed
    ensures Width(SignedType(ty), ptr) == Width(ty, ptr) && Signed(SignedType(ty))
  {
  }

  // ----- comparisons and select -----

  lemma CompareFacts(p: Pred, l: TypeName, r: TypeName, ptr: nat)
    requires Scalar(l, ptr) && Scalar(r, ptr) && Width(l, ptr) == Width(r, ptr)
    requires l.PointerT? || r.PointerT? ==> l.PtrWidthT? || r.PtrWidthT? || (l == r && ptr == 64)
    ensures var ct := CompareType(p, l, r);
            Width(ct, ptr) == Width(l, ptr) && (Width(l, ptr) > 1 ==> Signed(ct) == !IsUnsignedPred(p))
              && (Width(l, ptr) == 1 ==> !Signed(ct))
  {
  }

  /** Equal types on both sides: the comparison is on the values themselves. */
  lemma CompareApply(p: Pred, x: Num, y: Num)
    requires ValidNum(x) && ValidNum(y) && x.bits == y.bits && x.signed == y.signed
    ensures Apply(COp(p), x, y) ==
            Some(Truth(match COp(p)
                       case Eq => x.v == y.v
                       case Ne => x.v != y.v
                       case Lt => x.v < y.v
                       case Le => x.v <= y.v
                       case Gt => x.v > y.v
                       case _ => x.v >= y.v))
  {
    hide Wrap;
    PromoteValid(x);
    PromoteValid(y);
    BalanceSame(x, y);
  }

  lemma BalanceSame(a: Num, b: Num)
    requires ValidNum(a) && ValidNum(b) && a.bits == b.bits && a.signed == b.signed
    ensures Balance(a, b).0.v == a.v && Balance(a, b).1.v == b.v
  {
    PromoteValid(a);
    PromoteValid(b);
    WrapId(Promote(a).bits, Promote(a).signed, a.v);
    WrapId(Promote(b).bits, Promote(b).signed, b.v);
  }

  lemma HoldsOnCanon(p: Pred, a: int, b: int, w: nat, signed: bool)
    requires w > 1 && 0 <= a < Pow2(w) && 0 <= b < Pow2(w) && signed == !IsUnsignedPred(p)
    ensures var x, y := Wrap(w, signed, a), Wrap(w, signed, b);
            Holds(p, a, b, w) <==>
            match COp(p)
            case Eq => x == y
            case Ne => x != y
            case Lt => x < y
            case Le => x <= y
            case Gt => x > y
            case _ => x >= y
  {
    hide Pow2;
    WrapId(w, false, a);
    WrapId(w, false, b);
    WrapCong(w, signed, a);
    WrapCong(w, signed, b);
    DivModUnique(a, Pow2(w), 0, a);
    DivModUnique(b, Pow2(w), 0, b);
  }

  lemma LowerICmp(p: Pred, l: Operand, r: Operand, temps: Vars<Num>, pats: Vars<int>, tys: Vars<TypeName>, ptr: nat)
    requires Canonical(temps, pats, tys, ptr) && OperandsSized(ICmp(p, l, r), ptr) && WellTyped(ICmp(p, l, r), tys, ptr)
    ensures Stores(Emit(ICmp(p, l, r)), temps, BoolT, ptr, Meaning(ICmp(p, l, r), pats, ptr).value)
  {
    hide Canonical, Known, Emit, Meaning, CompareType, Stores, Pattern;
    if l.ty.PointerT? && r.ty.PointerT? && ptr == 32 {
      LowerNarrowPointers(p, l, r, temps, pats, tys, ptr);
    } else {
      LowerComparison(p, l, r, temps, pats, tys, ptr);
    }
  }

  /** 32-bit pointers are compared as 64-bit integers; either way of widening them
      keeps equality and the order of addresses. */
  lemma LowerNarrowPointers(p: Pred, l: Operand, r: Operand, temps: Vars<Num>, pats: Vars<int>, tys: Vars<TypeName>,
                            ptr: nat)
    requires Canonical(temps, pats, tys, ptr) && OperandsSized(ICmp(p, l, r), ptr) && WellTyped(ICmp(p, l, r), tys, ptr)
    requires l.ty.PointerT? && r.ty.PointerT? && ptr == 32
    ensures Stores(Emit(ICmp(p, l, r)), temps, BoolT, ptr, Meaning(ICmp(p, l, r), pats, ptr).value)
  {
    hide Apply, Canonical, Known, Pattern, Denote, Wrap, Cong, Eval, Holds, InRange;
    var x, a := GetFacts(l, temps, pats, tys, ptr);
    var y, b := GetFacts(r, temps, pats, tys, ptr);
    var ct := CompareType(p, l.ty, r.ty);
    var ext, s := l.ty.signExtends, !IsUnsignedPred(p);
    assert ct == IntT(64, s);
    EvalVar(l, temps, ptr);
    EvalVar(r, temps, ptr);
    var cx, cy := Num(64, s, Wrap(64, s, Wrap(32, ext, a))), Num(64, s, Wrap(64, s, Wrap(32, ext, b)));
    CastWide(l, x, s, temps, ptr);
    CastWide(r, y, s, temps, ptr);
    NullFacts(32);
    PointerNumber(l, x, a, temps, pats, ptr);
    PointerNumber(r, y, b, temps, pats, ptr);
    CompareApply(p, cx, cy);
    WidenedOrder(p, ext, a, b);
    EvalParenBin(COp(p), Cast(ct, Var(l.text)), Cast(ct, Var(r.text)), temps, ptr);
    BoolCanon(Holds(p, a, b, 32));
  }

  lemma PointerNumber(o: Operand, n: Num, a: int, temps: Vars<Num>, pats: Vars<int>, ptr: nat)
    requires ptr == 32 && o.ty.PointerT? && Facts(o, n, a, 32, ptr) && (IsVar(o.text) || IsNull(o))
    requires Denote(o.text, temps) == Some(n) && Pattern(o, pats, ptr) == a
    ensures n.v == Wrap(32, o.ty.signExtends, a)
  {
    NullFacts(32);
  }

  lemma CastWide(o: Operand, n: Num, s: bool, temps: Vars<Num>, ptr: nat)
    requires Eval(Var(o.text), temps, ptr) == Some(n)
    ensures Eval(Cast(IntT(64, s), Var(o.text)), temps, ptr) == Some(Num(64, s, Wrap(64, s, n.v)))
            && ValidNum(Num(64, s, Wrap(64, s, n.v)))
  {
    hide Denote, Wrap;
  }

  lemma WidenedOrder(p: Pred, ext: bool, a: int, b: int)
    requires 0 <= a < Pow2(32) && 0 <= b < Pow2(32) && !IsSignedPred(p)
    ensures var s := !IsUnsignedPred(p);
            var x, y := Wrap(64, s, Wrap(32, ext, a)), Wrap(64, s, Wrap(32, ext, b));
            Holds(p, a, b, 32) <==>
            match COp(p)
            case Eq => x == y
            case Ne => x != y
            case Lt => x < y
            case Le => x <= y
            case Gt => x > y
            case _ => x >= y
  {
    hide Pow2, Wrap;
    LiteralRange(64);
    Widened(!IsUnsignedPred(p), ext, a);
    Widened(!IsUnsignedPred(p), ext, b);
  }

  lemma Widened(s: bool, ext: bool, a: int)
    requires 0 <= a < Pow2(32)
    ensures Wrap(64, s, Wrap(32, ext, a)) ==
            if ext && a >= 0x8000_0000 then (if s then a - 0x1_0000_0000 else a + 0xffff_ffff_0000_0000) else a
  {
    hide Pow2, Wrap;
    LiteralRange(64);
    var v := if ext && a >= 0x8000_0000 then a - 0x1_0000_0000 else a;
    ModShift(a, -1, 0x1_0000_0000);
    WrapUnique(32, ext, a, v);
    ModShift(v, 1, 0x1_0000_0000_0000_0000);
    WrapUnique(64, s, v, if s || v >= 0 then v else v + 0x1_0000_0000_0000_0000);
  }

  lemma LowerComparison(p: Pred, l: Operand, r: Operand, temps: Vars<Num>, pats: Vars<int>, tys: Vars<TypeName>,
                        ptr: nat)
    requires Canonical(temps, pats, tys, ptr) && OperandsSized(ICmp(p, l, r), ptr) && WellTyped(ICmp(p, l, r), tys, ptr)
    requires !(l.ty.PointerT? && r.ty.PointerT? && ptr == 32)
    ensures Stores(Emit(ICmp(p, l, r)), temps, BoolT, ptr, Meaning(ICmp(p, l, r), pats, ptr).value)
  {
    hide Apply, Canonical, Known, Pattern, Denote, Wrap, Cong, Eval, CompareType, Holds, InRange, COp, IsUnsignedPred,
         Pow2, TextBits, ShowsUnsigned, ShowsSigned;
    var x, a := GetFacts(l, temps, pats, tys, ptr);
    var y, b := GetFacts(r, temps, pats, tys, ptr);
    var ct := CompareType(p, l.ty, r.ty);
    var w := Width(l.ty, ptr);
    EvalVar(l, temps, ptr);
    EvalVar(r, temps, ptr);
    CompareFacts(p, l.ty, r.ty, ptr);
    var cx, cy := Canon(ct, ptr, a), Canon(ct, ptr, b);
    if w == 1 {
      BoolCast(l, x, a, ct, temps, ptr);
      BoolCast(r, y, b, ct, temps, ptr);
      HoldsOnBits(p, a, b);
    } else {
      CastPattern(Var(l.text), x, a, w, ct, temps, ptr);
      CastPattern(Var(r.text), y, b, w, ct, temps, ptr);
      HoldsOnCanon(p, a, b, w, Signed(ct));
    }
    CompareApply(p, cx, cy);
    EvalParenBin(COp(p), Cast(ct, Var(l.text)), Cast(ct, Var(r.text)), temps, ptr);
    BoolCanon(Holds(p, a, b, w));
  }

  lemma BoolCast(o: Operand, n: Num, a: int, ct: TypeName, temps: Vars<Num>, ptr: nat)
    requires Eval(Var(o.text), temps, ptr) == Some(n) && n.v == a && 0 <= a < Pow2(1) && Width(ct, ptr) == 1
             && !Signed(ct)
    ensures Eval(Cast(ct, Var(o.text)), temps, ptr) == Some(Canon(ct, ptr, a)) && ValidNum(Canon(ct, ptr, a))
    ensures Wrap(1, false, a) == a
  {
    LiteralRange(1);
    BoolCanon(a == 1);
  }

  lemma HoldsOnBits(p: Pred, a: int, b: int)
    requires !IsSignedPred(p)
    ensures Holds(p, a, b, 1) <==>
            match COp(p)
            case Eq => a == b
            case Ne => a != b
            case Lt => a < b
            case Le => a <= b
            case Gt => a > b
            case _ => a >= b
  {
  }

  lemma PickStored(x: Num, y: Num, a: int, b: int, w: nat, signed: bool)
    requires ValidNum(x) && ValidNum(y) && 0 < w <= CommonBits(Promote(x), Promote(y))
    requires Cong(x.v, a, Pow2(w)) && Cong(y.v, b, Pow2(w))
    requires w == 1 ==> !signed && 0 <= x.v == a <= 1 && 0 <= y.v == b <= 1
    ensures Convert(w, signed, Balance(x, y).0.v) == Wrap(w, signed, a)
    ensures Convert(w, signed, Balance(x, y).1.v) == Wrap(w, signed, b)
  {
    hide Balance, Promote;
    if w == 1 {
      BalanceExact(x, y);
      BoolCanon(a == 1);
      BoolCanon(b == 1);
    } else {
      BalanceCong(x, y, w);
      StoreCong(Balance(x, y).0.v, a, w, signed);
      StoreCong(Balance(x, y).1.v, b, w, signed);
    }
  }

  lemma LowerSelect(c: Operand, l: Operand, r: Operand, temps: Vars<Num>, pats: Vars<int>, tys: Vars<TypeName>,
                    ptr: nat)
    requires Canonical(temps, pats, tys, ptr) && OperandsSized(Select(c, l, r), ptr)
             && WellTyped(Select(c, l, r), tys, ptr)
    ensures Stores(Emit(Select(c, l, r)), temps, l.ty, ptr, Meaning(Select(c, l, r), pats, ptr).value)
  {
    hide Balance, Canonical, Known, Pattern, Denote, Wrap, Cong, Eval, InRange, Convert;
    var z, k := GetFacts(c, temps, pats, tys, ptr);
    var x, a := GetFacts(l, temps, pats, tys, ptr);
    var y, b := GetFacts(r, temps, pats, tys, ptr);
    EvalVar(c, temps, ptr);
    EvalVar(l, temps, ptr);
    EvalVar(r, temps, ptr);
    TernaryChooses(Var(c.text), Var(l.text), Var(r.text), temps, ptr);
    LiteralRange(1);
    if WideEnough(l, r, ptr) {
      PickStored(x, y, a, b, Width(l.ty, ptr), Signed(l.ty));
    } else {
      NarrowFacts(l, temps, tys, ptr);
      NarrowFacts(r, temps, tys, ptr);
      NarrowPick(x, y, a, b, Width(l.ty, ptr), Signed(l.ty));
    }
  }

  // ----- one instruction, and a whole block -----

  /** Each emitted assignment leaves the canonical integer of the pattern the
      typeless operation computes. */
  lemma LowerInstr(i: Instr, temps: Vars<Num>, pats: Vars<int>, tys: Vars<TypeName>, ptr: nat)
    requires Canonical(temps, pats, tys, ptr) && OperandsSized(i, ptr) && WellTyped(i, tys, ptr)
    requires Meaning(i, pats, ptr).Some?
    ensures Stores(Emit(i), temps, ResultType(i), ptr, Meaning(i, pats, ptr).value)
  {
    hide Canonical, Known, Pattern, Denote, Wrap, Cong, Eval, InRange, Convert, Stores, BinaryMeaning, S, Balance,
         Apply, Holds;
    if i.Binary? {
      if IsDivision(i.op) {
        if i.op.ISDiv? || i.op.ISRem? {
          LowerSignedDivision(i.op, i.l, i.r, temps, pats, tys, ptr);
        } else {
          LowerUnsignedDivision(i.op, i.l, i.r, temps, pats, tys, ptr);
        }
      } else if Modular(i.op) {
        LowerModular(i.op, i.l, i.r, temps, pats, tys, ptr);
      } else {
        LowerShift(i.op, i.l, i.r, temps, pats, tys, ptr);
      }
    } else if i.Negate? || i.Not? {
      LowerUnary(i, temps, pats, tys, ptr);
    } else if i.Trunc? {
      LowerTrunc(i.v, i.ty, temps, pats, tys, ptr);
    } else if i.SExt? {
      LowerSExt(i.v, i.ty, temps, pats, tys, ptr);
    } else if i.ZExt? {
      LowerZExt(i.v, i.ty, temps, pats, tys, ptr);
    } else if i.IntCast? {
      LowerIntCast(i, temps, pats, tys, ptr);
    } else if i.ICmp? {
      LowerICmp(i.pred, i.l, i.r, temps, pats, tys, ptr);
    } else {
      LowerSelect(i.c, i.l, i.r, temps, pats, tys, ptr);
    }
  }

  /** Every instruction is typed in the context of the temporaries before it. */
  predicate BlockOk(block: seq<Instr>, tys: Vars<TypeName>, ptr: nat) {
    block == [] ||
    (OperandsSized(block[0], ptr) && WellTyped(block[0], tys, ptr) && Sized(ResultType(block[0]), ptr) &&
     BlockOk(block[1..], Push(tys, ResultType(block[0])), ptr))
  }

  /** The typeless run: one pattern per instruction. */
  function RunMeaning(block: seq<Instr>, pats: Vars<int>, ptr: nat): Option<Vars<int>>
    requires forall i | i in block :: OperandsSized(i, ptr)
  {
    if block == [] then Some(pats)
    else
      match Meaning(block[0], pats, ptr)
      case None => None
      case Some(a) => RunMeaning(block[1..], Push(pats, a), ptr)
  }

  /** The emitted run: print each expression, execute the text, store the result in
      a temporary of the declared type. */
  function RunText(block: seq<Instr>, temps: Vars<Num>, ptr: nat): Option<Vars<Num>>
    requires forall i | i in block :: Width(ResultType(i), ptr) > 0
  {
    if block == [] then Some(temps)
    else
      var ty := ResultType(block[0]);
      match Execute(Print(Emit(block[0])), temps, ptr)
      case None => None
      case Some(n) =>
        RunText(block[1..], Push(temps, Num(Width(ty, ptr), Signed(ty), Convert(Width(ty, ptr), Signed(ty), n.v))), ptr)
  }

  lemma BinaryFits(op: IntOp, a: int, b: int, w: nat)
    requires w > 0 && BinaryMeaning(op, a, b, w).Some?
    ensures 0 <= BinaryMeaning(op, a, b, w).value < Pow2(w)
  {
    hide Pow2, Wrap, TruncDiv, TruncRem, S;
  }

  lemma MeaningFits(i: Instr, temps: Vars<Num>, pats: Vars<int>, tys: Vars<TypeName>, ptr: nat)
    requires Canonical(temps, pats, tys, ptr) && OperandsSized(i, ptr) && WellTyped(i, tys, ptr)
    requires Meaning(i, pats, ptr).Some?
    ensures 0 <= Meaning(i, pats, ptr).value < Pow2(Width(ResultType(i), ptr))
  {
    hide Canonical, Known, Pattern, Wrap, S, Holds, BinaryMeaning, Cong, InRange, Width, Pow2;
    LiteralRange(1);
    if i.Binary? {
      BinaryFits(i.op, Pattern(i.l, pats, ptr), Pattern(i.r, pats, ptr), Width(i.l.ty, ptr));
    } else if i.Not? {
      var _, _ := GetFacts(i.v, temps, pats, tys, ptr);
    } else if i.Select? {
      var _, _ := GetFacts(i.l, temps, pats, tys, ptr);
      var _, _ := GetFacts(i.r, temps, pats, tys, ptr);
    } else if i.ICmp? {
      assert Width(BoolT, ptr) == 1 by { BoolWidth(ptr); }
    }
  }

  lemma BoolWidth(ptr: nat)
    ensures Width(BoolT, ptr) == 1
  {
  }

  /** Main result: on every well-typed block whose typeless operations are all
      defined, executing the emitted text leaves in every temporary the canonical
      integer of the typeless pattern. */
  lemma {:induction false} LoweringPreservesPatterns(block: seq<Instr>, temps: Vars<Num>, pats: Vars<int>,
                                                     tys: Vars<TypeName>, ptr: nat)
    returns (all: Vars<TypeName>)
    requires Canonical(temps, pats, tys, ptr) && BlockOk(block, tys, ptr)
    requires forall i | i in block :: OperandsSized(i, ptr) && Width(ResultType(i), ptr) > 0
    requires RunMeaning(block, pats, ptr).Some?
    ensures RunText(block, temps, ptr).Some?
    ensures Canonical(RunText(block, temps, ptr).value, RunMeaning(block, pats, ptr).value, all, ptr)
    ensures all == Vars(tys.params, tys.temps + seq(|block|, k requires 0 <= k < |block| => ResultType(block[k])))
    decreases block
  {
    hide Canonical, Meaning, Emit, Execute, Wrap, Convert, Pow2;
    all := tys;
    if block != [] {
      var i := block[0];
      var ty := ResultType(i);
      var a := Meaning(i, pats, ptr).value;
      StoreOne(i, temps, pats, tys, ptr);
      var n := Canon(ty, ptr, a);
      CanonicalExtend(temps, pats, tys, n, a, ty, ptr);
      all := LoweringPreservesPatterns(block[1..], Push(temps, n), Push(pats, a), Push(tys, ty), ptr);
    }
  }

  lemma StoreOne(i: Instr, temps: Vars<Num>, pats: Vars<int>, tys: Vars<TypeName>, ptr: nat)
    requires Canonical(temps, pats, tys, ptr) && OperandsSized(i, ptr) && WellTyped(i, tys, ptr)
    requires Meaning(i, pats, ptr).Some? && Sized(ResultType(i), ptr)
    ensures var ty, a := ResultType(i), Meaning(i, pats, ptr).value;
            var n := Execute(Print(Emit(i)), temps, ptr);
            && n.Some? && 0 <= a < Pow2(Width(ty, ptr))
            && Num(Width(ty, ptr), Signed(ty), Convert(Width(ty, ptr), Signed(ty), n.value.v)) == Canon(ty, ptr, a)
  {
    hide Canonical, WellTyped, Meaning, Emit, Execute, Eval, Wrap, Convert;
    LowerInstr(i, temps, pats, tys, ptr);
    MeaningFits(i, temps, pats, tys, ptr);
    EmitShaped(i);
    ExecutePrinted(Emit(i), temps, ptr);
  }

  lemma CanonicalExtend(temps: Vars<Num>, pats: Vars<int>, tys: Vars<TypeName>, n: Num, a: int, ty: TypeName, ptr: nat)
    requires Canonical(temps, pats, tys, ptr) && Sized(ty, ptr) && 0 <= a < Pow2(Width(ty, ptr))
             && n == Canon(ty, ptr, a)
    ensures Canonical(Push(temps, n), Push(pats, a), Push(tys, ty), ptr)
  {
    hide Canon;
  }
}
