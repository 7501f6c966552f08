/** Meaning of integer C expressions under promotions, the usual arithmetic
    conversions (sections 6.3.1.1, 6.3.1.3 and 6.3.1.8 of C11) and -fwrapv. */
module CSemantics {
  import opened Wrappers
  import opened IntMath
  import opened CSyntax

  /** A value of integer type; _Bool is the one-bit unsigned type. */
  datatype Num = Num(bits: nat, signed: bool, v: int)

  ghost predicate ValidNum(n: Num) {
    n.bits > 0 && InRange(n.bits, n.signed, n.v)
  }

  /** Width and signedness a type name renders to; `ptr` is the pointer width.
      Widths without a C type are rounded up. */
  function Width(ty: TypeName, ptr: nat): nat {
    match ty
    case BoolT => 1
    case IntT(bits, _) => if bits == 1 then 1 else if bits <= 8 then 8 else if bits <= 16 then 16
      else if bits <= 32 then 32 else if bits <= 64 then 64 else 128
    case PtrWidthT(_) => ptr
    case PointerT(_) => ptr
    case FloatT(_) => 0
    case OtherT(_) => 0
  }

  function Signed(ty: TypeName): bool {
    match ty
    case IntT(bits, signed) => signed && bits != 1
    case PtrWidthT(signed) => signed
    case PointerT(signExtends) => signExtends
    case _ => false
  }

  /** Conversion to an integer type; to _Bool it tests for zero. */
  function Convert(bits: nat, signed: bool, v: int): int
    requires bits > 0
  {
    if bits == 1 then (if v != 0 then 1 else 0) else Wrap(bits, signed, v)
  }

  function Promote(n: Num): Num {
    if n.bits < 32 then Num(32, true, n.v) else n
  }

  function CommonBits(a: Num, b: Num): nat {
    if a.bits >= b.bits then a.bits else b.bits
  }

  function CommonSigned(a: Num, b: Num): bool {
    if a.bits == b.bits then a.signed && b.signed else if a.bits > b.bits then a.signed else b.signed
  }

  /** Both operands converted to their common type. */
  function Balance(a: Num, b: Num): (Num, Num) {
    var x, y := Promote(a), Promote(b);
    var bits, signed := CommonBits(x, y), CommonSigned(x, y);
    (Num(bits, signed, Wrap(bits, signed, x.v)), Num(bits, signed, Wrap(bits, signed, y.v)))
  }

  /** C division truncates toward zero. */
  function TruncDiv(a: int, b: int): int
    requires b != 0
  {
    if a >= 0 then (if b > 0 then a / b else -(a / -b)) else (if b > 0 then -(-a / b) else -a / -b)
  }

  function TruncRem(a: int, b: int): int
    requires b != 0
  {
    a - b * TruncDiv(a, b)
  }

  function Abs(n: int): int { if n < 0 then -n else n }

  /** Truncating division divides the magnitudes; its remainder is smaller than the
      divisor and takes the dividend's sign (section 6.5.5 of C11). */
  lemma TruncatingDivision(n: int, d: int)
    requires d != 0
    ensures var q, r := TruncDiv(n, d), TruncRem(n, d);
            && n == q * d + r && Abs(r) < Abs(d) && (r == 0 || (r < 0 <==> n < 0))
            && q == (if (n < 0) != (d < 0) then -(Abs(n) / Abs(d)) else Abs(n) / Abs(d))
            && r == (if n < 0 then -(Abs(n) % Abs(d)) else Abs(n) % Abs(d))
  {
    var q := Abs(n) / Abs(d);
    var r := Abs(n) % Abs(d);
    assert Abs(n) == q * Abs(d) + r;
    assert (-q) * d == -(q * d) && q * (-d) == -(q * d);
    assert Abs(d) == d || Abs(d) == -d;
    assert d * TruncDiv(n, d) == TruncDiv(n, d) * d;
  }

  function GateOf(op: BinOp): Gate {
    match op
    case BitAnd => And()
    case BitOr => Or()
    case _ => Xor()
  }

  /** v reduced to the type of x, as -fwrapv defines. */
  function InType(x: Num, v: int): Num
    requires x.bits > 0
  {
    Num(x.bits, x.signed, Wrap(x.bits, x.signed, v))
  }

  function Truth(b: bool): Num { Num(32, true, if b then 1 else 0) }

  function Apply(op: BinOp, a: Num, b: Num): Option<Num> {
    if op.Shl? || op.Shr? then
      var x, s := Promote(a), Promote(b).v;
      if !(0 <= s < x.bits) then None
      else if op.Shl? then Some(Num(x.bits, x.signed, Wrap(x.bits, x.signed, x.v * Pow2(s))))
      else Some(Num(x.bits, x.signed, x.v / Pow2(s)))
    else if op.LogAnd? then Some(Truth(a.v != 0 && b.v != 0))
    else if op.LogOr? then Some(Truth(a.v != 0 || b.v != 0))
    else
      var (x, y) := Balance(a, b);
      match op
      case Add => Some(InType(x, x.v + y.v))
      case Sub => Some(InType(x, x.v - y.v))
      case Mul => Some(InType(x, x.v * y.v))
      case Div => if y.v == 0 || (x.signed && x.v == -Pow2(x.bits - 1) && y.v == -1) then None
        else Some(InType(x, TruncDiv(x.v, y.v)))
      case Rem => if y.v == 0 || (x.signed && x.v == -Pow2(x.bits - 1) && y.v == -1) then None
        else Some(InType(x, TruncRem(x.v, y.v)))
      case Eq => Some(Truth(x.v == y.v))
      case Ne => Some(Truth(x.v != y.v))
      case Lt => Some(Truth(x.v < y.v))
      case Le => Some(Truth(x.v <= y.v))
      case Gt => Some(Truth(x.v > y.v))
      case Ge => Some(Truth(x.v >= y.v))
      case _ => Some(InType(x, BitOp(GateOf(op), x.v, y.v, x.bits)))
  }

  function ApplyUnary(op: UnOp, a: Num): Num {
    var x := Promote(a);
    match op
    case Neg => Num(x.bits, x.signed, Wrap(x.bits, x.signed, -x.v))
    case BitNot => Num(x.bits, x.signed, Wrap(x.bits, x.signed, BitOp(NotLeft(), x.v, 0, x.bits)))
    case LogNot => Truth(x.v == 0)
  }

  const U64_MAX: int := 0xffff_ffff_ffff_ffff

  /** One entry for each parameter and each temporary of the function. */
  datatype Vars<+T> = Vars(params: seq<T>, temps: seq<T>)

  function Lookup<T>(t: Text, vs: Vars<T>): Option<T> {
    match t
    case Temp(id) => if id < |vs.temps| then Some(vs.temps[id]) else None
    case Param(k) => if k < |vs.params| then Some(vs.params[k]) else None
    case _ => None
  }

  function Push<T>(vs: Vars<T>, x: T): Vars<T> { vs.(temps := vs.temps + [x]) }

  /** What a rendered operand denotes: variables hold their declared type, but a
      constant has the type of its literal, whatever the value's own type; a plain
      decimal in raw text is an int. */
  function Denote(t: Text, temps: Vars<Num>): Option<Num> {
    match t
    case Temp(_) => Lookup(t, temps)
    case Param(_) => Lookup(t, temps)
    case IntText(i) => Some(Num(if I64_MIN <= i <= I64_MAX then 64 else 128, true, i))
    case UintText(u) => Some(Num(if u <= U64_MAX then 64 else 128, false, u))
    case BoolText(b) => Some(Truth(b))
    case DecimalText(d) => Some(Num(32, true, d))
    case _ => None
  }

  // ----- types, which do not depend on values -----

  datatype Kind = Kind(bits: nat, signed: bool)

  function KindOf(n: Num): Kind { Kind(n.bits, n.signed) }

  function PromotedKind(k: Kind): Kind { if k.bits < 32 then Kind(32, true) else k }

  function CommonKind(a: Kind, b: Kind): Kind {
    var x, y := PromotedKind(a), PromotedKind(b);
    Kind(if x.bits >= y.bits then x.bits else y.bits,
         if x.bits == y.bits then x.signed && y.signed else if x.bits > y.bits then x.signed else y.signed)
  }

  function UnaryKind(op: UnOp, k: Option<Kind>): Option<Kind> {
    if k.None? then None else if op.LogNot? then Some(Kind(32, true)) else Some(PromotedKind(k.value))
  }

  function BinaryKind(op: BinOp, a: Option<Kind>, b: Option<Kind>): Option<Kind> {
    if a.None? then None
    else if op.LogAnd? || op.LogOr? then Some(Kind(32, true))
    else if b.None? then None
    else if op.Shl? || op.Shr? then Some(PromotedKind(a.value))
    else if op.Eq? || op.Ne? || op.Lt? || op.Le? || op.Gt? || op.Ge? then Some(Kind(32, true))
    else Some(CommonKind(a.value, b.value))
  }

  function CastKind(ty: TypeName, k: Option<Kind>, ptr: nat): Option<Kind> {
    if k.None? || Width(ty, ptr) == 0 then None else Some(Kind(Width(ty, ptr), Signed(ty)))
  }

  function ArmsKind(c: Option<Kind>, a: Option<Kind>, b: Option<Kind>): Option<Kind> {
    if c.None? || a.None? || b.None? then None else Some(CommonKind(a.value, b.value))
  }

  function LeafKind(t: Text, temps: Vars<Num>): Option<Kind> {
    match Denote(t, temps)
    case None => None
    case Some(n) => Some(KindOf(n))
  }

  function TypeOf(e: CExpr, temps: Vars<Num>, ptr: nat): Option<Kind> {
    match e
    case Var(t) => LeafKind(t, temps)
    case Lit(t) => LeafKind(t, temps)
    case Paren(x) => TypeOf(x, temps, ptr)
    case Cast(ty, x) => CastKind(ty, TypeOf(x, temps, ptr), ptr)
    case Un(op, x) => UnaryKind(op, TypeOf(x, temps, ptr))
    case Bin(l, op, r) => BinaryKind(op, TypeOf(l, temps, ptr), TypeOf(r, temps, ptr))
    case Ternary(c, t, f) => ArmsKind(TypeOf(c, temps, ptr), TypeOf(t, temps, ptr), TypeOf(f, temps, ptr))
    case _ => None
  }

  function UnOpOf(p: Punct): Option<UnOp> {
    match p
    case Minus => Some(Neg)
    case Tilde => Some(BitNot)
    case Bang => Some(LogNot)
    case _ => None
  }

  function TypeOfTree(t: Tree, temps: Vars<Num>, ptr: nat): Option<Kind> {
    match t
    case Leaf(x) => LeafKind(x, temps)
    case ParenT(x) => TypeOfTree(x, temps, ptr)
    case CastT(ty, x) => CastKind(ty, TypeOfTree(x, temps, ptr), ptr)
    case UnT(p, x) => if UnOpOf(p).None? then None else UnaryKind(UnOpOf(p).value, TypeOfTree(x, temps, ptr))
    case BinT(op, l, r) => BinaryKind(op, TypeOfTree(l, temps, ptr), TypeOfTree(r, temps, ptr))
    case CondT(c, e, f) => ArmsKind(TypeOfTree(c, temps, ptr), TypeOfTree(e, temps, ptr), TypeOfTree(f, temps, ptr))
    case _ => None
  }

  // ----- evaluation -----

  /** Only the chosen arm is evaluated; it is converted to the common type of both
      (section 6.5.15 of C11). */
  function Conditional(c: Option<Num>, a: Option<Num>, b: Option<Num>, k: Option<Kind>): Option<Num> {
    if c.None? || k.None? || k.value.bits == 0 then None
    else
      var chosen := if c.value.v != 0 then a else b;
      if chosen.None? then None
      else Some(Num(k.value.bits, k.value.signed, Wrap(k.value.bits, k.value.signed, chosen.value.v)))
  }

  /** The right operand of `&&` and `||` is evaluated only if the left one does not
      decide. */
  function Combine(op: BinOp, a: Option<Num>, b: Option<Num>): Option<Num> {
    if a.None? then None
    else if (op.LogAnd? && a.value.v == 0) || (op.LogOr? && a.value.v != 0) then Some(Truth(op.LogOr?))
    else if b.None? then None
    else Apply(op, a.value, b.value)
  }

  /** None is undefined behaviour or a construct outside integer arithmetic. */
  function Eval(e: CExpr, temps: Vars<Num>, ptr: nat): Option<Num> {
    match e
    case Var(t) => Denote(t, temps)
    case Lit(t) => Denote(t, temps)
    case Paren(x) => Eval(x, temps, ptr)
    case Cast(ty, x) =>
      (match Eval(x, temps, ptr)
       case None => None
       case Some(n) =>
         if Width(ty, ptr) == 0 then None
         else Some(Num(Width(ty, ptr), Signed(ty), Convert(Width(ty, ptr), Signed(ty), n.v))))
    case Un(op, x) =>
      (match Eval(x, temps, ptr)
       case None => None
       case Some(n) => Some(ApplyUnary(op, n)))
    case Bin(l, op, r) =>
      Combine(op, Eval(l, temps, ptr), Eval(r, temps, ptr))
    case Ternary(c, t, f) =>
      Conditional(Eval(c, temps, ptr), Eval(t, temps, ptr), Eval(f, temps, ptr), TypeOf(e, temps, ptr))
    case _ => None
  }

  /** The same meaning, on parse trees. */
  function EvalTree(t: Tree, temps: Vars<Num>, ptr: nat): Option<Num> {
    match t
    case Leaf(x) => Denote(x, temps)
    case ParenT(x) => EvalTree(x, temps, ptr)
    case CastT(ty, x) =>
      (match EvalTree(x, temps, ptr)
       case None => None
       case Some(n) =>
         if Width(ty, ptr) == 0 then None
         else Some(Num(Width(ty, ptr), Signed(ty), Convert(Width(ty, ptr), Signed(ty), n.v))))
    case UnT(p, x) =>
      (match EvalTree(x, temps, ptr)
       case None => None
       case Some(n) =>
         if UnOpOf(p).None? then None else Some(ApplyUnary(UnOpOf(p).value, n)))
    case BinT(op, l, r) =>
      Combine(op, EvalTree(l, temps, ptr), EvalTree(r, temps, ptr))
    case CondT(c, e, f) =>
      Conditional(EvalTree(c, temps, ptr), EvalTree(e, temps, ptr), EvalTree(f, temps, ptr), TypeOfTree(t, temps, ptr))
    case _ => None
  }

  lemma CombineApplies(op: BinOp, a: Num, b: Num)
    ensures Combine(op, Some(a), Some(b)) == Apply(op, a, b)
  {
    hide Balance, Promote, Wrap, Pow2;
  }

  /** Running the text of an expression: read it, then evaluate what was read. */
  function Execute(text: seq<Token>, temps: Vars<Num>, ptr: nat): Option<Num> {
    match ReadExpr(text)
    case Error => None
    case Got(t, rest) => if rest == [] then EvalTree(t, temps, ptr) else None
  }

  lemma {:induction false} TypeOfReading(e: CExpr, temps: Vars<Num>, ptr: nat)
    ensures TypeOfTree(Reading(e), temps, ptr) == TypeOf(e, temps, ptr)
  {
    hide LeafKind, CastKind, UnaryKind, BinaryKind, ArmsKind;
    if e.Paren? || e.Cast? || e.Un? {
      TypeOfReading(e.e, temps, ptr);
    } else if e.Bin? {
      TypeOfReading(e.left, temps, ptr);
      TypeOfReading(e.right, temps, ptr);
    } else if e.Ternary? {
      TypeOfReading(e.cond, temps, ptr);
      TypeOfReading(e.yes, temps, ptr);
      TypeOfReading(e.no, temps, ptr);
    }
  }

  lemma {:induction false} EvalReading(e: CExpr, temps: Vars<Num>, ptr: nat)
    ensures EvalTree(Reading(e), temps, ptr) == Eval(e, temps, ptr)
  {
    hide Conditional, Combine, ApplyUnary, Denote, Convert, Width, Signed, TypeOf, TypeOfTree;
    TypeOfReading(e, temps, ptr);
    if e.Paren? || e.Cast? || e.Un? {
      EvalReading(e.e, temps, ptr);
    } else if e.Bin? {
      EvalReading(e.left, temps, ptr);
      EvalReading(e.right, temps, ptr);
    } else if e.Ternary? {
      EvalReading(e.cond, temps, ptr);
      EvalReading(e.yes, temps, ptr);
      EvalReading(e.no, temps, ptr);
    }
  }

  /** The type found without evaluating is the type of the value. */
  lemma {:induction false} TypeOfValue(e: CExpr, temps: Vars<Num>, ptr: nat)
    requires Eval(e, temps, ptr).Some?
    ensures TypeOf(e, temps, ptr) == Some(KindOf(Eval(e, temps, ptr).value))
  {
    hide Apply, ApplyUnary, Denote, Convert, Width, Signed, ArmsKind, UnaryKind, BinaryKind;
    if e.Paren? || e.Cast? {
      TypeOfValue(e.e, temps, ptr);
    } else if e.Un? {
      TypeOfValue(e.e, temps, ptr);
      UnaryType(e.uop, Eval(e.e, temps, ptr).value);
    } else if e.Bin? {
      TypeOfValue(e.left, temps, ptr);
      if Eval(e.right, temps, ptr).Some? { TypeOfValue(e.right, temps, ptr); }
      CombinedType(e.op, Eval(e.left, temps, ptr), Eval(e.right, temps, ptr), TypeOf(e.right, temps, ptr));
    }
  }

  lemma UnaryType(op: UnOp, n: Num)
    ensures UnaryKind(op, Some(KindOf(n))) == Some(KindOf(ApplyUnary(op, n)))
  {
    hide Wrap, BitOp;
  }

  lemma CombinedType(op: BinOp, a: Option<Num>, b: Option<Num>, k: Option<Kind>)
    requires Combine(op, a, b).Some? && (b.Some? ==> k == Some(KindOf(b.value)))
    ensures BinaryKind(op, Some(KindOf(a.value)), k) == Some(KindOf(Combine(op, a, b).value))
  {
    hide Apply, CommonKind;
    if !(op.LogAnd? || op.LogOr?) {
      AppliedType(op, a.value, b.value);
    } else if b.Some? {
      LogicalType(op, a.value, b.value);
    }
  }

  lemma LogicalType(op: BinOp, a: Num, b: Num)
    requires op.LogAnd? || op.LogOr?
    ensures Apply(op, a, b).Some? && KindOf(Apply(op, a, b).value) == Kind(32, true)
  {
  }

  lemma AppliedType(op: BinOp, a: Num, b: Num)
    requires Apply(op, a, b).Some?
    ensures BinaryKind(op, Some(KindOf(a)), Some(KindOf(b))) == Some(KindOf(Apply(op, a, b).value))
  {
    hide Wrap, BitOp, TruncDiv, TruncRem, Pow2;
  }

  /** With all three values known, the conditional is one side of the balanced pair. */
  lemma ConditionalBalances(c: Num, a: Num, b: Num)
    ensures Conditional(Some(c), Some(a), Some(b), Some(CommonKind(KindOf(a), KindOf(b))))
            == Some(if c.v != 0 then Balance(a, b).0 else Balance(a, b).1)
  {
    hide Wrap;
  }

  lemma TernaryUnfolds(c: CExpr, e: CExpr, f: CExpr, temps: Vars<Num>, ptr: nat)
    ensures Eval(Ternary(c, e, f), temps, ptr)
            == Conditional(Eval(c, temps, ptr), Eval(e, temps, ptr), Eval(f, temps, ptr),
                           ArmsKind(TypeOf(c, temps, ptr), TypeOf(e, temps, ptr), TypeOf(f, temps, ptr)))
  {
    hide Conditional, Combine, ApplyUnary, Denote, Convert, Width, Signed, ArmsKind, BinaryKind, UnaryKind, CastKind,
         LeafKind;
  }

  lemma TernaryChooses(c: CExpr, e: CExpr, f: CExpr, temps: Vars<Num>, ptr: nat)
    requires Eval(c, temps, ptr).Some? && Eval(e, temps, ptr).Some? && Eval(f, temps, ptr).Some?
    ensures var b := Balance(Eval(e, temps, ptr).value, Eval(f, temps, ptr).value);
            Eval(Ternary(c, e, f), temps, ptr) == Some(if Eval(c, temps, ptr).value.v != 0 then b.0 else b.1)
  {
    hide Eval, TypeOf, Conditional, Balance, CommonKind;
    TernaryUnfolds(c, e, f, temps, ptr);
    TypeOfValue(c, temps, ptr);
    TypeOfValue(e, temps, ptr);
    TypeOfValue(f, temps, ptr);
    ConditionalBalances(Eval(c, temps, ptr).value, Eval(e, temps, ptr).value, Eval(f, temps, ptr).value);
  }

  /** A conditional read without parentheses around its parts means the same. */
  lemma CondTreeChooses(c: CExpr, a: CExpr, b: CExpr, temps: Vars<Num>, ptr: nat)
    ensures EvalTree(CondT(Reading(c), Reading(a), Reading(b)), temps, ptr) == Eval(Ternary(c, a, b), temps, ptr)
  {
    hide Eval, EvalTree;
    EvalReading(Ternary(c, a, b), temps, ptr);
    ParenthesesIgnored(Reading(c), Reading(a), Reading(b), temps, ptr);
  }

  lemma ParenthesesIgnored(c: Tree, a: Tree, b: Tree, temps: Vars<Num>, ptr: nat)
    ensures EvalTree(CondT(ParenT(c), ParenT(a), ParenT(b)), temps, ptr) == EvalTree(CondT(c, a, b), temps, ptr)
  {
    hide Conditional, Combine, ApplyUnary, Denote, Convert, Width, Signed, ArmsKind, BinaryKind, UnaryKind, CastKind,
         LeafKind;
    assert TypeOfTree(CondT(ParenT(c), ParenT(a), ParenT(b)), temps, ptr) == TypeOfTree(CondT(c, a, b), temps, ptr);
  }

  /** The text of a well-shaped expression has the value of the expression, or none
      where the expression has none. */
  lemma ExecutePrinted(e: CExpr, temps: Vars<Num>, ptr: nat)
    requires Shaped(e)
    ensures Execute(Print(e), temps, ptr) == Eval(e, temps, ptr)
  {
    PrintThenRead(e);
    EvalReading(e, temps, ptr);
  }

  // ----- what conversions keep -----

  /** x and the operands behind it agree modulo 2^w. */
  lemma BalanceCong(a: Num, b: Num, w: nat)
    requires 0 < w && w <= CommonBits(Promote(a), Promote(b))
    ensures var (x, y) := Balance(a, b);
            && x.bits == y.bits == CommonBits(Promote(a), Promote(b)) && x.signed == y.signed && x.bits >= 32
            && Cong(x.v, a.v, Pow2(w)) && Cong(y.v, b.v, Pow2(w)) && ValidNum(x) && ValidNum(y)
  {
    var (x, y) := Balance(a, b);
    WrapCongNarrow(x.bits, x.signed, a.v, w);
    WrapCongNarrow(x.bits, x.signed, b.v, w);
  }

  lemma InRangeWider(bits: nat, signed: bool, v: int, bits': nat, signed': bool)
    requires 0 < bits && InRange(bits, signed, v)
    requires if signed == signed' then bits <= bits' else !signed && bits < bits'
    ensures InRange(bits', signed', v)
  {
    Pow2Monotone(bits, bits');
    Pow2Monotone(bits - 1, bits' - 1);
    if signed != signed' { Pow2Monotone(bits, bits' - 1); }
  }

  lemma PromoteValid(n: Num)
    requires ValidNum(n)
    ensures ValidNum(Promote(n)) && Promote(n).v == n.v && Promote(n).bits >= 32
  {
    if n.bits < 32 { InRangeWider(n.bits, n.signed, n.v, 32, true); }
  }

  /** Balancing keeps both values when the common type can hold them: operands
      both nonnegative, or both of signed type. */
  lemma BalanceExact(a: Num, b: Num)
    requires ValidNum(a) && ValidNum(b)
    requires (a.v >= 0 && b.v >= 0) || (Promote(a).signed && Promote(b).signed)
    ensures Balance(a, b).0.v == a.v && Balance(a, b).1.v == b.v
  {
    PromoteValid(a);
    PromoteValid(b);
    var x, y := Promote(a), Promote(b);
    var bits, signed := CommonBits(x, y), CommonSigned(x, y);
    FitsCommon(x, bits, signed);
    FitsCommon(y, bits, signed);
    WrapId(bits, signed, x.v);
    WrapId(bits, signed, y.v);
  }

  lemma FitsCommon(x: Num, bits: nat, signed: bool)
    requires ValidNum(x) && x.bits <= bits
    requires signed && !x.signed ==> x.bits < bits
    requires !signed && x.signed ==> x.v >= 0
    ensures InRange(bits, signed, x.v)
  {
    if !signed && x.signed {
      Pow2Monotone(x.bits, bits);
    } else {
      InRangeWider(x.bits, x.signed, x.v, bits, signed);
    }
  }
}
