/** The values of the builder's address arithmetic and floating-point expressions:
    their texts, read and evaluated with sizes and floats. */
module BuilderValues {
  import opened Wrappers
  import opened IntMath
  import opened CSyntax
  import opened CSemantics
  import opened BuilderShapes

  // ----- floating-point values -----

  /** A value of any binary floating-point type. */
  datatype Flt = NaN | Infinite(negative: bool) | Finite(r: real)

  predicate Below(x: Flt, y: Flt) {
    match x
    case NaN => false
    case Infinite(neg) => neg && !y.NaN? && y != Infinite(true)
    case Finite(a) => (y.Infinite? && !y.negative) || (y.Finite? && a < y.r)
  }

  /** Equality is false on NaN. */
  predicate Same(x: Flt, y: Flt) {
    !x.NaN? && x == y
  }

  /** Comparison operators of IEC 60559. */
  predicate Compares(op: BinOp, x: Flt, y: Flt) {
    match op
    case Eq => Same(x, y)
    case Ne => !Same(x, y)
    case Lt => Below(x, y)
    case Le => Below(x, y) || Same(x, y)
    case Gt => Below(y, x)
    case Ge => Below(y, x) || Same(x, y)
    case _ => false
  }

  /** The spacing of doubles at n: the least power of two with n / u below 2^53. */
  function Spacing(n: nat): (u: nat)
    ensures u > 0
  {
    if n < 0x20_0000_0000_0000 then 1 else 2 * Spacing(n / 2)
  }

  /** Rounding to the nearest double, ties to even. */
  function Nearest(n: nat): int {
    var u := Spacing(n);
    var q, r := n / u, n % u;
    if 2 * r < u || (2 * r == u && q % 2 == 0) then q * u else (q + 1) * u
  }

  /** The rounded value is a multiple of the spacing within half of it, and an even
      one where two are as near. */
  lemma NearestRounds(n: nat) returns (k: int)
    ensures Nearest(n) == k * Spacing(n)
    ensures 2 * Abs(Nearest(n) - n) <= Spacing(n)
    ensures 2 * Abs(Nearest(n) - n) == Spacing(n) ==> k % 2 == 0
  {
    hide Spacing;
    var u := Spacing(n);
    var q, r := n / u, n % u;
    assert n == q * u + r;
    assert (q + 1) * u == q * u + u;
    k := if 2 * r < u || (2 * r == u && q % 2 == 0) then q else q + 1;
  }

  lemma {:induction false} SpacingIsLeast(n: nat)
    ensures n / Spacing(n) < 0x20_0000_0000_0000
    ensures Spacing(n) == 1 || (Spacing(n) % 2 == 0 && n / (Spacing(n) / 2) >= 0x20_0000_0000_0000)
    decreases n
  {
    if n >= 0x20_0000_0000_0000 {
      var s := Spacing(n / 2);
      SpacingIsLeast(n / 2);
      DivDiv(n, 2, s);
      if s > 1 { DivDiv(n, 2, s / 2); }
    }
  }

  function NearestDouble(n: int): int {
    if n >= 0 then Nearest(n) else -Nearest(-n)
  }

  /** Conversion to an integer discards the fraction. */
  function Truncated(r: real): int {
    if r >= 0.0 then r.Floor else -((-r).Floor)
  }

  // ----- evaluation -----

  datatype Val = I(n: Num) | F(x: Flt)

  /** Values of the opaque texts, sizes of the types, and the pointer width. */
  datatype Context = Context(env: map<Text, Val>, sizes: map<TypeName, nat>, ptr: nat)

  function NumOf(v: Option<Val>): Option<Num> {
    if v.Some? && v.value.I? then Some(v.value.n) else None
  }

  function AsVal(n: Option<Num>): Option<Val> {
    if n.None? then None else Some(I(n.value))
  }

  /** Undefined where an integer type does not hold the truncated value. */
  function Converted(ty: TypeName, v: Val, ptr: nat): Option<Val> {
    var w := Width(ty, ptr);
    if ty.FloatT? then (if ty.bits == 64 && v.I? then Some(F(Finite(NearestDouble(v.n.v) as real))) else None)
    else if w == 0 then None
    else if v.I? then Some(I(Num(w, Signed(ty), Convert(w, Signed(ty), v.n.v))))
    else if !v.x.Finite? || !InRange(w, Signed(ty), Truncated(v.x.r)) then None
    else Some(I(Num(w, Signed(ty), Truncated(v.x.r))))
  }

  function Binary(op: BinOp, a: Option<Val>, b: Option<Val>): Option<Val> {
    if a.Some? && a.value.F? then
      if b.Some? && b.value.F? && Prec(op) in {6, 7} then Some(I(Truth(Compares(op, a.value.x, b.value.x)))) else None
    else AsVal(Combine(op, NumOf(a), NumOf(b)))
  }

  function Literal(t: Text): Option<Val> {
    match t
    case RealText(r) => Some(F(Finite(NearestDouble(r) as real)))
    case _ => AsVal(Denote(t, Vars([], [])))
  }

  function LeafVal(t: Text, cx: Context): Option<Val> {
    if t in cx.env then Some(cx.env[t]) else Literal(t)
  }

  /** The integer type of an expression, which needs no evaluation. */
  function KindIn(t: Tree, cx: Context): Option<Kind> {
    match t
    case Leaf(x) => (match NumOf(LeafVal(x, cx)) case None => None case Some(n) => Some(KindOf(n)))
    case ParenT(x) => KindIn(x, cx)
    case CastT(ty, _) => if Width(ty, cx.ptr) == 0 then None else Some(Kind(Width(ty, cx.ptr), Signed(ty)))
    case UnT(p, x) => if UnOpOf(p).None? then None else UnaryKind(UnOpOf(p).value, KindIn(x, cx))
    case BinT(op, l, r) => if Prec(op) in {6, 7} then Some(Kind(32, true))
      else BinaryKind(op, KindIn(l, cx), KindIn(r, cx))
    case CondT(c, a, b) => ArmsKind(Some(Kind(32, true)), KindIn(a, cx), KindIn(b, cx))
    case SizeofTypeT(_) => Some(Kind(cx.ptr, false))
    case _ => None
  }

  function Evaluate(t: Tree, cx: Context): Option<Val> {
    match t
    case Leaf(x) => LeafVal(x, cx)
    case ParenT(x) => Evaluate(x, cx)
    case CastT(ty, x) => (match Evaluate(x, cx) case None => None case Some(v) => Converted(ty, v, cx.ptr))
    case UnT(p, x) =>
      (match NumOf(Evaluate(x, cx))
       case None => None
       case Some(n) => if UnOpOf(p).None? then None else Some(I(ApplyUnary(UnOpOf(p).value, n))))
    case BinT(op, l, r) => Binary(op, Evaluate(l, cx), Evaluate(r, cx))
    case CondT(c, a, b) =>
      AsVal(Conditional(NumOf(Evaluate(c, cx)), NumOf(Evaluate(a, cx)), NumOf(Evaluate(b, cx)), KindIn(t, cx)))
    case SizeofTypeT(ty) => if ty in cx.sizes && cx.ptr > 0 then Some(I(Num(cx.ptr, false, cx.sizes[ty]))) else None
    case _ => None
  }

  /** Reading the text and evaluating what was read. */
  function Run(text: seq<Token>, cx: Context): Option<Val> {
    match ReadExpr(text)
    case Error => None
    case Got(t, rest) => if rest == [] then Evaluate(t, cx) else None
  }

  // ----- address arithmetic -----

  /** The address computed, from the address p, the element's size s and the indices:
      one is scaled, a second one of two counts bytes. */
  function AddressOf(p: int, s: int, indices: seq<int>, ptr: nat): int
    requires indices != []
  {
    (p + indices[0] * s + if |indices| == 2 then indices[1] else 0) % Pow2(ptr)
  }

  ghost predicate Denotes(t: Text, v: int, cx: Context) {
    var n := NumOf(LeafVal(t, cx));
    n.Some? && ValidNum(n.value) && n.value.v == v
  }

  lemma ConvertedNum(ty: TypeName, n: Num, ptr: nat)
    requires Width(ty, ptr) > 1 && !ty.FloatT?
    ensures Converted(ty, I(n), ptr) == Some(I(Num(Width(ty, ptr), Signed(ty), Wrap(Width(ty, ptr), Signed(ty), n.v))))
  {
    hide Wrap;
  }

  lemma BinaryNums(op: BinOp, a: Num, b: Num)
    requires Apply(op, a, b).Some?
    ensures Binary(op, Some(I(a)), Some(I(b))) == Some(I(Apply(op, a, b).value))
  {
    hide Combine, Apply;
    CombineApplies(op, a, b);
  }

  /** Sum and product of two numbers as wide as a pointer. */
  lemma PointerWide(op: BinOp, a: Num, b: Num, x: int, y: int, ptr: nat)
    requires (op.Add? || op.Mul?) && ptr >= 32 && a.bits == b.bits == ptr && ValidNum(a) && ValidNum(b)
    requires Cong(a.v, x, Pow2(ptr)) && Cong(b.v, y, Pow2(ptr))
    ensures Apply(op, a, b).Some?
    ensures var n := Apply(op, a, b).value;
            && n.bits == ptr && n.signed == (a.signed && b.signed) && ValidNum(n)
            && Cong(n.v, if op.Add? then x + y else x * y, Pow2(ptr))
  {
    hide Pow2, Wrap, Cong;
    BalanceCong(a, b, ptr);
    var p, q := Balance(a, b).0, Balance(a, b).1;
    CongTrans(p.v, a.v, x, Pow2(ptr));
    CongTrans(q.v, b.v, y, Pow2(ptr));
    var e := if op.Add? then p.v + q.v else p.v * q.v;
    if op.Add? { CongAdd(p.v, x, q.v, y, Pow2(ptr)); } else { CongMul(p.v, x, q.v, y, Pow2(ptr)); }
    WrapCong(ptr, p.signed, e);
    CongTrans(Wrap(ptr, p.signed, e), e, if op.Add? then x + y else x * y, Pow2(ptr));
  }

  /** n is as wide as a pointer and congruent to x. */
  ghost predicate Holds(v: Option<Val>, signed: bool, x: int, ptr: nat)
    requires ptr > 0
  {
    v.Some? && v.value.I? && v.value.n.bits == ptr && v.value.n.signed == signed && ValidNum(v.value.n)
    && Cong(v.value.n.v, x, Pow2(ptr))
  }

  lemma CastHolds(signed: bool, v: Val, x: int, ptr: nat)
    requires ptr >= 32 && v.I? && v.n.v == x
    ensures Holds(Converted(PtrWidthT(signed), v, ptr), signed, x, ptr)
  {
    hide Pow2, Wrap, Cong;
    ConvertedNum(PtrWidthT(signed), v.n, ptr);
    WrapCong(ptr, signed, x);
  }

  lemma OperatorHolds(op: BinOp, l: Tree, r: Tree, sl: bool, sr: bool, x: int, y: int, cx: Context)
    requires (op.Add? || op.Mul?) && cx.ptr >= 32
    requires Holds(Evaluate(l, cx), sl, x, cx.ptr) && Holds(Evaluate(r, cx), sr, y, cx.ptr)
    ensures Holds(Evaluate(BinT(op, l, r), cx), sl && sr, if op.Add? then x + y else x * y, cx.ptr)
  {
    hide Pow2, Wrap, Cong, Apply, Binary;
    var a, b := Evaluate(l, cx).value.n, Evaluate(r, cx).value.n;
    PointerWide(op, a, b, x, y, cx.ptr);
    BinaryNums(op, a, b);
  }

  lemma LeafCastHolds(signed: bool, t: Text, x: int, cx: Context)
    requires cx.ptr >= 32 && Denotes(t, x, cx)
    ensures Holds(Evaluate(CastT(PtrWidthT(signed), Leaf(t)), cx), signed, x, cx.ptr)
    ensures Holds(Evaluate(CastT(PtrWidthT(signed), ParenT(Leaf(t))), cx), signed, x, cx.ptr)
  {
    hide Holds, Converted;
    CastHolds(signed, LeafVal(t, cx).value, x, cx.ptr);
    assert Evaluate(ParenT(Leaf(t)), cx) == LeafVal(t, cx);
  }

  lemma SizeCastHolds(ty: TypeName, cx: Context)
    requires cx.ptr >= 32 && ty in cx.sizes
    ensures Holds(Evaluate(CastT(ISIZE, SizeofTypeT(ty)), cx), true, cx.sizes[ty], cx.ptr)
  {
    hide Holds, Converted;
    CastHolds(true, I(Num(cx.ptr, false, cx.sizes[ty])), cx.sizes[ty], cx.ptr);
  }

  /** `(isize)(i) * (isize)sizeof(t)` */
  lemma ScaledHolds(idx: Text, i: int, ty: TypeName, cx: Context)
    requires cx.ptr >= 32 && ty in cx.sizes && Denotes(idx, i, cx)
    ensures Holds(Evaluate(Reading(Scaled(idx, ty)), cx), true, i * cx.sizes[ty], cx.ptr)
  {
    hide Holds, Evaluate;
    LeafCastHolds(true, idx, i, cx);
    SizeCastHolds(ty, cx);
    var l, r := CastT(ISIZE, ParenT(Leaf(idx))), CastT(ISIZE, SizeofTypeT(ty));
    OperatorHolds(Mul, l, r, true, true, i, cx.sizes[ty], cx);
    assert Reading(Scaled(idx, ty)) == BinT(Mul, l, r) by { ScaledReading(idx, ty); }
  }

  lemma ScaledReading(idx: Text, ty: TypeName)
    ensures Reading(Scaled(idx, ty)) == BinT(Mul, CastT(ISIZE, ParenT(Leaf(idx))), CastT(ISIZE, SizeofTypeT(ty)))
  {
    assert Reading(Paren(Var(idx))) == ParenT(Leaf(idx));
    assert Reading(Cast(ISIZE, Paren(Var(idx)))) == CastT(ISIZE, ParenT(Leaf(idx)));
    assert Reading(Cast(ISIZE, SizeofType(ty))) == CastT(ISIZE, SizeofTypeT(ty));
  }

  /** The sum as an address. */
  lemma AsAddress(t: Tree, x: int, cx: Context)
    requires cx.ptr >= 32 && Holds(Evaluate(t, cx), false, x, cx.ptr)
    ensures Evaluate(CastT(VOID_PTR, ParenT(t)), cx) == Some(I(Num(cx.ptr, false, x % Pow2(cx.ptr))))
  {
    hide Pow2, Wrap, Cong;
    var n := Evaluate(t, cx).value.n;
    assert Evaluate(ParenT(t), cx) == Some(I(n));
    ConvertedNum(VOID_PTR, n, cx.ptr);
    WrapId(cx.ptr, false, n.v);
    SmallResidue(n.v, x, Pow2(cx.ptr));
  }

  lemma SmallResidue(v: int, x: int, m: int)
    requires 0 <= v < m && Cong(v, x, m)
    ensures v == x % m
  {
    DivModUnique(v, m, 0, v);
  }

  /** Main result: for one, two or more indices the text read and evaluated is the
      address p + i * s (+ j), modulo the pointer width, for all addresses, indices and
      element sizes. */
  lemma GepMeans(ty: TypeName, p: Text, indices: seq<Text>, addr: int, at: seq<int>, cx: Context)
    requires cx.ptr >= 32 && ty in cx.sizes && Denotes(p, addr, cx)
    requires 0 < |indices| == |at| && forall k | 0 <= k < |at| :: Denotes(indices[k], at[k], cx)
    ensures Run(Print(Gep(ty, p, indices)), cx)
            == Some(I(Num(cx.ptr, false, AddressOf(addr, cx.sizes[ty], at, cx.ptr))))
  {
    hide Holds, Evaluate, ReadExpr, Print, Denotes, Pow2, Reading;
    GepReads(ty, p, indices);
    LeafCastHolds(false, p, addr, cx);
    ScaledHolds(indices[0], at[0], ty, cx);
    var base, scaled := CastT(USIZE, Leaf(p)), Reading(Scaled(indices[0], ty));
    var one := BinT(Add, base, scaled);
    OperatorHolds(Add, base, scaled, false, true, addr, at[0] * cx.sizes[ty], cx);
    GepReading(ty, p, indices);
    if |indices| == 2 {
      var offset := CastT(ISIZE, ParenT(Leaf(indices[1])));
      LeafCastHolds(true, indices[1], at[1], cx);
      OperatorHolds(Add, one, offset, false, true, addr + at[0] * cx.sizes[ty], at[1], cx);
      AsAddress(BinT(Add, one, offset), addr + at[0] * cx.sizes[ty] + at[1], cx);
    } else {
      AsAddress(one, addr + at[0] * cx.sizes[ty], cx);
    }
  }

  lemma GepReading(ty: TypeName, p: Text, indices: seq<Text>)
    requires indices != []
    ensures var one := BinT(Add, CastT(USIZE, Leaf(p)), Reading(Scaled(indices[0], ty)));
            Reading(Gep(ty, p, indices)) ==
            CastT(VOID_PTR, ParenT(if |indices| == 2 then BinT(Add, one, CastT(ISIZE, ParenT(Leaf(indices[1]))))
                                   else one))
  {
    hide Scaled;
    var sum := Bin(Cast(USIZE, Var(p)), Add, Scaled(indices[0], ty));
    assert Reading(Cast(USIZE, Var(p))) == CastT(USIZE, Leaf(p));
    assert Reading(sum) == BinT(Add, CastT(USIZE, Leaf(p)), Reading(Scaled(indices[0], ty)));
    if |indices| == 2 {
      var off := Cast(ISIZE, Paren(Var(indices[1])));
      assert Reading(Paren(Var(indices[1]))) == ParenT(Leaf(indices[1]));
      assert Reading(off) == CastT(ISIZE, ParenT(Leaf(indices[1])));
      assert Reading(Bin(sum, Add, off)) == BinT(Add, Reading(sum), Reading(off));
    }
  }

  // ----- float comparison -----

  predicate Ordered(x: Flt, y: Flt) { !x.NaN? && !y.NaN? }

  /** The predicate's meaning: ordered ones are false on NaN, unordered ones true. */
  predicate RealHolds(p: RealPredicate, x: Flt, y: Flt) {
    match p
    case Never => false
    case Always => true
    case ORD => Ordered(x, y)
    case UNO => !Ordered(x, y)
    case OEQ => Ordered(x, y) && x == y
    case ONE => Ordered(x, y) && x != y
    case OLT => Ordered(x, y) && Below(x, y)
    case OLE => Ordered(x, y) && !Below(y, x)
    case OGT => Ordered(x, y) && Below(y, x)
    case OGE => Ordered(x, y) && !Below(x, y)
    case UEQ => !Ordered(x, y) || x == y
    case UNE => !Ordered(x, y) || x != y
    case ULT => !Ordered(x, y) || Below(x, y)
    case ULE => !Ordered(x, y) || !Below(y, x)
    case UGT => !Ordered(x, y) || Below(y, x)
    case UGE => !Ordered(x, y) || !Below(x, y)
  }

  /** The predicates whose C operator is wrong on NaN: it is false there, where the
      unordered ones are true, except for `!=`, which is true where ONE is false. */
  predicate WrongOnNaN(p: RealPredicate) {
    p.ONE? || p.UEQ? || p.ULT? || p.ULE? || p.UGT? || p.UGE?
  }

  lemma Trichotomy(x: Flt, y: Flt)
    requires Ordered(x, y)
    ensures Below(x, y) || Below(y, x) || x == y
    ensures !(Below(x, y) && Below(y, x)) && !(Below(x, y) && x == y) && !(Below(y, x) && x == y)
  {
  }

  lemma ComparedFloats(op: BinOp, l: Text, r: Text, x: Flt, y: Flt, cx: Context)
    requires l in cx.env && cx.env[l] == F(x) && r in cx.env && cx.env[r] == F(y) && Prec(op) in {6, 7}
    ensures Evaluate(Reading(Bin(Var(l), op, Var(r))), cx) == Some(I(Truth(Compares(op, x, y))))
  {
    hide Compares;
    assert Reading(Bin(Var(l), op, Var(r))) == BinT(op, Leaf(l), Leaf(r));
  }

  lemma NotANumberMeans(v: Text, x: Flt, cx: Context)
    requires v in cx.env && cx.env[v] == F(x)
    ensures Evaluate(Reading(NotANumber(v)), cx) == Some(I(Truth(x.NaN?)))
  {
    ComparedFloats(Ne, v, v, x, x, cx);
  }

  /** Every comparison's text evaluates to 0 or 1, and it is what the predicate means
      exactly when neither operand is NaN or the predicate shares no operator. */
  lemma FCmpMeans(p: RealPredicate, l: Text, r: Text, x: Flt, y: Flt, cx: Context)
    requires l in cx.env && cx.env[l] == F(x) && r in cx.env && cx.env[r] == F(y)
    requires forall b :: BoolText(b) !in cx.env
    ensures var v := Run(Print(FCmp(p, l, r)), cx);
            && (v == Some(I(Num(32, true, 1))) || v == Some(I(Num(32, true, 0))))
            && ((v == Some(I(Num(32, true, 1))) <==> RealHolds(p, x, y)) <==> Ordered(x, y) || !WrongOnNaN(p))
  {
    hide ReadExpr, Print, Below, Evaluate;
    FCmpReads(p, l, r);
    if p.Never? || p.Always? {
      ConstantValue(p.Always?, cx);
    } else if p.ORD? || p.UNO? {
      OrderedMeans(p, l, r, x, y, cx);
    } else {
      ComparedFloats(RealOp(p), l, r, x, y, cx);
      OperatorMeans(p, x, y);
    }
  }

  lemma ConstantValue(b: bool, cx: Context)
    requires BoolText(b) !in cx.env
    ensures Evaluate(Reading(Lit(BoolText(b))), cx) == Some(I(Num(32, true, if b then 1 else 0)))
  {
  }

  lemma OperatorMeans(p: RealPredicate, x: Flt, y: Flt)
    requires !p.Never? && !p.Always? && !p.ORD? && !p.UNO?
    ensures Prec(RealOp(p)) in {6, 7}
    ensures Truth(Compares(RealOp(p), x, y)) == Num(32, true, if Compares(RealOp(p), x, y) then 1 else 0)
    ensures (Compares(RealOp(p), x, y) == RealHolds(p, x, y)) <==> Ordered(x, y) || !WrongOnNaN(p)
  {
    if Ordered(x, y) { Trichotomy(x, y); }
  }

  lemma OrderedMeans(p: RealPredicate, l: Text, r: Text, x: Flt, y: Flt, cx: Context)
    requires l in cx.env && cx.env[l] == F(x) && r in cx.env && cx.env[r] == F(y) && (p.ORD? || p.UNO?)
    ensures Evaluate(Reading(FCmp(p, l, r)), cx) == Some(I(Num(32, true, if RealHolds(p, x, y) then 1 else 0)))
  {
    hide NotANumber, Compares;
    NotANumberMeans(l, x, cx);
    NotANumberMeans(r, y, cx);
    var tl, tr := Reading(NotANumber(l)), Reading(NotANumber(r));
    if p.UNO? {
      assert Reading(FCmp(p, l, r)) == BinT(LogOr, tl, tr);
    } else {
      NegationMeans(tl, x.NaN?, cx);
      NegationMeans(tr, y.NaN?, cx);
      assert Reading(Un(LogNot, NotANumber(l))) == UnT(Bang, ParenT(tl));
      assert Reading(Un(LogNot, NotANumber(r))) == UnT(Bang, ParenT(tr));
      assert Reading(FCmp(p, l, r)) == BinT(LogAnd, UnT(Bang, ParenT(tl)), UnT(Bang, ParenT(tr)));
    }
  }

  lemma NegationMeans(t: Tree, b: bool, cx: Context)
    requires Evaluate(t, cx) == Some(I(Truth(b)))
    ensures Evaluate(UnT(Bang, ParenT(t)), cx) == Some(I(Truth(!b)))
  {
    hide Wrap, Conditional, Combine, KindIn, Converted, LeafVal;
    assert Evaluate(ParenT(t), cx) == Some(I(Truth(b)));
  }
}
