/** The other expressions the builder constructs: address arithmetic, saturating
    float conversions, float comparisons, member access and calls. Whatever their
    operands' texts, their printed form reads back as built; member access alone
    needs a text that may carry a postfix operator. */
module BuilderShapes {
  import opened IntMath
  import opened CSyntax

  const USIZE := PtrWidthT(false)
  const ISIZE := PtrWidthT(true)
  const VOID_PTR := PointerT(false)

  // ----- gep -----

  function Scaled(idx: Text, ty: TypeName): CExpr {
    Bin(Cast(ISIZE, Paren(Var(idx))), Mul, Cast(ISIZE, SizeofType(ty)))
  }

  /** One index is scaled; a second one is a byte offset. */
  function Gep(ty: TypeName, p: Text, indices: seq<Text>): CExpr
    requires indices != []
  {
    var sum := Bin(Cast(USIZE, Var(p)), Add, Scaled(indices[0], ty));
    Cast(VOID_PTR, Paren(if |indices| == 2 then Bin(sum, Add, Cast(ISIZE, Paren(Var(indices[1])))) else sum))
  }

  // ----- float to integer, saturating -----

  function NotANumber(v: Text): CExpr { Bin(Var(v), Ne, Var(v)) }

  /** A limit is a real literal, or a macro converted to double. */
  predicate IsLimit(e: CExpr) {
    e.Lit? || (e.Cast? && e.e.Var?)
  }

  function UnsignedMax(ty: TypeName): CExpr {
    if ty.IntT? then Lit(RealText(Pow2(ty.bits) - 1)) else Cast(FloatT(64), Var(Atom("UINTPTR_MAX")))
  }

  function SignedMax(ty: TypeName): CExpr {
    if ty.IntT? && ty.bits > 0 then Lit(RealText(Pow2(ty.bits - 1) - 1)) else Cast(FloatT(64), Var(Atom("INTPTR_MAX")))
  }

  function SignedMin(ty: TypeName): CExpr {
    if ty.IntT? && ty.bits > 0 then Lit(RealText(-Pow2(ty.bits - 1))) else Cast(FloatT(64), Var(Atom("INTPTR_MIN")))
  }

  /** NaN to 0, what lies below `min` to `below`, above `max` to the converted limit,
      and the rest converted. */
  function Clamped(v: Text, ty: TypeName, min: CExpr, below: CExpr, max: CExpr): CExpr {
    var inner := Ternary(Bin(Var(v), Gt, max), Cast(ty, max), Cast(ty, Var(v)));
    var mid := Ternary(Bin(Var(v), Lt, min), below, inner);
    Ternary(NotANumber(v), Cast(ty, Lit(DecimalText(0))), mid)
  }

  /** 128-bit integers get a plain cast. */
  function SaturatingUnsigned(v: Text, ty: TypeName): CExpr {
    if ty.IntT? && ty.bits >= 128 then Cast(ty, Var(v))
    else Clamped(v, ty, Lit(RealText(0)), Cast(ty, Lit(DecimalText(0))), UnsignedMax(ty))
  }

  function SaturatingSigned(v: Text, ty: TypeName): CExpr {
    if ty.IntT? && ty.bits > 64 then Cast(ty, Var(v))
    else Clamped(v, ty, SignedMin(ty), Cast(ty, SignedMin(ty)), SignedMax(ty))
  }

  // ----- float comparison -----

  datatype RealPredicate =
    | OEQ | OGT | OGE | OLT | OLE | ONE | ORD
    | UNO | UEQ | UGT | UGE | ULT | ULE | UNE | Never | Always

  /** The C operator; ordered and unordered predicates share one. */
  function RealOp(p: RealPredicate): BinOp {
    match p
    case OEQ => Eq case UEQ => Eq
    case ONE => Ne case UNE => Ne
    case OGT => Gt case UGT => Gt
    case OGE => Ge case UGE => Ge
    case OLT => Lt case ULT => Lt
    case _ => Le
  }

  function FCmp(p: RealPredicate, l: Text, r: Text): CExpr {
    match p
    case Never => Lit(BoolText(false))
    case Always => Lit(BoolText(true))
    case ORD => Bin(Un(LogNot, NotANumber(l)), LogAnd, Un(LogNot, NotANumber(r)))
    case UNO => Bin(NotANumber(l), LogOr, NotANumber(r))
    case _ => Bin(Var(l), RealOp(p), Var(r))
  }

  // ----- everything reads back -----

  lemma Cast11(ty: TypeName, e: CExpr)
    requires Shaped(e) && Level(e) >= 11
    ensures Shaped(Cast(ty, e)) && Level(Cast(ty, e)) == 11
  {
  }

  lemma Wrapped(e: CExpr)
    requires Shaped(e)
    ensures Shaped(Paren(e)) && Level(Paren(e)) == 14
  {
  }

  lemma Choice(c: CExpr, t: CExpr, f: CExpr)
    requires Shaped(c) && Shaped(t) && Shaped(f)
    ensures Shaped(Ternary(c, t, f))
  {
  }

  lemma GepReads(ty: TypeName, p: Text, indices: seq<Text>)
    requires indices != []
    ensures ReadExpr(Print(Gep(ty, p, indices))) == Got(Reading(Gep(ty, p, indices)), [])
  {
    hide Shaped, Level, Reading, Print, ReadExpr;
    var sum := Bin(Cast(USIZE, Var(p)), Add, Scaled(indices[0], ty));
    SumShaped(ty, p, indices[0]);
    if |indices| == 2 {
      var offset := Cast(ISIZE, Paren(Var(indices[1])));
      LeafShaped(indices[1]);
      Wrapped(Var(indices[1]));
      Cast11(ISIZE, Paren(Var(indices[1])));
      BinShaped(sum, Add, offset);
      Wrapped(Bin(sum, Add, offset));
      Cast11(VOID_PTR, Paren(Bin(sum, Add, offset)));
    } else {
      Wrapped(sum);
      Cast11(VOID_PTR, Paren(sum));
    }
    PrintThenRead(Gep(ty, p, indices));
  }

  lemma SumShaped(ty: TypeName, p: Text, idx: Text)
    ensures var sum := Bin(Cast(USIZE, Var(p)), Add, Scaled(idx, ty)); Shaped(sum) && Level(sum) == Prec(Add)
  {
    hide Shaped, Level;
    var size := SizeofType(ty);
    SizeShaped(ty);
    LeafShaped(p);
    LeafShaped(idx);
    Wrapped(Var(idx));
    Cast11(USIZE, Var(p));
    Cast11(ISIZE, size);
    Cast11(ISIZE, Paren(Var(idx)));
    BinShaped(Cast(ISIZE, Paren(Var(idx))), Mul, Cast(ISIZE, size));
    BinShaped(Cast(USIZE, Var(p)), Add, Scaled(idx, ty));
  }

  lemma SizeShaped(ty: TypeName)
    ensures Shaped(SizeofType(ty)) && Level(SizeofType(ty)) == 12
  {
  }

  lemma ComparesShaped(l: CExpr, op: BinOp, r: CExpr)
    requires Prec(op) < 11 && Shaped(l) && Shaped(r) && Level(l) >= 11 && Level(r) >= 11
    ensures Shaped(Bin(l, op, r)) && Level(Bin(l, op, r)) == Prec(op)
  {
  }

  lemma LimitShaped(e: CExpr)
    requires IsLimit(e)
    ensures Shaped(e) && Level(e) >= 11
  {
    if e.Lit? { LeafShaped(e.text); } else { LeafShaped(e.e.text); }
  }

  lemma SaturatingReads(v: Text, ty: TypeName)
    ensures ReadExpr(Print(SaturatingUnsigned(v, ty))) == Got(Reading(SaturatingUnsigned(v, ty)), [])
    ensures ReadExpr(Print(SaturatingSigned(v, ty))) == Got(Reading(SaturatingSigned(v, ty)), [])
  {
    hide Reading, Print, ReadExpr;
    SaturatingShaped(v, ty);
    PrintThenRead(SaturatingUnsigned(v, ty));
    PrintThenRead(SaturatingSigned(v, ty));
  }

  lemma SaturatingShaped(v: Text, ty: TypeName)
    ensures Shaped(SaturatingUnsigned(v, ty)) && Shaped(SaturatingSigned(v, ty))
  {
    hide Shaped, Level, Pow2;
    assert Shaped(Cast(ty, Var(v))) by { LeafShaped(v); CastShaped(ty, v); }
    ClampShaped(v, ty, Lit(RealText(0)), Cast(ty, Lit(DecimalText(0))), UnsignedMax(ty));
    ClampShaped(v, ty, SignedMin(ty), Cast(ty, SignedMin(ty)), SignedMax(ty));
  }

  lemma CastShaped(ty: TypeName, v: Text)
    ensures Shaped(Cast(ty, Var(v)))
  {
  }

  /** The nested conditionals around any two limits. */
  lemma ClampShaped(v: Text, ty: TypeName, min: CExpr, below: CExpr, max: CExpr)
    requires IsLimit(min) && IsLimit(max) && below.Cast? && IsLimit(below.e)
    ensures Shaped(Clamped(v, ty, min, below, max))
  {
    hide Shaped, Level;
    LeafShaped(v);
    LeafShaped(DecimalText(0));
    LimitShaped(min);
    LimitShaped(max);
    LimitShaped(below.e);
    ComparesShaped(Var(v), Ne, Var(v));
    ComparesShaped(Var(v), Gt, max);
    ComparesShaped(Var(v), Lt, min);
    Cast11(ty, Var(v));
    Cast11(ty, max);
    Cast11(below.ty, below.e);
    Cast11(ty, Lit(DecimalText(0)));
    var inner := Ternary(Bin(Var(v), Gt, max), Cast(ty, max), Cast(ty, Var(v)));
    Choice(Bin(Var(v), Gt, max), Cast(ty, max), Cast(ty, Var(v)));
    Choice(Bin(Var(v), Lt, min), below, inner);
    Choice(NotANumber(v), Cast(ty, Lit(DecimalText(0))), Ternary(Bin(Var(v), Lt, min), below, inner));
  }

  lemma FCmpReads(p: RealPredicate, l: Text, r: Text)
    ensures ReadExpr(Print(FCmp(p, l, r))) == Got(Reading(FCmp(p, l, r)), [])
  {
    hide Reading, Print, ReadExpr;
    FCmpShaped(p, l, r);
    PrintThenRead(FCmp(p, l, r));
  }

  lemma FCmpShaped(p: RealPredicate, l: Text, r: Text)
    ensures Shaped(FCmp(p, l, r))
  {
    LeafShaped(l);
    LeafShaped(r);
    if p.Never? || p.Always? {
    } else if p.ORD? || p.UNO? {
      ComparesShaped(Var(l), Ne, Var(l));
      ComparesShaped(Var(r), Ne, Var(r));
    } else {
      ComparesShaped(Var(l), RealOp(p), Var(r));
    }
  }

  /** `v.f0` is well shaped exactly when the aggregate's text is not a cast, a
      negative literal or a number, `v[i]` when it is not one of the first two. */
  lemma MemberAccess(v: Text, field: string, i: Text)
    ensures Shaped(Field(Var(v), field)) <==> IsPrimary(v) && !IsNumber(Var(v))
    ensures Shaped(Index(Var(v), Var(i))) <==> IsPrimary(v)
    ensures IsPrimary(v) <==> !(v.Prefixed? || (v.IntText? && I64_MIN < v.i < 0) || (v.RealText? && v.r < 0))
    ensures IsPrimary(v) && !IsNumber(Var(v)) ==>
              ReadExpr(Print(Field(Var(v), field))) == Got(Reading(Field(Var(v), field)), [])
    ensures IsPrimary(v) ==>
              ReadExpr(Print(Index(Var(v), Var(i)))) == Got(Reading(Index(Var(v), Var(i))), [])
  {
    hide Reading, Print, ReadExpr;
    if IsPrimary(v) {
      PrintThenRead(Index(Var(v), Var(i)));
      if !IsNumber(Var(v)) { PrintThenRead(Field(Var(v), field)); }
    }
  }

  /** A `*(t *)p` or `&v` operand, as loads, stores and memcpy calls use them. The
      address is taken of a variable, whose text does not start with `&` itself. */
  lemma MemoryOperands(ty: TypeName, p: Text, v: Text, f: Text)
    requires IsPrimary(f)
    ensures ReadExpr(Print(Deref(ty, Var(p)))) == Got(Reading(Deref(ty, Var(p))), [])
    ensures Shaped(AddrOf(Var(v))) <==> !AmpContinues(TextChar(v))
    ensures Shaped(AddrOf(Var(v))) ==>
              var call := Call(Var(f), [Var(p), AddrOf(Var(v)), Sizeof(Var(v))]);
              && ReadExpr(Print(AddrOf(Var(v)))) == Got(Reading(AddrOf(Var(v))), [])
              && ReadExpr(Print(call)) == Got(Reading(call), [])
  {
    hide Reading, Print, ReadExpr;
    LeafShaped(p);
    LeafShaped(v);
    PrintThenRead(Deref(ty, Var(p)));
    if Shaped(AddrOf(Var(v))) {
      PrintThenRead(AddrOf(Var(v)));
      PrintThenRead(Call(Var(f), [Var(p), AddrOf(Var(v)), Sizeof(Var(v))]));
    }
  }
}
