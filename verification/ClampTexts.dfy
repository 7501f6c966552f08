/** The texts the saturating intrinsics store on overflow, read and evaluated. */
module ClampTexts {
  import opened Wrappers
  import opened IntMath
  import opened CSyntax
  import opened CSemantics
  import opened IntLowering
  import opened Literals
  import opened Overflow

  /** How the compiler types the literal 2^63 behind the minus sign of the smallest
      64-bit value: as a 128-bit integer or as an unsigned 64-bit one. */
  datatype Half = Extended | Unsigned64

  function Magnitude(w: nat, half: Half): Text
    requires w > 0
  {
    if w >= 64 && half.Unsigned64? then UintText(Pow2(63)) else IntText(Pow2(w - 1))
  }

  /** `(t)-128LL`, `(t)127LL`, and `0` for both above 64 bits. */
  function LimitTokens(ty: TypeName, w: nat, low: bool, half: Half): seq<Token>
    requires w > 0
  {
    if w > 64 then [Word(DecimalText(0))]
    else [P(LParen), Type(ty), P(RParen)] + if low then [P(Minus), Word(Magnitude(w, half))]
         else [Word(IntText(Pow2(w - 1) - 1))]
  }

  function LimitTree(ty: TypeName, w: nat, low: bool, half: Half): Tree
    requires w > 0
  {
    if w > 64 then Leaf(DecimalText(0))
    else CastT(ty, if low then UnT(Minus, Leaf(Magnitude(w, half))) else Leaf(IntText(Pow2(w - 1) - 1)))
  }

  function Positive(r: Text): CExpr {
    Bin(Var(r), Gt, Lit(DecimalText(0)))
  }

  /** The text assigned to the result when the helper reports an overflow. */
  function ClampText(op: ArithOp, ty: TypeName, w: nat, r: Text, half: Half): seq<Token>
    requires w > 0
  {
    if Signed(ty) then
      [P(LParen)] + (Print(Positive(r)) + ([P(Question)] + (LimitTokens(ty, w, !op.OAdd?, half)
        + ([P(Colon)] + (LimitTokens(ty, w, op.OAdd?, half) + [P(RParen)])))))
    else if !op.OAdd? then Print(Cast(ty, Lit(DecimalText(0))))
    else if w < 128 then Print(Cast(ty, Lit(UintText(Pow2(w) - 1))))
    else [P(LParen), Type(ty), P(RParen), P(Minus), Word(DecimalText(1))]
  }

  // ----- reading -----

  lemma CastLeafReads(ty: TypeName, t: Text, negative: bool, rest: seq<Token>)
    requires IsPrimary(t) && NoPostfix(rest)
    ensures ReadCast([P(LParen), Type(ty), P(RParen)] + (if negative then [P(Minus), Word(t)] else [Word(t)]) + rest)
            == Got(CastT(ty, if negative then UnT(Minus, Leaf(t)) else Leaf(t)), rest)
  {
    hide ReadCast;
    var tail := (if negative then [P(Minus), Word(t)] else [Word(t)]) + rest;
    var s := [P(LParen), Type(ty), P(RParen)] + (if negative then [P(Minus), Word(t)] else [Word(t)]) + rest;
    assert s[3..] == tail;
    if negative { NegativeReads(t, rest); } else { WordReads(t, rest); }
    StepCast(s, if negative then UnT(Minus, Leaf(t)) else Leaf(t), rest);
  }

  lemma LimitReads(ty: TypeName, w: nat, low: bool, half: Half, rest: seq<Token>)
    requires w > 0 && NoPostfix(rest) && Operator(rest).None? && !At(rest, Question)
    ensures ReadExpr(LimitTokens(ty, w, low, half) + rest) == Got(LimitTree(ty, w, low, half), rest)
  {
    hide ReadCast, ReadBin, ReadExpr, ReadBinTail, Pow2, NoPostfix, Operator;
    if w > 64 {
      WordReads(DecimalText(0), rest);
    } else {
      Pow2Monotone(0, w - 1);
      PrimaryPower(w);
      CastLeafReads(ty, if low then Magnitude(w, half) else IntText(Pow2(w - 1) - 1), low, rest);
    }
    var s, t := LimitTokens(ty, w, low, half) + rest, LimitTree(ty, w, low, half);
    StepBin(s, t, rest, 1);
    StopBinTail(t, rest, 1);
    StopExpr(s, t, rest);
  }

  lemma PrimaryPower(w: nat)
    requires w > 0
    ensures Pow2(w - 1) >= 1
  {
    Pow2Monotone(0, w - 1);
  }

  /** `(c ? a : b)` around two limits. */
  lemma ConditionalReads(r: Text, ty: TypeName, w: nat, low: bool, half: Half)
    requires w > 0
    ensures var a, b := LimitTokens(ty, w, low, half), LimitTokens(ty, w, !low, half);
            ReadExpr([P(LParen)] + (Print(Positive(r)) + ([P(Question)] + (a + ([P(Colon)] + (b + [P(RParen)]))))))
            == Got(ParenT(CondT(Reading(Positive(r)), LimitTree(ty, w, low, half), LimitTree(ty, w, !low, half))), [])
  {
    hide ReadExpr, ReadBin, ReadBinTail, ReadCast, ReadUnary, ReadPrimary, LimitTokens, LimitTree, Print, Reading;
    var a, b := LimitTokens(ty, w, low, half), LimitTokens(ty, w, !low, half);
    var c, t := Positive(r), CondT(Reading(Positive(r)), LimitTree(ty, w, low, half), LimitTree(ty, w, !low, half));
    var s3 := b + [P(RParen)];
    var s2 := a + ([P(Colon)] + s3);
    var s1 := Print(c) + ([P(Question)] + s2);
    Separator(RParen, []);
    assert [P(RParen)] + [] == [P(RParen)];
    Separator(Question, s2);
    Separator(Colon, s3);
    ConditionShaped(r);
    ReadsBin(c, [P(Question)] + s2, 1);
    StopBinTail(Reading(c), [P(Question)] + s2, 1);
    LimitReads(ty, w, low, half, [P(Colon)] + s3);
    LimitReads(ty, w, !low, half, [P(RParen)]);
    StepTernary(s1, Reading(c), [P(Question)] + s2, LimitTree(ty, w, low, half), [P(Colon)] + s3,
                LimitTree(ty, w, !low, half), [P(RParen)]);
    Parenthesized(c, s1, t);
  }

  lemma ConditionShaped(r: Text)
    ensures Shaped(Positive(r)) && Level(Positive(r)) >= 1
  {
    LeafShaped(r);
  }

  lemma Parenthesized(c: CExpr, s1: seq<Token>, t: Tree)
    requires Print(c) <= s1 && ReadExpr(s1) == Got(t, [P(RParen)])
    ensures ReadExpr([P(LParen)] + s1) == Got(ParenT(t), [])
  {
    hide ReadExpr, ReadBin, ReadBinTail, ReadCast, ReadUnary;
    FirstToken(c);
    var s := [P(LParen)] + s1;
    assert s[1] == Print(c)[0] && s[1..] == s1;
    assert PostfixFront(s) && ReadPrimary(s) == Got(ParenT(t), []);
    ParenToExpr(s, ParenT(t), []);
  }

  // ----- value -----

  lemma LimitValue(ty: TypeName, w: nat, low: bool, half: Half, temps: Vars<Num>, ptr: nat)
    requires 1 < w <= 64 && Width(ty, ptr) == w && Signed(ty)
    ensures EvalTree(LimitTree(ty, w, low, half), temps, ptr)
            == Some(Num(w, true, if low then MinOf(w, true) else MaxOf(w, true)))
  {
    hide Pow2, Wrap;
    LiteralRange(64);
    Pow2Monotone(w - 1, 63);
    Double(w);
    Pow2Monotone(0, w - 1);
    if low {
      MagnitudeValue(w, half, temps);
      WrapHalf(w);
      assert EvalTree(UnT(Minus, Leaf(Magnitude(w, half))), temps, ptr)
             == Some(ApplyUnary(Neg, Denote(Magnitude(w, half), temps).value));
    } else {
      WrapId(w, true, Pow2(w - 1) - 1);
    }
  }

  lemma WrapHalf(w: nat)
    requires w > 1
    ensures Wrap(w, true, -Pow2(w - 1)) == -Pow2(w - 1) && Wrap(w, true, Pow2(w - 1)) == -Pow2(w - 1)
  {
    hide Pow2, Wrap;
    Double(w);
    Pow2Monotone(0, w - 1);
    CongFrom(-Pow2(w - 1), Pow2(w - 1), -1, Pow2(w));
    WrapUnique(w, true, Pow2(w - 1), -Pow2(w - 1));
    WrapId(w, true, -Pow2(w - 1));
  }

  /** The negated magnitude: exact, or the same 64-bit pattern. */
  lemma MagnitudeValue(w: nat, half: Half, temps: Vars<Num>)
    requires 1 < w <= 64
    ensures var n := Denote(Magnitude(w, half), temps);
            && n.Some?
            && ApplyUnary(Neg, n.value).v == (if w == 64 && half.Unsigned64? then Pow2(63) else -Pow2(w - 1))
  {
    hide Pow2;
    LiteralRange(64);
    Pow2Monotone(w - 1, 63);
    Pow2Monotone(0, w - 1);
    Pow2Monotone(63, 127);
    DivModUnique(-Pow2(63), Pow2(64), -1, Pow2(63));
    WrapId(64, true, if w < 64 then -Pow2(w - 1) else 0);
    WrapId(128, true, -Pow2(w - 1));
  }

  lemma PositiveValue(r: Text, n: Num, temps: Vars<Num>, ptr: nat)
    requires Denote(r, temps) == Some(n) && ValidNum(n) && n.signed
    ensures EvalTree(Reading(Positive(r)), temps, ptr) == Some(Truth(n.v > 0))
    ensures TypeOfTree(Reading(Positive(r)), temps, ptr) == Some(Kind(32, true))
  {
    hide Apply, Denote;
    var zero := Num(32, true, 0);
    assert Denote(DecimalText(0), temps) == Some(zero) by { ZeroDenotes(temps); }
    CombineApplies(Gt, n, zero);
    ComparedToZero(n);
    assert Reading(Positive(r)) == BinT(Gt, Leaf(r), Leaf(DecimalText(0)));
  }

  lemma ZeroDenotes(temps: Vars<Num>)
    ensures Denote(DecimalText(0), temps) == Some(Num(32, true, 0))
  {
  }

  lemma ComparedToZero(n: Num)
    requires ValidNum(n) && n.signed
    ensures Apply(Gt, n, Num(32, true, 0)) == Some(Truth(n.v > 0))
  {
    hide Balance, Pow2;
    Pow2Monotone(0, 31);
    BalanceExact(n, Num(32, true, 0));
  }

  /** The conditional's value is the chosen limit, whichever the other one is. */
  lemma ChosenLimit(ty: TypeName, w: nat, low: bool, half: Half, r: Text, n: Num, temps: Vars<Num>, ptr: nat)
    requires (1 < w <= 64 || w == 128) && Width(ty, ptr) == w && Signed(ty)
    requires Denote(r, temps) == Some(n) && ValidNum(n) && n.signed
    ensures var t := CondT(Reading(Positive(r)), LimitTree(ty, w, low, half), LimitTree(ty, w, !low, half));
            var v := EvalTree(ParenT(t), temps, ptr);
            && v.Some?
            && v.value.v == if w == 128 then 0 else if (n.v > 0) == low then MinOf(w, true) else MaxOf(w, true)
  {
    hide Pow2, Wrap, Denote, LimitTree, Positive, Reading, EvalTree;
    var a, b := LimitTree(ty, w, low, half), LimitTree(ty, w, !low, half);
    PositiveValue(r, n, temps, ptr);
    LimitKind(ty, w, low, half, temps, ptr);
    LimitKind(ty, w, !low, half, temps, ptr);
    ConditionalTree(Reading(Positive(r)), a, b, temps, ptr);
    if w == 128 {
      WrapId(32, true, 0) by { Pow2Monotone(0, 31); }
    } else {
      LimitValue(ty, w, low, half, temps, ptr);
      LimitValue(ty, w, !low, half, temps, ptr);
      LimitStays(w);
    }
  }

  lemma ConditionalTree(c: Tree, a: Tree, b: Tree, temps: Vars<Num>, ptr: nat)
    ensures EvalTree(ParenT(CondT(c, a, b)), temps, ptr)
            == Conditional(EvalTree(c, temps, ptr), EvalTree(a, temps, ptr), EvalTree(b, temps, ptr),
                           ArmsKind(TypeOfTree(c, temps, ptr), TypeOfTree(a, temps, ptr), TypeOfTree(b, temps, ptr)))
  {
    hide Conditional, ArmsKind;
    assert EvalTree(ParenT(CondT(c, a, b)), temps, ptr) == EvalTree(CondT(c, a, b), temps, ptr);
  }

  lemma LimitKind(ty: TypeName, w: nat, low: bool, half: Half, temps: Vars<Num>, ptr: nat)
    requires (1 < w <= 64 || w == 128) && Width(ty, ptr) == w && Signed(ty)
    ensures TypeOfTree(LimitTree(ty, w, low, half), temps, ptr)
            == Some(if w == 128 then Kind(32, true) else Kind(w, true))
    ensures w == 128 ==> EvalTree(LimitTree(ty, w, low, half), temps, ptr) == Some(Num(32, true, 0))
  {
    hide Pow2;
    var m, k := Leaf(Magnitude(w, half)), Leaf(IntText(Pow2(w - 1) - 1));
    assert TypeOfTree(m, temps, ptr).Some? && TypeOfTree(k, temps, ptr).Some?;
    assert TypeOfTree(UnT(Minus, m), temps, ptr).Some?;
  }

  lemma LimitStays(w: nat)
    requires 1 < w <= 64
    ensures var bits := if w < 32 then 32 else w;
            Wrap(bits, true, MinOf(w, true)) == MinOf(w, true) && Wrap(bits, true, MaxOf(w, true)) == MaxOf(w, true)
  {
    hide Pow2, Wrap;
    var bits := if w < 32 then 32 else w;
    Pow2Monotone(w - 1, bits - 1);
    Pow2Monotone(0, w - 1);
    WrapId(bits, true, MinOf(w, true));
    WrapId(bits, true, MaxOf(w, true));
  }

  /** Main result: the emitted clamp, however the compiler types the magnitude 2^63,
      stores the limit the model of the intrinsic uses. */
  lemma ClampValue(op: ArithOp, ty: TypeName, r: Text, half: Half, n: Num, temps: Vars<Num>, ptr: nat)
    requires !op.OMul? && (1 < Width(ty, ptr) <= 64 || Width(ty, ptr) == 128)
    requires Signed(ty) ==> Denote(r, temps) == Some(n) && ValidNum(n) && n.signed
    ensures var w := Width(ty, ptr);
            var v := Execute(ClampText(op, ty, w, r, half), temps, ptr);
            v.Some? && Convert(w, Signed(ty), v.value.v) == ClampLiteral(op, w, Signed(ty), n.v)
  {
    hide ReadExpr, EvalTree, Pow2, Wrap, LimitTokens, LimitTree, Positive, Reading, Print, Denote, Width, Signed;
    var w := Width(ty, ptr);
    if Signed(ty) {
      ConditionalReads(r, ty, w, !op.OAdd?, half);
      ChosenLimit(ty, w, !op.OAdd?, half, r, n, temps, ptr);
      Pow2Monotone(0, w - 1);
      WrapId(w, true, 0);
      WrapId(w, true, MinOf(w, true));
      WrapId(w, true, MaxOf(w, true));
    } else {
      UnsignedClamp(op, ty, r, half, temps, ptr);
    }
  }

  lemma UnsignedClamp(op: ArithOp, ty: TypeName, r: Text, half: Half, temps: Vars<Num>, ptr: nat)
    requires !op.OMul? && (1 < Width(ty, ptr) <= 64 || Width(ty, ptr) == 128) && !Signed(ty)
    ensures var w := Width(ty, ptr);
            var v := Execute(ClampText(op, ty, w, r, half), temps, ptr);
            v.Some? && Convert(w, false, v.value.v) == ClampLiteral(op, w, false, 0)
  {
    hide ReadExpr, Pow2, Wrap, Print;
    var w := Width(ty, ptr);
    Pow2Monotone(1, w);
    LiteralRange(64);
    WrapId(w, false, 0);
    WrapId(w, false, Pow2(w) - 1);
    if op.OAdd? && w == 128 {
      MinusOne(ty, temps, ptr);
    } else {
      var t := if op.OAdd? then UintText(Pow2(w) - 1) else DecimalText(0);
      CastShaped(ty, t);
      ExecutePrinted(Cast(ty, Lit(t)), temps, ptr) by { LeafShaped(t); }
    }
  }

  /** `(t)-1` */
  lemma MinusOne(ty: TypeName, temps: Vars<Num>, ptr: nat)
    requires Width(ty, ptr) == 128 && !Signed(ty)
    ensures var v := Execute([P(LParen), Type(ty), P(RParen), P(Minus), Word(DecimalText(1))], temps, ptr);
            v.Some? && v.value.v == Pow2(128) - 1
  {
    hide ReadExpr, Pow2, Wrap, ReadCast;
    var t := DecimalText(1);
    CastLeafReads(ty, t, true, []);
    var s := [P(LParen), Type(ty), P(RParen), P(Minus), Word(t)];
    assert [P(LParen), Type(ty), P(RParen)] + [P(Minus), Word(t)] + [] == s;
    CastReads(s, CastT(ty, UnT(Minus, Leaf(t))));
    Pow2Monotone(1, 31);
    LiteralRange(64);
    WrapId(32, true, -1);
    assert EvalTree(UnT(Minus, Leaf(t)), temps, ptr) == Some(Num(32, true, -1));
    AllOnes();
  }

  lemma AllOnes()
    ensures Wrap(128, false, -1) == Pow2(128) - 1
  {
    hide Pow2, Wrap;
    Pow2Monotone(1, 128);
    LiteralRange(1);
    CongFrom(Pow2(128) - 1, -1, 1, Pow2(128));
    WrapUnique(128, false, -1, Pow2(128) - 1);
  }

  /** So on overflow the emitted statement stores the clamped result, at every width
      to 64 and for u128. */
  lemma OverflowStoresClamp(op: ArithOp, ty: TypeName, a: int, r: Text, half: Half, n: Num, temps: Vars<Num>, ptr: nat)
    requires !op.OMul? && (1 < Width(ty, ptr) <= 64 || (Width(ty, ptr) == 128 && !Signed(ty)))
    requires InRange(Width(ty, ptr), Signed(ty), a) && InRange(Width(ty, ptr), Signed(ty), n.v)
    requires Denote(r, temps) == Some(n) && ValidNum(n) && (Signed(ty) ==> n.signed)
    requires !InRange(Width(ty, ptr), Signed(ty), Exact(op, a, n.v))
    ensures var w := Width(ty, ptr);
            var v := Execute(ClampText(op, ty, w, r, half), temps, ptr);
            v.Some? && Convert(w, Signed(ty), v.value.v) == Clamp(w, Signed(ty), Exact(op, a, n.v))
  {
    hide Execute, Denote, Width, Signed, Convert, Clamp, ClampLiteral, ClampText;
    ClampValue(op, ty, r, half, n, temps, ptr);
    ClampCases(op, Width(ty, ptr), Signed(ty), a, n.v);
  }
}
