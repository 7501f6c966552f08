/** The texts of integer constants, read and evaluated. */
module Literals {
  import opened Wrappers
  import opened IntMath
  import opened CSyntax
  import opened CSemantics
  import opened IntLowering

  /** `((uint128_t)hiULL << 64 | loULL)`, also the text of a large UintConst. */
  function HalvesExpr(p: int): CExpr {
    Paren(Bin(Bin(Cast(IntT(128, false), Lit(UintText(p / Pow2(64)))), Shl, Lit(DecimalText(64))), BitOr,
              Lit(UintText(p % Pow2(64)))))
  }

  /** The text `render` prints for IntConst(i): a minus sign before a literal, the
      split I64_MIN, or two 64-bit halves. */
  function LiteralTokens(i: int): seq<Token> {
    if 0 <= i <= I64_MAX then [Word(IntText(i))]
    else if I64_MIN < i < 0 then [P(Minus), Word(IntText(-i))]
    else if i == I64_MIN then [P(LParen), P(Minus), Word(IntText(I64_MAX)), P(Minus), Word(IntText(1)), P(RParen)]
    else Print(Paren(Cast(IntT(128, true), HalvesExpr(i % Pow2(128)))))
  }

  function UintTokens(u: int): seq<Token> {
    if u <= U64_MAX then [Word(UintText(u))] else Print(HalvesExpr(u))
  }

  /** The tree of that text. */
  function LiteralTree(i: int): Tree {
    if 0 <= i <= I64_MAX then Leaf(IntText(i))
    else if I64_MIN < i < 0 then UnT(Minus, Leaf(IntText(-i)))
    else if i == I64_MIN then ParenT(BinT(Sub, UnT(Minus, Leaf(IntText(I64_MAX))), Leaf(IntText(1))))
    else ParenT(CastT(IntT(128, true), HalvesTree(i % Pow2(128))))
  }

  function HalvesTree(p: int): Tree {
    ParenT(BinT(BitOr,
                BinT(Shl, CastT(IntT(128, false), Leaf(UintText(p / Pow2(64)))), Leaf(DecimalText(64))),
                Leaf(UintText(p % Pow2(64)))))
  }

  lemma HalvesValue(p: int, temps: Vars<Num>, ptr: nat)
    requires 0 <= p < Pow2(128)
    ensures EvalTree(HalvesTree(p), temps, ptr) == Some(Num(128, false, p))
  {
    hide Pow2, Wrap, EvalTree;
    LiteralRange(64);
    var hi, lo := p / Pow2(64), p % Pow2(64);
    Pow2Add(64, 64);
    HighHalf(p);
    Pow2Monotone(64, 128);
    MulMonotone(hi, Pow2(64) - 1, Pow2(64));
    MulMonotone(0, hi, Pow2(64));
    HalvesApply(hi, lo, temps, ptr);
  }

  lemma HighHalf(p: int)
    requires 0 <= p < Pow2(64) * Pow2(64)
    ensures 0 <= p / Pow2(64) < Pow2(64)
  {
    var m := Pow2(64);
    var q := p / m;
    assert p == q * m + p % m;
    if q < 0 { MulMonotone(q, -1, m); }
    if q >= m { MulMonotone(m, q, m); }
  }

  lemma HalvesApply(hi: int, lo: int, temps: Vars<Num>, ptr: nat)
    requires 0 <= hi <= U64_MAX && 0 <= lo <= U64_MAX && U64_MAX + 1 == Pow2(64)
    requires InRange(128, false, hi) && InRange(128, false, hi * Pow2(64)) && InRange(128, false, lo)
    requires InRange(128, false, hi * Pow2(64) + lo)
    ensures EvalTree(ParenT(BinT(BitOr, BinT(Shl, CastT(IntT(128, false), Leaf(UintText(hi))), Leaf(DecimalText(64))),
                                 Leaf(UintText(lo)))), temps, ptr)
            == Some(Num(128, false, hi * Pow2(64) + lo))
  {
    hide Wrap, Apply, Pow2, Denote;
    var hiTree := CastT(IntT(128, false), Leaf(UintText(hi)));
    WrapId(128, false, hi);
    assert EvalTree(Leaf(UintText(hi)), temps, ptr) == Some(Num(64, false, hi)) by { UintDenotes(hi, temps); }
    assert EvalTree(hiTree, temps, ptr) == Some(Num(128, false, hi));
    assert EvalTree(Leaf(DecimalText(64)), temps, ptr) == Some(Num(32, true, 64)) by { UintDenotes(64, temps); }
    assert EvalTree(Leaf(UintText(lo)), temps, ptr) == Some(Num(64, false, lo)) by { UintDenotes(lo, temps); }
    ShlHalf(hi);
    OrHalf(hi, lo);
    var shl := BinT(Shl, hiTree, Leaf(DecimalText(64)));
    assert EvalTree(shl, temps, ptr) == Some(Num(128, false, hi * Pow2(64)));
    var or := BinT(BitOr, shl, Leaf(UintText(lo)));
    assert EvalTree(or, temps, ptr) == Some(Num(128, false, hi * Pow2(64) + lo));
  }

  lemma UintDenotes(u: int, temps: Vars<Num>)
    requires 0 <= u <= U64_MAX
    ensures Denote(UintText(u), temps) == Some(Num(64, false, u))
    ensures Denote(DecimalText(64), temps) == Some(Num(32, true, 64))
  {
  }

  lemma ShlHalf(hi: int)
    requires InRange(128, false, hi * Pow2(64))
    ensures Apply(Shl, Num(128, false, hi), Num(32, true, 64)) == Some(Num(128, false, hi * Pow2(64)))
  {
    hide Wrap, Pow2;
    WrapId(128, false, hi * Pow2(64));
  }

  lemma OrHalf(hi: int, lo: int)
    requires 0 <= hi && 0 <= lo < Pow2(64)
    requires InRange(128, false, hi * Pow2(64)) && InRange(128, false, lo) && InRange(128, false, hi * Pow2(64) + lo)
    ensures Apply(BitOr, Num(128, false, hi * Pow2(64)), Num(64, false, lo))
            == Some(Num(128, false, hi * Pow2(64) + lo))
  {
    hide Wrap, Pow2, BitOp;
    WrapId(128, false, hi * Pow2(64));
    WrapId(128, false, lo);
    WrapId(128, false, hi * Pow2(64) + lo);
    OrDisjoint(hi, lo, 64, 128);
    DivModUnique(hi * Pow2(64) + lo, Pow2(128), 0, hi * Pow2(64) + lo);
  }

  lemma TreeValue(i: int, temps: Vars<Num>, ptr: nat)
    requires InRange(128, true, i)
    ensures EvalTree(LiteralTree(i), temps, ptr) == Denote(IntText(i), temps)
  {
    if i == I64_MIN {
      MinLiteral(temps, ptr);
    } else if I64_MIN < i <= I64_MAX {
      SmallLiteral(i, temps, ptr);
    } else {
      hide Wrap, EvalTree, HalvesTree;
      CongMod(i, Pow2(128));
      HalvesValue(i % Pow2(128), temps, ptr);
      WrapUnique(128, true, i % Pow2(128), i);
      CastToI128(HalvesTree(i % Pow2(128)), i % Pow2(128), temps, ptr);
    }
  }

  lemma CastToI128(t: Tree, p: int, temps: Vars<Num>, ptr: nat)
    requires EvalTree(t, temps, ptr) == Some(Num(128, false, p))
    ensures EvalTree(ParenT(CastT(IntT(128, true), t)), temps, ptr) == Some(Num(128, true, Wrap(128, true, p)))
  {
    hide Wrap;
    assert EvalTree(CastT(IntT(128, true), t), temps, ptr) == Some(Num(128, true, Wrap(128, true, p)));
  }

  lemma SmallLiteral(i: int, temps: Vars<Num>, ptr: nat)
    requires I64_MIN < i <= I64_MAX
    ensures EvalTree(LiteralTree(i), temps, ptr) == Denote(IntText(i), temps)
  {
    hide Wrap;
    LiteralRange(64);
    WrapId(64, true, i);
  }

  lemma MinLiteral(temps: Vars<Num>, ptr: nat)
    ensures EvalTree(LiteralTree(I64_MIN), temps, ptr) == Some(Num(64, true, I64_MIN))
  {
    hide Wrap, Pow2;
    LiteralRange(64);
    WrapId(64, true, -I64_MAX);
    WrapId(64, true, I64_MIN);
    WrapId(64, true, 1);
    var minus := UnT(Minus, Leaf(IntText(I64_MAX)));
    assert EvalTree(minus, temps, ptr) == Some(Num(64, true, -I64_MAX));
    assert EvalTree(BinT(Sub, minus, Leaf(IntText(1))), temps, ptr) == Some(Num(64, true, I64_MIN));
  }

  // ----- reading the text -----

  lemma HalvesShaped(p: int)
    ensures Shaped(HalvesExpr(p)) && Level(HalvesExpr(p)) == 14 && Reading(HalvesExpr(p)) == HalvesTree(p)
  {
    hide Pow2;
    JoinShaped(UintText(p / Pow2(64)), UintText(p % Pow2(64)));
    JoinReading(UintText(p / Pow2(64)), UintText(p % Pow2(64)));
  }

  lemma JoinShaped(hi: Text, lo: Text)
    ensures var e := Paren(Bin(Bin(Cast(IntT(128, false), Lit(hi)), Shl, Lit(DecimalText(64))), BitOr, Lit(lo)));
            Shaped(e) && Level(e) == 14
  {
    LeafShaped(hi);
    LeafShaped(lo);
    LeafShaped(DecimalText(64));
    var cast := Cast(IntT(128, false), Lit(hi));
    assert Shaped(cast) && Level(cast) == 11;
    hide Shaped, Level;
    BinShaped(cast, Shl, Lit(DecimalText(64)));
    BinShaped(Bin(cast, Shl, Lit(DecimalText(64))), BitOr, Lit(lo));
  }

  lemma JoinReading(hi: Text, lo: Text)
    ensures Reading(Paren(Bin(Bin(Cast(IntT(128, false), Lit(hi)), Shl, Lit(DecimalText(64))), BitOr, Lit(lo))))
            == ParenT(BinT(BitOr, BinT(Shl, CastT(IntT(128, false), Leaf(hi)), Leaf(DecimalText(64))), Leaf(lo)))
  {
    var cast := Cast(IntT(128, false), Lit(hi));
    var shl := Bin(cast, Shl, Lit(DecimalText(64)));
    assert Reading(cast) == CastT(IntT(128, false), Leaf(hi));
    assert Reading(shl) == BinT(Shl, CastT(IntT(128, false), Leaf(hi)), Leaf(DecimalText(64)));
    assert Reading(Bin(shl, BitOr, Lit(lo))) == BinT(BitOr, Reading(shl), Leaf(lo));
  }

  lemma WordReads(t: Text, rest: seq<Token>)
    requires IsPrimary(t) && NoPostfix(rest)
    ensures ReadCast([Word(t)] + rest) == Got(Leaf(t), rest)
  {
    hide ReadCast;
    ReadsCast(Lit(t), rest);
  }

  /** `-5LL` */
  lemma NegativeReads(t: Text, rest: seq<Token>)
    requires IsPrimary(t) && NoPostfix(rest)
    ensures ReadCast([P(Minus), Word(t)] + rest) == Got(UnT(Minus, Leaf(t)), rest)
  {
    hide ReadCast;
    WordReads(t, rest);
    var s := [P(Minus), Word(t)] + rest;
    assert s[1..] == [Word(t)] + rest;
    StepUnary(s, Leaf(t), rest);
  }

  lemma CastReads(s: seq<Token>, t: Tree)
    requires ReadCast(s) == Got(t, [])
    ensures ReadExpr(s) == Got(t, [])
  {
    hide ReadCast, ReadBin, ReadExpr, ReadBinTail;
    StepBin(s, t, [], 1);
    StopBinTail(t, [], 1);
    StopExpr(s, t, []);
  }

  /** `-9223372036854775807LL - 1LL` */
  lemma DifferenceReads(t: Text, u: Text, rest: seq<Token>)
    requires IsPrimary(t) && IsPrimary(u) && NoPostfix(rest) && Operator(rest).None? && !At(rest, Question)
    ensures ReadExpr([P(Minus), Word(t), P(Minus), Word(u)] + rest)
            == Got(BinT(Sub, UnT(Minus, Leaf(t)), Leaf(u)), rest)
  {
    hide ReadCast, ReadBin, ReadExpr, ReadBinTail, IsPrimary;
    var s, s1 := [P(Minus), Word(t), P(Minus), Word(u)] + rest, [P(Minus), Word(u)] + rest;
    var left, whole := UnT(Minus, Leaf(t)), BinT(Sub, UnT(Minus, Leaf(t)), Leaf(u));
    assert s == [P(Minus), Word(t)] + s1;
    NegativeReads(t, s1);
    StepBin(s, left, s1, 1);
    assert s1[1..] == [Word(u)] + rest;
    WordReads(u, rest);
    StepBin(s1[1..], Leaf(u), rest, Prec(Sub) + 1);
    StopBinTail(Leaf(u), rest, Prec(Sub) + 1);
    StepBinTail(left, s1, Sub, Leaf(u), rest, 1);
    StopBinTail(whole, rest, 1);
    StopExpr(s, whole, rest);
  }

  lemma MinReads()
    ensures ReadExpr(LiteralTokens(I64_MIN)) == Got(LiteralTree(I64_MIN), [])
  {
    hide ReadCast, ReadBin, ReadExpr, ReadBinTail, ReadUnary, ReadPostfix;
    var t, u := IntText(I64_MAX), IntText(1);
    var s := LiteralTokens(I64_MIN);
    DifferenceReads(t, u, [P(RParen)]);
    assert s[1..] == [P(Minus), Word(t), P(Minus), Word(u)] + [P(RParen)];
    assert PostfixFront(s) && ReadPrimary(s) == Got(LiteralTree(I64_MIN), []);
    ParenToCast(s, LiteralTree(I64_MIN), []);
    CastReads(s, LiteralTree(I64_MIN));
  }

  /** Every constant's text reads as its tree. */
  lemma LiteralReads(i: int)
    ensures ReadExpr(LiteralTokens(i)) == Got(LiteralTree(i), [])
  {
    hide ReadExpr, ReadCast, Pow2, HalvesExpr, HalvesTree;
    if 0 <= i <= I64_MAX {
      WordReads(IntText(i), []);
      assert [Word(IntText(i))] + [] == LiteralTokens(i);
      CastReads(LiteralTokens(i), LiteralTree(i));
    } else if I64_MIN < i < 0 {
      NegativeReads(IntText(-i), []);
      assert [P(Minus), Word(IntText(-i))] + [] == LiteralTokens(i);
      CastReads(LiteralTokens(i), LiteralTree(i));
    } else if i == I64_MIN {
      MinReads();
    } else {
      HalvesShaped(i % Pow2(128));
      PrintThenRead(Paren(Cast(IntT(128, true), HalvesExpr(i % Pow2(128)))));
    }
  }

  /** Every integer constant's text, read and evaluated, is what the model takes the
      operand to denote. */
  lemma LiteralValue(i: int, temps: Vars<Num>, ptr: nat)
    requires InRange(128, true, i)
    ensures Execute(LiteralTokens(i), temps, ptr) == Denote(IntText(i), temps)
  {
    hide ReadExpr, LiteralTokens, LiteralTree, EvalTree, Denote;
    LiteralReads(i);
    TreeValue(i, temps, ptr);
  }

  lemma UintLiteralValue(u: int, temps: Vars<Num>, ptr: nat)
    requires InRange(128, false, u)
    ensures Execute(UintTokens(u), temps, ptr) == Denote(UintText(u), temps)
  {
    hide ReadExpr, Pow2, HalvesExpr, HalvesTree, EvalTree, Print;
    if u <= U64_MAX {
      UintReads(u);
      LeafValue(UintText(u), temps, ptr);
    } else {
      HalvesShaped(u);
      PrintThenRead(HalvesExpr(u));
      HalvesValue(u, temps, ptr);
    }
  }

  lemma UintReads(u: int)
    requires 0 <= u <= U64_MAX
    ensures ReadExpr(UintTokens(u)) == Got(Leaf(UintText(u)), [])
  {
    hide ReadExpr, ReadCast;
    WordReads(UintText(u), []);
    assert [Word(UintText(u))] + [] == UintTokens(u);
    CastReads(UintTokens(u), Leaf(UintText(u)));
  }

  lemma LeafValue(t: Text, temps: Vars<Num>, ptr: nat)
    ensures EvalTree(Leaf(t), temps, ptr) == Denote(t, temps)
  {
  }
}
