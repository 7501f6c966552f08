/** The value a read-modify-write loop tries to store: the emitted text against the
    typeless operation, and the loops that use it. */
module AtomicOps {
  import opened Wrappers
  import opened IntMath
  import opened CSyntax
  import opened CSemantics
  import opened IntLowering
  import StandardTypes
  import UnsignedLiterals
  import CasLoops

  datatype RmwOp = Nand | Min | Max | UMin | UMax

  /** `c ? a : b` without parentheses, as the raw text is written. */
  function CondText(c: CExpr, a: CExpr, b: CExpr): seq<Token> {
    Print(c) + ([P(Question)] + (Print(a) + ([P(Colon)] + Print(b))))
  }

  function NandExpr(prev: Operand, s: Operand): CExpr {
    Un(BitNot, Paren(Bin(Var(prev.text), BitAnd, Var(s.text))))
  }

  function CompareOp(op: RmwOp): BinOp {
    if op.Min? || op.UMin? then Lt else Gt
  }

  /** The text assigned to `desired`. */
  function DesiredText(op: RmwOp, prev: Operand, s: Operand): seq<Token> {
    if op.Nand? then Print(NandExpr(prev, s))
    else
      var plain := CondText(Bin(Var(prev.text), CompareOp(op), Var(s.text)), Var(prev.text), Var(s.text));
      if op.Min? || op.Max? then plain
      else
        match UnsignedType(prev.ty)
        case None => plain
        case Some(ut) =>
          var o, v := Cast(ut, Var(prev.text)), Cast(ut, Var(s.text));
          [P(LParen), Type(prev.ty), P(RParen)]
            + ([P(LParen)] + (CondText(Bin(o, CompareOp(op), v), o, v) + [P(RParen)]))
  }

  /** The typeless operation on w-bit patterns. */
  function RmwMeaning(op: RmwOp, a: int, b: int, w: nat): int
    requires w > 0
  {
    match op
    case Nand => Pow2(w) - 1 - BitOp(And(), a, b, w)
    case Min => if S(w, a) < S(w, b) then a else b
    case Max => if S(w, a) > S(w, b) then a else b
    case UMin => if a < b then a else b
    case UMax => if a > b then a else b
  }

  // ----- reading the raw text -----

  lemma ReadsCond(c: CExpr, a: CExpr, b: CExpr, rest: seq<Token>)
    requires Shaped(c) && Shaped(a) && Shaped(b) && Level(c) >= 1 && Level(a) >= 1 && Level(b) >= 1
    requires NoPostfix(rest) && Operator(rest).None? && !At(rest, Question)
    ensures ReadExpr(CondText(c, a, b) + rest) == Got(CondT(Reading(c), Reading(a), Reading(b)), rest)
  {
    hide ReadExpr, ReadBin, ReadBinTail, Print, Shaped, Reading, Level, Operator, NoPostfix;
    var s3 := Print(b) + rest;
    var s2 := Print(a) + ([P(Colon)] + s3);
    var s1 := Print(c) + ([P(Question)] + s2);
    assert CondText(c, a, b) + rest == s1;
    Separator(Question, s2);
    Separator(Colon, s3);
    ReadsBin(c, [P(Question)] + s2, 1);
    StopBinTail(Reading(c), [P(Question)] + s2, 1);
    ReadsExpr(a, [P(Colon)] + s3);
    ReadsExpr(b, rest);
    StepTernary(s1, Reading(c), [P(Question)] + s2, Reading(a), [P(Colon)] + s3, Reading(b), rest);
  }

  /** `(t)(c ? a : b)` */
  lemma ReadsCastCond(ty: TypeName, c: CExpr, a: CExpr, b: CExpr)
    requires Shaped(c) && Shaped(a) && Shaped(b) && Level(c) >= 1 && Level(a) >= 1 && Level(b) >= 1
    ensures ReadExpr([P(LParen), Type(ty), P(RParen)] + ([P(LParen)] + (CondText(c, a, b) + [P(RParen)])))
            == Got(CastT(ty, ParenT(CondT(Reading(c), Reading(a), Reading(b)))), [])
  {
    var t := ParenT(CondT(Reading(c), Reading(a), Reading(b)));
    var inner := [P(LParen)] + (CondText(c, a, b) + [P(RParen)]);
    var s := [P(LParen), Type(ty), P(RParen)] + inner;
    ReadsCond(c, a, b, [P(RParen)]);
    ParenAround(c, a, b);
    assert s[3..] == inner;
    hide ReadExpr, ReadBin, ReadBinTail, ReadCast, ReadUnary, ReadPrimary, CondText;
    ParenToCast(inner, t, []);
    StepCast(s, t, []);
    StepBin(s, CastT(ty, t), [], 1);
    StopBinTail(CastT(ty, t), [], 1);
    StopExpr(s, CastT(ty, t), []);
  }

  lemma ParenAround(c: CExpr, a: CExpr, b: CExpr)
    requires Shaped(c) && Shaped(a) && Shaped(b)
    requires ReadExpr(CondText(c, a, b) + [P(RParen)]) == Got(CondT(Reading(c), Reading(a), Reading(b)), [P(RParen)])
    ensures var inner := [P(LParen)] + (CondText(c, a, b) + [P(RParen)]);
            PostfixFront(inner) && ReadPrimary(inner) == Got(ParenT(CondT(Reading(c), Reading(a), Reading(b))), [])
  {
    hide ReadExpr, Reading, Shaped;
    FirstToken(c);
    var inner := [P(LParen)] + (CondText(c, a, b) + [P(RParen)]);
    assert inner[1] == Print(c)[0];
    assert inner[1..] == CondText(c, a, b) + [P(RParen)];
  }

  // ----- its value -----

  lemma EvalCond(c: CExpr, a: CExpr, b: CExpr, temps: Vars<Num>, ptr: nat)
    requires Eval(c, temps, ptr).Some? && Eval(a, temps, ptr).Some? && Eval(b, temps, ptr).Some?
    ensures var p := Balance(Eval(a, temps, ptr).value, Eval(b, temps, ptr).value);
            EvalTree(CondT(Reading(c), Reading(a), Reading(b)), temps, ptr)
              == Some(if Eval(c, temps, ptr).value.v != 0 then p.0 else p.1)
  {
    hide Eval, EvalTree, Balance, Reading;
    CondTreeChooses(c, a, b, temps, ptr);
    TernaryChooses(c, a, b, temps, ptr);
  }

  /** Comparing and picking on exact values. */
  lemma PickExact(op: RmwOp, x: Num, y: Num)
    requires !op.Nand? && ValidNum(x) && ValidNum(y)
    requires (x.v >= 0 && y.v >= 0) || (Promote(x).signed && Promote(y).signed)
    ensures Apply(CompareOp(op), x, y) == Some(Truth(if op.Min? || op.UMin? then x.v < y.v else x.v > y.v))
    ensures Balance(x, y).0.v == x.v && Balance(x, y).1.v == y.v
  {
    hide Wrap;
    BalanceExact(x, y);
  }

  /** What rustc's codegen guarantees: signed minimum on signed types, unsigned
      minimum on any, with the operand of that type. */
  predicate RmwOk(op: RmwOp, prev: Operand, s: Operand, tys: Vars<TypeName>, ptr: nat) {
    && Sized(prev.ty, ptr) && Sized(s.ty, ptr) && Width(prev.ty, ptr) == Width(s.ty, ptr) > 1
    && Known(prev, tys) && Known(s, tys) && IsVar(prev.text)
    && (op.Min? || op.Max? ==> ShowsSigned(prev, ptr) && ShowsSigned(s, ptr))
    && ((op.UMin? || op.UMax?) && !Signed(prev.ty) ==> ShowsUnsigned(prev, ptr) && ShowsUnsigned(s, ptr))
  }

  /** Only minimum and maximum ask anything of the operand's text. */
  lemma NandTakesAny(prev: Operand, s: Operand, tys: Vars<TypeName>, ptr: nat)
    requires Sized(prev.ty, ptr) && s.ty == prev.ty
    requires Width(prev.ty, ptr) > 1 && Known(prev, tys) && Known(s, tys) && IsVar(prev.text)
    ensures RmwOk(Nand, prev, s, tys, ptr)
  {
  }

  ghost predicate Computes(text: seq<Token>, temps: Vars<Num>, ty: TypeName, ptr: nat, m: int)
    requires Width(ty, ptr) > 1
  {
    && Execute(text, temps, ptr).Some?
    && Convert(Width(ty, ptr), Signed(ty), Execute(text, temps, ptr).value.v) == Canon(ty, ptr, m).v
  }

  lemma ComparisonShaped(op: RmwOp, l: Text, r: Text)
    ensures Shaped(Bin(Var(l), CompareOp(op), Var(r))) && Shaped(Var(l)) && Shaped(Var(r))
    ensures Level(Bin(Var(l), CompareOp(op), Var(r))) >= 1 && Level(Var(l)) >= 1 && Level(Var(r)) >= 1
  {
    LeafShaped(l);
    LeafShaped(r);
    BinShaped(Var(l), CompareOp(op), Var(r));
  }

  lemma ComparisonParts(op: RmwOp, l: Text, r: Text, x: Num, y: Num, temps: Vars<Num>, ptr: nat)
    requires Denote(l, temps) == Some(x) && Denote(r, temps) == Some(y)
    ensures Eval(Var(l), temps, ptr) == Some(x) && Eval(Var(r), temps, ptr) == Some(y)
    ensures Eval(Bin(Var(l), CompareOp(op), Var(r)), temps, ptr) == Apply(CompareOp(op), x, y)
  {
    hide Apply, Denote, Combine;
    CombineApplies(CompareOp(op), x, y);
  }

  lemma PlainText(op: RmwOp, prev: Operand, s: Operand, x: Num, y: Num, temps: Vars<Num>, ptr: nat)
    requires !op.Nand? && Denote(prev.text, temps) == Some(x) && Denote(s.text, temps) == Some(y)
    requires ValidNum(x) && ValidNum(y) && ((x.v >= 0 && y.v >= 0) || (Promote(x).signed && Promote(y).signed))
    ensures var text := CondText(Bin(Var(prev.text), CompareOp(op), Var(s.text)), Var(prev.text), Var(s.text));
            && Execute(text, temps, ptr).Some?
            && Execute(text, temps, ptr).value.v
              == if (if op.Min? || op.UMin? then x.v < y.v else x.v > y.v) then x.v else y.v
  {
    hide Apply, Balance, Denote, ReadExpr, Promote, InRange, Shaped, Level, Eval;
    var c, a, b := Bin(Var(prev.text), CompareOp(op), Var(s.text)), Var(prev.text), Var(s.text);
    ComparisonShaped(op, prev.text, s.text);
    ComparisonParts(op, prev.text, s.text, x, y, temps, ptr);
    PickExact(op, x, y);
    ReadsCond(c, a, b, []);
    assert CondText(c, a, b) + [] == CondText(c, a, b);
    EvalCond(c, a, b, temps, ptr);
  }

  lemma CastText(op: RmwOp, ty: TypeName, ut: TypeName, prev: Operand, s: Operand, x: Num, y: Num, w: nat,
                 temps: Vars<Num>, ptr: nat)
    requires !op.Nand? && Width(ty, ptr) == w > 1
    requires Eval(Cast(ut, Var(prev.text)), temps, ptr) == Some(x) && Eval(Cast(ut, Var(s.text)), temps, ptr) == Some(y)
    requires ValidNum(x) && ValidNum(y) && x.v >= 0 && y.v >= 0
    ensures var o, v := Cast(ut, Var(prev.text)), Cast(ut, Var(s.text));
            var text := [P(LParen), Type(ty), P(RParen)]
                + ([P(LParen)] + (CondText(Bin(o, CompareOp(op), v), o, v) + [P(RParen)]));
            && Execute(text, temps, ptr).Some?
            && Execute(text, temps, ptr).value.v ==
               Convert(w, Signed(ty), if (if op.Min? || op.UMin? then x.v < y.v else x.v > y.v) then x.v else y.v)
  {
    hide Apply, Balance, Denote, ReadExpr, Promote, InRange, Convert, Eval, Wrap, Pow2, TypeOfTree;
    var a, b := Cast(ut, Var(prev.text)), Cast(ut, Var(s.text));
    var c := Bin(a, CompareOp(op), b);
    CastShaped(ut, prev.text);
    CastShaped(ut, s.text);
    EvalParenBin(CompareOp(op), a, b, temps, ptr);
    PickExact(op, x, y);
    ReadsCastCond(ty, c, a, b);
    EvalCond(c, a, b, temps, ptr);
    var t := CondT(Reading(c), Reading(a), Reading(b));
    assert EvalTree(ParenT(t), temps, ptr) == EvalTree(t, temps, ptr);
  }

  lemma MinMaxValue(op: RmwOp, prev: Operand, s: Operand, temps: Vars<Num>, pats: Vars<int>, tys: Vars<TypeName>,
                    ptr: nat)
    requires !op.Nand? && Canonical(temps, pats, tys, ptr) && RmwOk(op, prev, s, tys, ptr)
    ensures Computes(DesiredText(op, prev, s), temps, prev.ty, ptr,
                     RmwMeaning(op, Pattern(prev, pats, ptr), Pattern(s, pats, ptr), Width(prev.ty, ptr)))
  {
    hide Apply, Canonical, Known, Pattern, Denote, Eval, Execute, CondText, Convert, Cong;
    var x, a := GetFacts(prev, temps, pats, tys, ptr);
    var y, b := GetFacts(s, temps, pats, tys, ptr);
    var w := Width(prev.ty, ptr);
    var m := RmwMeaning(op, a, b, w);
    SignedHasUnsigned(prev.ty, ptr);
    if (op.UMin? || op.UMax?) && Signed(prev.ty) {
      UnsignedWidth(prev.ty, ptr);
      var ut := UnsignedType(prev.ty).value;
      EvalVar(prev, temps, ptr);
      EvalVar(s, temps, ptr);
      CastPattern(Var(prev.text), x, a, w, ut, temps, ptr);
      CastPattern(Var(s.text), y, b, w, ut, temps, ptr);
      CastText(op, prev.ty, ut, prev, s, Canon(ut, ptr, a), Canon(ut, ptr, b), w, temps, ptr);
      StoredTwice(m, w, Signed(prev.ty));
    } else {
      SignedPromotes(x, y);
      PlainText(op, prev, s, x, y, temps, ptr);
      StoredOnce(if op.Min? || op.Max? then S(w, m) else m, m, w, Signed(prev.ty));
    }
  }

  lemma SignedPromotes(x: Num, y: Num)
    ensures x.signed ==> Promote(x).signed
    ensures y.signed ==> Promote(y).signed
  {
  }

  lemma StoredOnce(v: int, m: int, w: nat, signed: bool)
    requires w > 1 && (v == m || v == S(w, m))
    ensures Convert(w, signed, v) == Wrap(w, signed, m)
  {
    WrapCong(w, true, m);
    WrapOfCong(w, signed, S(w, m), m);
  }

  lemma StoredTwice(m: int, w: nat, signed: bool)
    requires w > 1
    ensures Convert(w, signed, Convert(w, signed, m)) == Wrap(w, signed, m)
  {
    WrapCong(w, signed, m);
    WrapOfCong(w, signed, Wrap(w, signed, m), m);
  }

  lemma NandValue(prev: Operand, s: Operand, temps: Vars<Num>, pats: Vars<int>, tys: Vars<TypeName>, ptr: nat)
    requires Canonical(temps, pats, tys, ptr) && RmwOk(Nand, prev, s, tys, ptr)
    ensures Computes(DesiredText(Nand, prev, s), temps, prev.ty, ptr,
                     RmwMeaning(Nand, Pattern(prev, pats, ptr), Pattern(s, pats, ptr), Width(prev.ty, ptr)))
  {
    hide Apply, Canonical, Known, Pattern, Denote, Eval, Execute, Convert, Cong, ApplyUnary, BitOp, Wrap;
    var x, a := GetFacts(prev, temps, pats, tys, ptr);
    var y, b := GetFacts(s, temps, pats, tys, ptr);
    var w := Width(prev.ty, ptr);
    EvalVar(prev, temps, ptr);
    EvalVar(s, temps, ptr);
    EvalParenBin(BitAnd, Var(prev.text), Var(s.text), temps, ptr);
    ModularApply(IAnd, x, y, a, b, w);
    AndWidth(x, y);
    var n := Apply(BitAnd, x, y).value;
    var anded := Paren(Bin(Var(prev.text), BitAnd, Var(s.text)));
    EvalUn(BitNot, anded, temps, ptr);
    NotStored(n, BitOp(And(), a, b, w), w, Signed(prev.ty));
    LeafShaped(prev.text);
    LeafShaped(s.text);
    BinShaped(Var(prev.text), BitAnd, Var(s.text));
    ExecutePrinted(NandExpr(prev, s), temps, ptr);
  }

  lemma AndWidth(x: Num, y: Num)
    requires ValidNum(x) && ValidNum(y)
    ensures Apply(BitAnd, x, y).Some?
    ensures ValidNum(Apply(BitAnd, x, y).value) && Apply(BitAnd, x, y).value.bits == CommonBits(Promote(x), Promote(y))
  {
    hide Wrap, BitOp;
  }

  /** What each loop stores is the typeless result, on all inputs rustc can pass. */
  lemma DesiredIsMeaning(op: RmwOp, prev: Operand, s: Operand, temps: Vars<Num>, pats: Vars<int>, tys: Vars<TypeName>,
                         ptr: nat)
    requires Canonical(temps, pats, tys, ptr) && RmwOk(op, prev, s, tys, ptr)
    ensures Computes(DesiredText(op, prev, s), temps, prev.ty, ptr,
                     RmwMeaning(op, Pattern(prev, pats, ptr), Pattern(s, pats, ptr), Width(prev.ty, ptr)))
  {
    if op.Nand? {
      NandValue(prev, s, temps, pats, tys, ptr);
    } else {
      MinMaxValue(op, prev, s, temps, pats, tys, ptr);
    }
  }

  // ----- minimum and maximum with an unsigned literal of signed type -----

  /** When the n-bit unsigned order of a w-bit signed x and the literal u picks what
      the signed order of their patterns does. */
  predicate OrderAgrees(x: int, u: int, w: nat, n: nat)
    requires w > 0
  {
    if u < Pow2(w - 1) then x >= 0 else x < 0 && (n == w || x >= u - Pow2(w))
  }

  /** The loop's conditional on a signed variable and an unsigned literal. */
  lemma MinMaxByUnsignedLiteral(op: RmwOp, prev: Operand, u: int, temps: Vars<Num>, pats: Vars<int>,
                                tys: Vars<TypeName>, ptr: nat)
    requires (op.Min? || op.Max?) && Canonical(temps, pats, tys, ptr) && Sized(prev.ty, ptr) && Signed(prev.ty)
    requires 1 < Width(prev.ty, ptr) <= 128 && IsVar(prev.text) && Known(prev, tys)
             && 0 <= u < Pow2(Width(prev.ty, ptr))
    ensures var s, a, w := Operand(UintText(u), prev.ty), Pattern(prev, pats, ptr), Width(prev.ty, ptr);
            Computes(DesiredText(op, prev, s), temps, prev.ty, ptr, RmwMeaning(op, a, u, w))
            <==> w > TextBits(s, ptr) || OrderAgrees(S(w, a), u, w, TextBits(s, ptr))
  {
    hide Canonical, Known, Pattern, Denote, Execute, CondText, Convert, Cong, Pow2, Wrap, S, Balance, OrderAgrees;
    var s, w := Operand(UintText(u), prev.ty), Width(prev.ty, ptr);
    var x, a := GetFacts(prev, temps, pats, tys, ptr);
    var n := TextBits(s, ptr);
    UnsignedLiterals.UnsignedText(u, prev.ty, temps, ptr);
    var y := Num(n, false, u);
    assert x == Num(w, true, S(w, a)) && ValidNum(x) by { VariableSigned(prev, x, a, ptr); }
    PickedText(op, prev, s, x, y, temps, ptr);
    UnsignedLiterals.CommonTypes(x, u, n);
    if w > n {
      WideOrder(op, a, u, w, n);
    } else {
      NarrowOrder(op, a, u, w, n);
    }
  }

  /** The smaller of -1 and 3ULL comes out as 3. */
  lemma MinMaxFails()
    ensures !OrderAgrees(-1, 3, 32, 64)
  {
    hide Pow2;
    LiteralRange(64);
  }

  lemma VariableSigned(o: Operand, x: Num, a: int, ptr: nat)
    requires Sized(o.ty, ptr) && Signed(o.ty) && IsVar(o.text) && Facts(o, x, a, Width(o.ty, ptr), ptr)
    ensures x == Num(Width(o.ty, ptr), true, S(Width(o.ty, ptr), a)) && ValidNum(x)
  {
  }

  /** The conditional picks one of the two balanced values. */
  lemma PickedText(op: RmwOp, prev: Operand, s: Operand, x: Num, y: Num, temps: Vars<Num>, ptr: nat)
    requires (op.Min? || op.Max?) && Denote(prev.text, temps) == Some(x) && Denote(s.text, temps) == Some(y)
    ensures var p := Balance(x, y);
            && Execute(DesiredText(op, prev, s), temps, ptr).Some?
            && Execute(DesiredText(op, prev, s), temps, ptr).value.v
               == if (if op.Min? then p.0.v < p.1.v else p.0.v > p.1.v) then p.0.v else p.1.v
  {
    hide Apply, Balance, Denote, ReadExpr, Shaped, Level, Eval;
    var c, a, b := Bin(Var(prev.text), CompareOp(op), Var(s.text)), Var(prev.text), Var(s.text);
    ComparisonShaped(op, prev.text, s.text);
    ComparisonParts(op, prev.text, s.text, x, y, temps, ptr);
    Compared(op, x, y);
    ReadsCond(c, a, b, []);
    assert CondText(c, a, b) + [] == CondText(c, a, b);
    EvalCond(c, a, b, temps, ptr);
  }

  lemma Compared(op: RmwOp, x: Num, y: Num)
    requires op.Min? || op.Max?
    ensures var p := Balance(x, y);
            Apply(CompareOp(op), x, y) == Some(Truth(if op.Min? then p.0.v < p.1.v else p.0.v > p.1.v))
  {
    hide Balance;
  }

  /** Compared in the variable's own, wider type. */
  lemma WideOrder(op: RmwOp, a: int, u: int, w: nat, n: nat)
    requires (op.Min? || op.Max?) && 1 < n < w && 0 <= a < Pow2(w) && 0 <= u < Pow2(n)
    ensures var x := S(w, a);
            var picked := if (if op.Min? then x < u else x > u) then x else u;
            Convert(w, true, picked) == Wrap(w, true, RmwMeaning(op, a, u, w))
  {
    hide Pow2, Wrap, S, Convert;
    Double(w);
    Pow2Monotone(n, w - 1);
    UnsignedLiterals.SignedPattern(w, u);
    var m := RmwMeaning(op, a, u, w);
    StoredOnce(if m == a then S(w, a) else u, m, w, true);
  }

  /** Compared in the literal's type, without sign. */
  lemma NarrowOrder(op: RmwOp, a: int, u: int, w: nat, n: nat)
    requires (op.Min? || op.Max?) && 1 < w <= n && 0 <= a < Pow2(w) && 0 <= u < Pow2(w)
    ensures var x := S(w, a);
            var z := x % Pow2(n);
            var picked := if (if op.Min? then z < u else z > u) then z else u;
            Convert(w, true, picked) == Wrap(w, true, RmwMeaning(op, a, u, w)) <==> OrderAgrees(x, u, w, n)
  {
    hide Pow2, Wrap, S, Convert, Cong;
    UnsignedLiterals.Sizes(w, n);
    UnsignedLiterals.Sizes(w, w);
    var x, m := S(w, a), Pow2(w);
    var z := x % Pow2(n);
    UnsignedLiterals.SignedPattern(w, a);
    UnsignedLiterals.SignedPattern(w, u);
    if x >= 0 { DivModUnique(x, Pow2(n), 0, x); } else { DivModUnique(x, Pow2(n), -1, x + Pow2(n)); }
    if n > w {
      Double(w + 1);
      Pow2Monotone(w + 1, n);
    }
    SamePattern(x, a, w, n);
    var picked := if (if op.Min? then z < u else z > u) then z else u;
    var meant := RmwMeaning(op, a, u, w);
    StoredIff(picked, meant, w, true);
    PatternsApart(z, a, u, meant, m);
  }

  lemma SamePattern(x: int, a: int, w: nat, n: nat)
    requires 1 < w <= n && 0 <= a < Pow2(w) && x == S(w, a)
    ensures Cong(x % Pow2(n), a, Pow2(w))
  {
    hide Pow2, Wrap;
    WrapCong(w, true, a);
    WrapCongNarrow(n, false, x, w);
    UnsignedLiterals.WrapUnsigned(n, x);
    CongTrans(x % Pow2(n), x, a, Pow2(w));
  }

  lemma PatternsApart(z: int, a: int, u: int, meant: int, m: int)
    requires 0 <= a < m && 0 <= u < m && Cong(z, a, m) && (meant == a || meant == u)
    ensures Cong(z, meant, m) <==> meant == a
    ensures Cong(u, meant, m) <==> meant == u
  {
    DivModUnique(a, m, 0, a);
    DivModUnique(u, m, 0, u);
  }

  // ----- requests on one cell -----

  /** What a thread asks of the cell; operands are texts of its own function. */
  datatype Request =
    | Update(rop: RmwOp, operand: Operand)    // a compare-exchange loop
    | Fetch(iop: IntOp, operand: Operand)     // a fetch-and-modify builtin
    | Exchange(operand: Operand)              // atomic_exchange
    | Store(operand: Operand)                 // the 128-bit store loop
    | Swap(operand: Operand)                  // the 128-bit exchange loop
    | Load                                    // the 128-bit load
    | Compare(wanted: Operand, operand: Operand) // a strong compare-exchange

  /** A request with its function's variables: their numbers, patterns and types. */
  datatype Client = Client(req: Request, temps: Vars<Num>, pats: Vars<int>, tys: Vars<TypeName>)

  /** The temporary that receives the value found in the cell. */
  function Seen(ty: TypeName, c: Client): Operand {
    Operand(Temp(|c.temps.temps|), ty)
  }

  /** The integer an operand passes to a parameter of type ty. */
  function Passed(s: Operand, temps: Vars<Num>, ty: TypeName, ptr: nat): int
    requires Width(ty, ptr) > 1
  {
    match Denote(s.text, temps)
    case None => 0
    case Some(n) => Convert(Width(ty, ptr), Signed(ty), n.v)
  }

  /** The loop body as a function of the integer found in the cell. */
  function Desired(op: RmwOp, ty: TypeName, c: Client, s: Operand, ptr: nat, seen: int): int
    requires Width(ty, ptr) > 1
  {
    match Execute(DesiredText(op, Seen(ty, c), s), Push(c.temps, Num(Width(ty, ptr), Signed(ty), seen)), ptr)
    case None => 0
    case Some(n) => Convert(Width(ty, ptr), Signed(ty), n.v)
  }

  /** A builtin works on the cell's type and wraps. */
  function Fetched(op: IntOp, ty: TypeName, operand: int, ptr: nat, seen: int): int
    requires Width(ty, ptr) > 1 && Modular(op)
  {
    var w, signed := Width(ty, ptr), Signed(ty);
    match Apply(ModularOp(op), Num(w, signed, seen), Num(w, signed, operand))
    case None => 0
    case Some(n) => Convert(w, signed, n.v)
  }

  predicate Supported(r: Request) {
    r.Fetch? ==> Modular(r.iop)
  }

  /** The emitted operation. */
  function Emitted(c: Client, ty: TypeName, ptr: nat): CasLoops.Op
    requires Width(ty, ptr) > 1 && Supported(c.req)
  {
    match c.req
    case Update(op, s) => CasLoops.Rmw(seen => Desired(op, ty, c, s, ptr, seen))
    case Fetch(op, s) => CasLoops.Fetch(seen => Fetched(op, ty, Passed(s, c.temps, ty, ptr), ptr, seen))
    case Exchange(s) => CasLoops.Fetch(seen => Passed(s, c.temps, ty, ptr))
    case Store(s) => CasLoops.StoreLoop(Passed(s, c.temps, ty, ptr))
    case Swap(s) => CasLoops.SwapLoop(Passed(s, c.temps, ty, ptr))
    case Load => CasLoops.LoadByCas
    case Compare(wanted, s) => CasLoops.CompareExchange(Passed(wanted, c.temps, ty, ptr), Passed(s, c.temps, ty, ptr))
  }

  /** The typeless operation on the cell's pattern a. */
  function Typeless(c: Client, a: int, ty: TypeName, ptr: nat): int
    requires Width(ty, ptr) > 1 && Supported(c.req)
  {
    var w := Width(ty, ptr);
    match c.req
    case Update(op, s) => RmwMeaning(op, a, Pattern(s, c.pats, ptr), w)
    case Fetch(op, s) => (match BinaryMeaning(op, a, Pattern(s, c.pats, ptr), w) case None => 0 case Some(m) => m)
    case Load => a
    case Compare(wanted, s) => if a == Pattern(wanted, c.pats, ptr) then Pattern(s, c.pats, ptr) else a
    case _ => Pattern(c.req.operand, c.pats, ptr)
  }

  predicate OperandOk(s: Operand, c: Client, ty: TypeName, ptr: nat) {
    Sized(s.ty, ptr) && Width(s.ty, ptr) == Width(ty, ptr) && Known(s, c.tys)
  }

  /** Variables hold canonical integers, operands are as wide as the cell, and what
      rustc's codegen guarantees of minimum and maximum holds. */
  ghost predicate ClientOk(c: Client, ty: TypeName, ptr: nat)
    requires Sized(ty, ptr) && Width(ty, ptr) > 1
  {
    && Supported(c.req) && Canonical(c.temps, c.pats, c.tys, ptr)
    && (!c.req.Load? ==> OperandOk(c.req.operand, c, ty, ptr))
    && (c.req.Compare? ==> OperandOk(c.req.wanted, c, ty, ptr))
    && (c.req.Update? ==> RmwOk(c.req.rop, Seen(ty, c), c.req.operand, Push(c.tys, ty), ptr))
  }

  /** Operands that are variables of the cell's standard type will do. */
  lemma VariableClient(c: Client, ty: TypeName, ptr: nat)
    requires StandardTypes.Standard(ty, ptr) && !ty.BoolT?
    requires StandardTypes.StateAgrees(c.temps, c.pats, c.tys, ptr)
    requires !c.req.Load? ==> c.req.operand.ty == ty && StandardTypes.Variable(c.req.operand, c.tys, ptr)
    requires c.req.Compare? ==> c.req.wanted.ty == ty && StandardTypes.Variable(c.req.wanted, c.tys, ptr)
    requires c.req.Fetch? ==> c.req.iop in {IAdd, ISub, IAnd, IOr, IXor}
    requires c.req.Update? && (c.req.rop.Min? || c.req.rop.Max?) ==> StandardTypes.SignOf(ty)
    ensures Sized(ty, ptr) && Width(ty, ptr) > 1 && Supported(c.req) && ClientOk(c, ty, ptr)
  {
    hide StandardTypes.Agrees, Canonical;
    StandardTypes.StandardIsSized(ty, ptr);
    StandardTypes.CanonicalIsAgreement(c.temps.params, c.pats.params, c.tys.params, ptr);
    StandardTypes.CanonicalIsAgreement(c.temps.temps, c.pats.temps, c.tys.temps, ptr);
    assert Canonical(c.temps, c.pats, c.tys, ptr) by { BothCanonical(c.temps, c.pats, c.tys, ptr); }
    if !c.req.Load? { StandardTypes.VariableFacts(c.req.operand, c.tys, ptr); }
    if c.req.Compare? { StandardTypes.VariableFacts(c.req.wanted, c.tys, ptr); }
    SeenKnown(c, ty, ptr);
  }

  lemma BothCanonical(temps: Vars<Num>, pats: Vars<int>, tys: Vars<TypeName>, ptr: nat)
    requires AllCanonical(temps.params, pats.params, tys.params, ptr)
             && AllCanonical(temps.temps, pats.temps, tys.temps, ptr)
    ensures Canonical(temps, pats, tys, ptr)
  {
  }

  lemma SeenKnown(c: Client, ty: TypeName, ptr: nat)
    requires Canonical(c.temps, c.pats, c.tys, ptr)
    ensures Known(Seen(ty, c), Push(c.tys, ty))
    ensures forall s: Operand | Known(s, c.tys) :: Known(s, Push(c.tys, ty))
  {
  }

  // ----- one operation -----

  lemma PassedCanonical(s: Operand, c: Client, ty: TypeName, ptr: nat)
    requires Sized(ty, ptr) && Width(ty, ptr) > 1 && Canonical(c.temps, c.pats, c.tys, ptr) && OperandOk(s, c, ty, ptr)
    ensures 0 <= Pattern(s, c.pats, ptr) < Pow2(Width(ty, ptr))
    ensures Passed(s, c.temps, ty, ptr) == Canon(ty, ptr, Pattern(s, c.pats, ptr)).v
  {
    hide Canonical, Known, Pattern, Denote, Wrap, Pow2, Convert, Cong;
    var n, b := GetFacts(s, c.temps, c.pats, c.tys, ptr);
    StoreCong(n.v, b, Width(ty, ptr), Signed(ty));
  }

  /** An operand means the same once the temporary for the cell's value is added. */
  lemma OperandStays(s: Operand, c: Client, ty: TypeName, a: int, ptr: nat)
    requires Canonical(c.temps, c.pats, c.tys, ptr) && Known(s, c.tys)
    ensures Known(s, Push(c.tys, ty)) && Pattern(s, Push(c.pats, a), ptr) == Pattern(s, c.pats, ptr)
  {
  }

  lemma SeenStands(c: Client, ty: TypeName, a: int, ptr: nat)
    requires Canonical(c.temps, c.pats, c.tys, ptr)
    ensures Pattern(Seen(ty, c), Push(c.pats, a), ptr) == a
  {
  }

  lemma UpdateStep(c: Client, ty: TypeName, a: int, ptr: nat)
    requires Sized(ty, ptr) && Width(ty, ptr) > 1 && c.req.Update? && ClientOk(c, ty, ptr)
             && 0 <= a < Pow2(Width(ty, ptr))
    ensures Desired(c.req.rop, ty, c, c.req.operand, ptr, Canon(ty, ptr, a).v)
            == Canon(ty, ptr, Typeless(c, a, ty, ptr)).v
  {
    hide RmwMeaning, DesiredText, Execute, Wrap, Convert, Pow2, Canonical, RmwOk, Pattern, Known;
    CanonicalExtend(c.temps, c.pats, c.tys, Canon(ty, ptr, a), a, ty, ptr);
    OperandStays(c.req.operand, c, ty, a, ptr);
    SeenStands(c, ty, a, ptr);
    DesiredIsMeaning(c.req.rop, Seen(ty, c), c.req.operand, Push(c.temps, Canon(ty, ptr, a)), Push(c.pats, a),
                     Push(c.tys, ty), ptr);
  }

  lemma FetchStep(op: IntOp, ty: TypeName, a: int, b: int, ptr: nat)
    requires Sized(ty, ptr) && Width(ty, ptr) > 1 && Modular(op) && 0 <= a < Pow2(Width(ty, ptr))
             && 0 <= b < Pow2(Width(ty, ptr))
    ensures BinaryMeaning(op, a, b, Width(ty, ptr)).Some?
    ensures Fetched(op, ty, Canon(ty, ptr, b).v, ptr, Canon(ty, ptr, a).v)
            == Canon(ty, ptr, BinaryMeaning(op, a, b, Width(ty, ptr)).value).v
  {
    hide Wrap, Convert, Pow2, BinaryMeaning, Apply, Cong;
    var w, signed := Width(ty, ptr), Signed(ty);
    WrapCong(w, signed, a);
    WrapCong(w, signed, b);
    ModularDefined(op, a, b, w);
    ModularApply(op, Canon(ty, ptr, a), Canon(ty, ptr, b), a, b, w);
    StoreCong(Apply(ModularOp(op), Canon(ty, ptr, a), Canon(ty, ptr, b)).value.v, BinaryMeaning(op, a, b, w).value, w,
              signed);
  }

  lemma RmwFits(op: RmwOp, a: int, b: int, w: nat)
    requires w > 0 && 0 <= a < Pow2(w) && 0 <= b < Pow2(w)
    ensures 0 <= RmwMeaning(op, a, b, w) < Pow2(w)
  {
    hide Pow2, S, Wrap;
  }

  lemma CanonEqual(ty: TypeName, ptr: nat, a: int, b: int)
    requires Width(ty, ptr) > 0 && 0 <= a < Pow2(Width(ty, ptr)) && 0 <= b < Pow2(Width(ty, ptr))
    ensures Canon(ty, ptr, a).v == Canon(ty, ptr, b).v <==> a == b
  {
    hide Wrap, Pow2;
    var w := Width(ty, ptr);
    WrapCong(w, Signed(ty), a);
    WrapCong(w, Signed(ty), b);
    DivModUnique(a, Pow2(w), 0, a);
    DivModUnique(b, Pow2(w), 0, b);
  }

  /** At the instant an operation takes effect the cell goes from the canonical
      integer of a pattern to that of the typeless result. */
  lemma LoopIsTypelessOperation(c: Client, ty: TypeName, a: int, ptr: nat)
    requires Sized(ty, ptr) && Width(ty, ptr) > 1 && ClientOk(c, ty, ptr) && 0 <= a < Pow2(Width(ty, ptr))
    ensures 0 <= Typeless(c, a, ty, ptr) < Pow2(Width(ty, ptr))
    ensures CasLoops.After(Emitted(c, ty, ptr), Canon(ty, ptr, a).v) == Canon(ty, ptr, Typeless(c, a, ty, ptr)).v
  {
    hide Canonical, OperandOk, RmwOk, Known, Pattern, Pow2, Canon, RmwMeaning, BinaryMeaning, Desired, Fetched, Passed;
    if !c.req.Load? {
      var b := Pattern(c.req.operand, c.pats, ptr);
      PassedCanonical(c.req.operand, c, ty, ptr);
      if c.req.Update? {
        RmwFits(c.req.rop, a, b, Width(ty, ptr));
        UpdateStep(c, ty, a, ptr);
      } else if c.req.Fetch? {
        FetchStep(c.req.iop, ty, a, b, ptr);
        BinaryFits(c.req.iop, a, b, Width(ty, ptr));
      } else if c.req.Compare? {
        PassedCanonical(c.req.wanted, c, ty, ptr);
        CanonEqual(ty, ptr, a, Pattern(c.req.wanted, c.pats, ptr));
      }
    }
  }

  // ----- whole runs -----

  function AllEmitted(cs: seq<Client>, ty: TypeName, ptr: nat): seq<CasLoops.Op>
    requires Width(ty, ptr) > 1 && forall c | c in cs :: Supported(c.req)
  {
    seq(|cs|, i requires 0 <= i < |cs| => Emitted(cs[i], ty, ptr))
  }

  /** The typeless operations one after the other, from the pattern a. */
  function TypelessRun(a: int, cs: seq<Client>, order: seq<CasLoops.Event>, ty: TypeName, ptr: nat): int
    requires Width(ty, ptr) > 1 && (forall c | c in cs :: Supported(c.req)) && forall e | e in order :: e.tid < |cs|
  {
    if order == [] then a
    else Typeless(cs[order[|order| - 1].tid], TypelessRun(a, cs, order[..|order| - 1], ty, ptr), ty, ptr)
  }

  lemma {:induction false} SequentialIsTypeless(a: int, cs: seq<Client>, order: seq<CasLoops.Event>, ty: TypeName,
                                                ptr: nat)
    requires Sized(ty, ptr) && Width(ty, ptr) > 1 && 0 <= a < Pow2(Width(ty, ptr))
    requires (forall c | c in cs :: Supported(c.req) && ClientOk(c, ty, ptr)) && forall e | e in order :: e.tid < |cs|
    ensures 0 <= TypelessRun(a, cs, order, ty, ptr) < Pow2(Width(ty, ptr))
    ensures CasLoops.Sequential(Canon(ty, ptr, a).v, AllEmitted(cs, ty, ptr), order)
            == Canon(ty, ptr, TypelessRun(a, cs, order, ty, ptr)).v
    decreases order
  {
    hide ClientOk, Canon, Pow2, Typeless, Emitted, CasLoops.After;
    if order != [] {
      var before, c := order[..|order| - 1], cs[order[|order| - 1].tid];
      SequentialIsTypeless(a, cs, before, ty, ptr);
      LoopIsTypelessOperation(c, ty, TypelessRun(a, cs, before, ty, ptr), ptr);
    }
  }

  /** Main result: in every run of any threads on one cell, in any interleaving, the
      finished ones have one order, each once, such that the cell holds the canonical
      integer of the typeless operations folded in that order, and each returned
      value is the canonical integer of the pattern its operation found. */
  lemma EveryRunIsTypeless(a: int, cs: seq<Client>, actions: seq<CasLoops.Action>, ty: TypeName, ptr: nat)
    requires Sized(ty, ptr) && Width(ty, ptr) > 1 && 0 <= a < Pow2(Width(ty, ptr))
    requires forall c | c in cs :: Supported(c.req) && ClientOk(c, ty, ptr)
    ensures var s := CasLoops.Run(CasLoops.Launch(Canon(ty, ptr, a).v, AllEmitted(cs, ty, ptr)), actions);
            && |s.threads| == |cs| && CasLoops.Once(s.log) && (forall e | e in s.log :: e.tid < |cs|)
            && s.cell == Canon(ty, ptr, TypelessRun(a, cs, s.log, ty, ptr)).v
            && (forall i: nat | i < |cs| :: s.threads[i].pc.Finished? <==> CasLoops.Logged(s.log, i))
            && (forall k | 0 <= k < |s.log| ::
                  s.threads[s.log[k].tid].ret ==
                  if cs[s.log[k].tid].req.Store? then None
                  else Some(Canon(ty, ptr, TypelessRun(a, cs, s.log[..k], ty, ptr)).v))
  {
    hide ClientOk, Canon, Pow2, CasLoops.Run, CasLoops.Launch, TypelessRun, CasLoops.Sequential;
    var ops := AllEmitted(cs, ty, ptr);
    CasLoops.CasLoopsAreAtomic(Canon(ty, ptr, a).v, ops, actions);
    var s := CasLoops.Run(CasLoops.Launch(Canon(ty, ptr, a).v, ops), actions);
    SequentialIsTypeless(a, cs, s.log, ty, ptr);
    forall k | 0 <= k < |s.log|
      ensures s.threads[s.log[k].tid].ret ==
              if cs[s.log[k].tid].req.Store? then None
              else Some(Canon(ty, ptr, TypelessRun(a, cs, s.log[..k], ty, ptr)).v)
    {
      assert s.log[k] in s.log;
      SequentialIsTypeless(a, cs, s.log[..k], ty, ptr);
      OnlyStoresReturnNone(cs[s.log[k].tid], ty, ptr, CasLoops.Sequential(Canon(ty, ptr, a).v, ops, s.log[..k]));
    }
  }

  lemma OnlyStoresReturnNone(c: Client, ty: TypeName, ptr: nat, found: int)
    requires Width(ty, ptr) > 1 && Supported(c.req)
    ensures CasLoops.Returned(Emitted(c, ty, ptr), found) == if c.req.Store? then None else Some(found)
  {
  }

  /** `__aarch64_ldclr` passes the complement to fetch-and: it clears the bits of
      its operand. */
  lemma {:induction false} ClearIsAndNot(a: int, b: int, n: nat, k: nat)
    requires k < n
    ensures Bit(BitOp(And(), a, BitOp(NotLeft(), b, 0, n), n), k) <==> Bit(a, k) && !Bit(b, k)
  {
    BitOpBit(NotLeft(), b, 0, n, k);
    BitOpBit(And(), a, BitOp(NotLeft(), b, 0, n), n, k);
  }
}
