/** The binary operators by their symbols: how C11 groups a text with several of
    them, and what each computes on unsigned variables. The symbols are given here
    without the builder's operators or the grammar's precedence numbers. */
module COperators {
  import opened Wrappers
  import opened IntMath
  import opened CSyntax
  import opened CSemantics

  /** The operators of sections 6.5.5 to 6.5.14 of C11, tightest first. */
  const ROWS: seq<seq<Punct>> := [
    [Star, Slash, Percent], [Plus, Minus], [LtLt, GtGt], [Less, Greater, LessEq, GreaterEq],
    [EqEq, BangEq], [Amp], [Caret], [Pipe], [AmpAmp], [PipePipe]
  ]

  lemma RowsHaveLevels(i: nat, p: Punct)
    requires i < |ROWS| && p in ROWS[i]
    ensures BinOf(p).Some? && BinPunct(BinOf(p).value) == p && Prec(BinOf(p).value) == 10 - i
  {
  }

  /** Of two operators in a row the first takes the middle operand exactly when it
      binds at least as tightly. */
  lemma Groups(a: Text, x: Punct, b: Text, y: Punct, c: Text, i: nat, j: nat)
    requires IsPrimary(a) && IsPrimary(b) && IsPrimary(c)
    requires i < |ROWS| && x in ROWS[i] && j < |ROWS| && y in ROWS[j]
    ensures BinOf(x).Some? && BinOf(y).Some?
    ensures var (f, g) := (BinOf(x).value, BinOf(y).value);
            ReadExpr([Word(a), P(x), Word(b), P(y), Word(c)])
            == Got(if i <= j then BinT(g, BinT(f, Leaf(a), Leaf(b)), Leaf(c))
                   else BinT(f, Leaf(a), BinT(g, Leaf(b), Leaf(c))), [])
  {
    hide ReadExpr, BinOf, BinPunct, Print, Reading;
    RowsHaveLevels(i, x);
    RowsHaveLevels(j, y);
    var f, g := BinOf(x).value, BinOf(y).value;
    if i <= j { LeftFirst(a, f, b, g, c); } else { RightFirst(a, f, b, g, c); }
  }

  lemma LeftFirst(a: Text, f: BinOp, b: Text, g: BinOp, c: Text)
    requires IsPrimary(a) && IsPrimary(b) && IsPrimary(c) && Prec(f) >= Prec(g)
    ensures ReadExpr([Word(a), P(BinPunct(f)), Word(b), P(BinPunct(g)), Word(c)])
            == Got(BinT(g, BinT(f, Leaf(a), Leaf(b)), Leaf(c)), [])
  {
    hide ReadExpr, BinPunct;
    var l := Bin(Var(a), f, Var(b));
    var e := Bin(l, g, Var(c));
    PrintThenRead(e);
    assert Print(e) == Print(l) + [P(BinPunct(g))] + [Word(c)] && Print(l) == [Word(a), P(BinPunct(f)), Word(b)];
    assert Reading(e) == BinT(g, Reading(l), Leaf(c)) && Reading(l) == BinT(f, Leaf(a), Leaf(b));
    assert Print(e) == [Word(a), P(BinPunct(f)), Word(b), P(BinPunct(g)), Word(c)];
  }

  lemma RightFirst(a: Text, f: BinOp, b: Text, g: BinOp, c: Text)
    requires IsPrimary(a) && IsPrimary(b) && IsPrimary(c) && Prec(f) < Prec(g)
    ensures ReadExpr([Word(a), P(BinPunct(f)), Word(b), P(BinPunct(g)), Word(c)])
            == Got(BinT(f, Leaf(a), BinT(g, Leaf(b), Leaf(c))), [])
  {
    hide ReadExpr, BinPunct;
    var r := Bin(Var(b), g, Var(c));
    var e := Bin(Var(a), f, r);
    PrintThenRead(e);
    assert Print(e) == [Word(a)] + [P(BinPunct(f))] + Print(r) && Print(r) == [Word(b), P(BinPunct(g)), Word(c)];
    assert Reading(e) == BinT(f, Leaf(a), Reading(r)) && Reading(r) == BinT(g, Leaf(b), Leaf(c));
    assert Print(e) == [Word(a), P(BinPunct(f)), Word(b), P(BinPunct(g)), Word(c)];
  }

  lemma ExecutesBin(p: Punct, op: BinOp, x: Num, y: Num, ptr: nat)
    requires BinOf(p) == Some(op) && BinPunct(op) == p
    ensures Execute([Word(Temp(0)), P(p), Word(Temp(1))], Vars([], [x, y]), ptr) == Combine(op, Some(x), Some(y))
  {
    hide Execute, BinOf, BinPunct, Combine;
    var e := Bin(Var(Temp(0)), op, Var(Temp(1)));
    ExecutePrinted(e, Vars([], [x, y]), ptr);
    assert Print(e) == [Word(Temp(0)), P(p), Word(Temp(1))];
  }

  /** The value of `a p b` for unsigned variables of w bits holding x and y. */
  function Value(p: Punct, w: nat, x: int, y: int, ptr: nat): Option<Num> {
    Execute([Word(Temp(0)), P(p), Word(Temp(1))], Vars([], [Num(w, false, x), Num(w, false, y)]), ptr)
  }

  lemma ValueApplies(p: Punct, op: BinOp, w: nat, x: int, y: int, ptr: nat)
    requires 32 <= w && 0 <= x < Pow2(w) && 0 <= y < Pow2(w) && BinOf(p) == Some(op) && BinPunct(op) == p
    ensures Value(p, w, x, y, ptr) == Apply(op, Num(w, false, x), Num(w, false, y))
    ensures Balance(Num(w, false, x), Num(w, false, y)) == (Num(w, false, x), Num(w, false, y))
  {
    hide Execute, Apply, Combine, Wrap, Pow2;
    ExecutesBin(p, op, Num(w, false, x), Num(w, false, y), ptr);
    CombineApplies(op, Num(w, false, x), Num(w, false, y));
    WrapId(w, false, x);
    WrapId(w, false, y);
  }

  lemma ArithmeticText(w: nat, x: int, y: int, ptr: nat)
    requires 32 <= w && 0 <= x < Pow2(w) && 0 <= y < Pow2(w)
    ensures Value(Plus, w, x, y, ptr) == Some(Num(w, false, (x + y) % Pow2(w)))
    ensures Value(Minus, w, x, y, ptr) == Some(Num(w, false, (x - y) % Pow2(w)))
    ensures Value(Star, w, x, y, ptr) == Some(Num(w, false, x * y % Pow2(w)))
    ensures Value(Slash, w, x, y, ptr) == if y == 0 then None else Some(Num(w, false, x / y))
    ensures Value(Percent, w, x, y, ptr) == if y == 0 then None else Some(Num(w, false, x % y))
  {
    hide Value, Pow2, Balance, Wrap;
    SumText(w, x, y, ptr);
    QuotientText(w, x, y, ptr);
  }

  lemma SumText(w: nat, x: int, y: int, ptr: nat)
    requires 32 <= w && 0 <= x < Pow2(w) && 0 <= y < Pow2(w)
    ensures Value(Plus, w, x, y, ptr) == Some(Num(w, false, (x + y) % Pow2(w)))
    ensures Value(Minus, w, x, y, ptr) == Some(Num(w, false, (x - y) % Pow2(w)))
    ensures Value(Star, w, x, y, ptr) == Some(Num(w, false, x * y % Pow2(w)))
  {
    hide Value, Pow2, Balance, Wrap;
    ValueApplies(Plus, Add, w, x, y, ptr);
    ValueApplies(Minus, Sub, w, x, y, ptr);
    ValueApplies(Star, Mul, w, x, y, ptr);
    WrapUnsigned(w, x + y);
    WrapUnsigned(w, x - y);
    WrapUnsigned(w, x * y);
  }

  lemma WrapUnsigned(w: nat, v: int)
    requires w > 0
    ensures Wrap(w, false, v) == v % Pow2(w)
  {
  }

  lemma QuotientText(w: nat, x: int, y: int, ptr: nat)
    requires 32 <= w && 0 <= x < Pow2(w) && 0 <= y < Pow2(w)
    ensures Value(Slash, w, x, y, ptr) == if y == 0 then None else Some(Num(w, false, x / y))
    ensures Value(Percent, w, x, y, ptr) == if y == 0 then None else Some(Num(w, false, x % y))
  {
    hide Value, Pow2, Balance, Wrap, TruncDiv, TruncRem;
    ValueApplies(Slash, Div, w, x, y, ptr);
    ValueApplies(Percent, Rem, w, x, y, ptr);
    if y != 0 {
      QuotientSmall(x, y);
      WrapId(w, false, x / y);
      WrapId(w, false, x % y);
      TruncatingDivision(x, y);
    }
  }

  /** Negation, complement and logical negation of an unsigned variable. */
  lemma UnaryText(w: nat, x: int, ptr: nat)
    requires 32 <= w && 0 <= x < Pow2(w)
    ensures var vs, v := Vars([], [Num(w, false, x)]), [P(LParen), Word(Temp(0)), P(RParen)];
            && Execute([P(Minus)] + v, vs, ptr) == Some(Num(w, false, (-x) % Pow2(w)))
            && Execute([P(Tilde)] + v, vs, ptr) == Some(Num(w, false, Pow2(w) - 1 - x))
            && Execute([P(Bang)] + v, vs, ptr) == Some(Num(32, true, if x == 0 then 1 else 0))
  {
    hide Execute, Pow2, BitOp, NotLeft;
    var vs, e := Vars([], [Num(w, false, x)]), Var(Temp(0));
    ExecutePrinted(Un(Neg, e), vs, ptr);
    ExecutePrinted(Un(BitNot, e), vs, ptr);
    ExecutePrinted(Un(LogNot, e), vs, ptr);
    assert forall op :: Print(Un(op, e)) == [P(UnPunct(op))] + [P(LParen), Word(Temp(0)), P(RParen)];
    WrapId(w, false, BitOp(NotLeft(), x, 0, w));
    ComplementBits(x, w);
  }

  lemma ComparisonText(w: nat, x: int, y: int, ptr: nat)
    requires 32 <= w && 0 <= x < Pow2(w) && 0 <= y < Pow2(w)
    ensures Value(EqEq, w, x, y, ptr) == Some(Num(32, true, if x == y then 1 else 0))
    ensures Value(BangEq, w, x, y, ptr) == Some(Num(32, true, if x == y then 0 else 1))
    ensures Value(Less, w, x, y, ptr) == Some(Num(32, true, if x < y then 1 else 0))
    ensures Value(LessEq, w, x, y, ptr) == Some(Num(32, true, if x <= y then 1 else 0))
    ensures Value(Greater, w, x, y, ptr) == Some(Num(32, true, if x > y then 1 else 0))
    ensures Value(GreaterEq, w, x, y, ptr) == Some(Num(32, true, if x >= y then 1 else 0))
    ensures Value(AmpAmp, w, x, y, ptr) == Some(Num(32, true, if x == 0 || y == 0 then 0 else 1))
    ensures Value(PipePipe, w, x, y, ptr) == Some(Num(32, true, if x == 0 && y == 0 then 0 else 1))
  {
    hide Value, Pow2, Balance;
    ValueApplies(EqEq, Eq, w, x, y, ptr);
    ValueApplies(BangEq, Ne, w, x, y, ptr);
    ValueApplies(Less, Lt, w, x, y, ptr);
    ValueApplies(LessEq, Le, w, x, y, ptr);
    ValueApplies(Greater, Gt, w, x, y, ptr);
    ValueApplies(GreaterEq, Ge, w, x, y, ptr);
    ValueApplies(AmpAmp, LogAnd, w, x, y, ptr);
    ValueApplies(PipePipe, LogOr, w, x, y, ptr);
  }

  lemma ShiftText(w: nat, x: int, y: int, ptr: nat)
    requires 32 <= w && 0 <= x < Pow2(w) && 0 <= y < Pow2(w)
    ensures Value(LtLt, w, x, y, ptr) == if y >= w then None else Some(Num(w, false, x * Pow2(y) % Pow2(w)))
    ensures Value(GtGt, w, x, y, ptr) == if y >= w then None else Some(Num(w, false, x / Pow2(y)))
  {
    hide Value, Pow2, Balance;
    ValueApplies(LtLt, Shl, w, x, y, ptr);
    ValueApplies(GtGt, Shr, w, x, y, ptr);
  }

  /** Bit k of an integer. */
  function BitAt(x: int, k: nat): int { x / Pow2(k) % 2 }

  lemma {:induction false} BitIsBitAt(x: int, k: nat)
    ensures Bit(x, k) <==> BitAt(x, k) == 1
    ensures 0 <= BitAt(x, k) < 2
    decreases k
  {
    if k > 0 {
      BitIsBitAt(x / 2, k - 1);
      DivDiv(x, 2, Pow2(k - 1));
    }
  }

  /** `&`, `|` and `^` work on each bit by itself. */
  lemma BitText(w: nat, x: int, y: int, k: nat, ptr: nat)
    requires 32 <= w && 0 <= x < Pow2(w) && 0 <= y < Pow2(w) && k < w
    ensures var v := Value(Amp, w, x, y, ptr);
            && v.Some? && v.value.bits == w && !v.value.signed && 0 <= v.value.v < Pow2(w)
            && BitAt(v.value.v, k) == BitAt(x, k) * BitAt(y, k)
    ensures var v := Value(Pipe, w, x, y, ptr);
            && v.Some? && v.value.bits == w && !v.value.signed && 0 <= v.value.v < Pow2(w)
            && BitAt(v.value.v, k) == BitAt(x, k) + BitAt(y, k) - BitAt(x, k) * BitAt(y, k)
    ensures var v := Value(Caret, w, x, y, ptr);
            && v.Some? && v.value.bits == w && !v.value.signed && 0 <= v.value.v < Pow2(w)
            && BitAt(v.value.v, k) == (BitAt(x, k) + BitAt(y, k)) % 2
  {
    hide Value, Pow2, BitAt;
    BitwiseText(Amp, BitAnd, w, x, y, k, ptr);
    BitwiseText(Pipe, BitOr, w, x, y, k, ptr);
    BitwiseText(Caret, BitXor, w, x, y, k, ptr);
    BitProduct(BitAt(x, k), BitAt(y, k));
  }

  lemma BitProduct(p: int, q: int)
    requires 0 <= p < 2 && 0 <= q < 2
    ensures p * q == (if p == 1 && q == 1 then 1 else 0) && p + q - p * q == (if p == 1 || q == 1 then 1 else 0)
    ensures (p + q) % 2 == if p == q then 0 else 1
  {
  }

  lemma BitwiseText(p: Punct, op: BinOp, w: nat, x: int, y: int, k: nat, ptr: nat)
    requires 32 <= w && 0 <= x < Pow2(w) && 0 <= y < Pow2(w) && k < w && BinOf(p) == Some(op) && BinPunct(op) == p
    requires op.BitAnd? || op.BitOr? || op.BitXor?
    ensures var v := Value(p, w, x, y, ptr);
            && v.Some? && v.value.bits == w && !v.value.signed && 0 <= v.value.v < Pow2(w)
            && (BitAt(v.value.v, k) == 1 <==> GateOf(op)(BitAt(x, k) == 1, BitAt(y, k) == 1))
    ensures 0 <= BitAt(x, k) < 2 && 0 <= BitAt(y, k) < 2 && 0 <= BitAt(Value(p, w, x, y, ptr).value.v, k) < 2
  {
    hide Value, Pow2, Balance, BitAt, Bit;
    ValueApplies(p, op, w, x, y, ptr);
    var r := BitOp(GateOf(op), x, y, w);
    WrapId(w, false, r);
    BitOpBit(GateOf(op), x, y, w, k);
    BitIsBitAt(r, k);
    BitIsBitAt(x, k);
    BitIsBitAt(y, k);
  }
}
