/** Negative literals of unsigned types. `const_int` writes one as a signed literal,
    which an unsigned division or zero extension reads as it stands. */
module NegativeLiterals {
  import opened Wrappers
  import opened IntMath
  import opened CSyntax
  import opened CSemantics
  import opened IntLowering
  import opened UnsignedLiterals
  import IntConstants

  function Negative(d: int, ty: TypeName): Operand {
    Operand(IntText(-d), ty)
  }

  /** -d in the signed range of a w-bit type. */
  predicate Representable(d: int, w: nat) {
    1 < w <= 128 && 0 < d <= Pow2(w - 1)
  }

  /** The common type of the literal and the other operand p is p's own, unsigned. */
  predicate RunsUnsigned(p: Operand, d: int, ptr: nat) {
    !p.text.IntText? && TextBits(p, ptr) >= TextBits(Negative(d, p.ty), ptr)
  }

  // ----- when the results agree -----

  /** a is divided by the literal -d, in an unsigned type of c bits or a signed one. */
  predicate DivisorRight(op: IntOp, a: int, d: int, w: nat, c: nat, unsigned: bool)
    requires d != 0
  {
    var m := Pow2(w);
    if unsigned then c == w || a < Pow2(if c < w then c else w) - d
    else if op.IUDiv? then a < d || (d == 1 && a == m - 1)
    else a < d || (a >= m - d && m % d == 0)
  }

  /** The literal -d is divided by y, likewise. */
  predicate DividendRight(op: IntOp, d: int, y: int, w: nat, c: nat, unsigned: bool)
    requires y != 0
  {
    var m, b, big := Pow2(w), Pow2(w) - d, Pow2(c);
    if unsigned then c == w || (if op.IUDiv? then c > w && (big - m + b % y) / y % m == 0 else (big - m) % y == 0)
    else y > b || (if op.IUDiv? then y == 1 else d % y == 0 && b % y == 0)
  }

  lemma SignedDivisor(op: IntOp, a: int, d: int, w: nat)
    requires (op.IUDiv? || op.IURem?) && Representable(d, w) && 0 <= a < Pow2(w)
    ensures var b := Pow2(w) - d;
            b > 0 && (Cong(if op.IUDiv? then -(a / d) else a % d, if op.IUDiv? then a / b else a % b, Pow2(w))
                      <==> DivisorRight(op, a, d, w, 0, false))
  {
    hide Pow2;
    Sizes(w, w);
    var m, b := Pow2(w), Pow2(w) - d;
    QuotientSmall(a, d);
    QuotientSmall(a, b);
    if a < b {
      DivModUnique(a, b, 0, a);
      SignedDivisorBelow(op, a, d, m);
    } else {
      DivModUnique(a, b, 1, a - b);
      SignedDivisorAbove(op, a, d, m);
    }
  }

  lemma SignedDivisorBelow(op: IntOp, a: int, d: int, m: int)
    requires (op.IUDiv? || op.IURem?) && 4 <= m && 0 < d && 2 * d <= m && 0 <= a < m - d
    ensures Cong(if op.IUDiv? then -(a / d) else a % d, if op.IUDiv? then 0 else a, m) <==> a < d
  {
    QuotientSmall(a, d);
    BelowDivisor(a, d);
    CongToZero(-(a / d), 0, m);
    CongToZero(0, a / d, m);
    Within(a / d, m);
    Within(-(a / d), m);
    CongToResidue(a % d, a, m);
    DivModUnique(a % d, m, 0, a % d);
  }

  lemma SignedDivisorAbove(op: IntOp, a: int, d: int, m: int)
    requires (op.IUDiv? || op.IURem?) && 4 <= m && 0 < d && 2 * d <= m && m - d <= a < m
    ensures Cong(if op.IUDiv? then -(a / d) else a % d, if op.IUDiv? then 1 else a - (m - d), m)
            <==> if op.IUDiv? then d == 1 else m % d == 0
  {
    hide Cong;
    QuotientSmall(a, d);
    if op.IUDiv? {
      CongToZero(-(a / d), 1, m);
      Minus(a / d + 1, m);
      QuotientBelow(a, d, m);
    } else {
      CongToResidue(a - (m - d), a % d, m);
      DivModUnique(a - (m - d), m, 0, a - (m - d));
      CongSides(a % d, a - (m - d), m);
      LastPiece(a, d, m);
    }
  }

  lemma CongSides(x: int, y: int, m: int)
    requires m > 0
    ensures Cong(x, y, m) <==> Cong(y, x, m)
  {
  }

  lemma QuotientBelow(a: int, d: int, m: int)
    requires 4 <= m && 0 < d && 2 * d <= m && m - d <= a < m
    ensures (a / d + 1) % m == 0 <==> d == 1
  {
    QuotientSmall(a, d);
    if d == 1 {
      DivModUnique(m, m, 1, 0);
    } else {
      MulMonotone(2, d, a / d);
      DivModUnique(a / d + 1, m, 0, a / d + 1);
    }
  }

  lemma LastPiece(a: int, d: int, m: int)
    requires 0 < d && m - d <= a < m
    ensures a % d == a - (m - d) <==> m % d == 0
  {
    ModShift(m, -1, d);
    if a % d == a - (m - d) { DivModUnique(m - d, d, a / d, 0); }
    if (m - d) % d == 0 { DivModUnique(a, d, (m - d) / d, a - (m - d)); }
  }

  lemma Minus(x: int, m: int)
    requires m > 0
    ensures -x % m == 0 <==> x % m == 0
  {
    if x % m == 0 { DivModUnique(-x, m, -(x / m), 0); }
    if -x % m == 0 { DivModUnique(x, m, -(-x / m), 0); }
  }

  lemma UnsignedDivisor(op: IntOp, a: int, d: int, w: nat, c: nat)
    requires (op.IUDiv? || op.IURem?) && Representable(d, w) && Representable(d, c) && 0 <= a < Pow2(w) && a < Pow2(c)
    ensures var b, e := Pow2(w) - d, Pow2(c) - d;
            b > 0 && e > 0 && (Cong(if op.IUDiv? then a / e else a % e, if op.IUDiv? then a / b else a % b, Pow2(w))
                               <==> DivisorRight(op, a, d, w, c, true))
  {
    hide Pow2;
    Sizes(w, w);
    Sizes(c, c);
    var b, e := Pow2(w) - d, Pow2(c) - d;
    if c < w {
      Sizes(c, w - 1);
      DivModUnique(a, b, 0, a);
      AgainstSmall(op, a, e, Pow2(w));
    } else if c > w {
      Sizes(w, c - 1);
      DivModUnique(a, e, 0, a);
      AgainstSmall(op, a, b, Pow2(w));
    }
  }

  /** Quotient 0 and remainder a are right exactly below the divisor. */
  lemma AgainstSmall(op: IntOp, a: int, e: int, m: int)
    requires (op.IUDiv? || op.IURem?) && 0 <= a < m && e > 0
    ensures Cong(if op.IUDiv? then a / e else a % e, if op.IUDiv? then 0 else a, m) <==> a < e
    ensures Cong(if op.IUDiv? then 0 else a, if op.IUDiv? then a / e else a % e, m) <==> a < e
  {
    QuotientSmall(a, e);
    BelowDivisor(a, e);
    DivModUnique(a / e, m, 0, a / e);
    DivModUnique(a % e, m, 0, a % e);
    DivModUnique(a, m, 0, a);
    DivModUnique(0, m, 0, 0);
  }

  lemma SignedDividend(op: IntOp, d: int, y: int, w: nat)
    requires (op.IUDiv? || op.IURem?) && Representable(d, w) && 0 < y < Pow2(w)
    ensures var b := Pow2(w) - d;
            Cong(if op.IUDiv? then -(d / y) else -(d % y), if op.IUDiv? then b / y else b % y, Pow2(w))
            <==> DividendRight(op, d, y, w, 0, false)
  {
    hide Pow2;
    Sizes(w, w);
    var m, b := Pow2(w), Pow2(w) - d;
    QuotientSmall(d, y);
    QuotientSmall(b, y);
    BelowDivisor(d, y);
    BelowDivisor(b, y);
    if op.IUDiv? {
      CongToZero(-(d / y), b / y, m);
      Minus(d / y + b / y, m);
      QuotientSum(d, b, y);
      if y == 1 { DivModUnique(m, m, 1, 0); } else { DivModUnique(d / y + b / y, m, 0, d / y + b / y); }
      if y <= b { Positive(b, y); }
    } else {
      CongToZero(-(d % y), b % y, m);
      Minus(d % y + b % y, m);
      if y > b { DivModUnique(m, m, 1, 0); } else { RemainderSum(d, b, y); }
    }
  }

  lemma RemainderSum(d: int, b: int, y: int)
    requires 0 < d <= b && 0 < y <= b
    ensures (d % y + b % y) % (d + b) == 0 <==> d % y == 0 && b % y == 0
  {
    QuotientSmall(d, y);
    QuotientSmall(b, y);
    DivModUnique(d % y + b % y, d + b, 0, d % y + b % y);
  }

  lemma UnsignedDividend(op: IntOp, d: int, y: int, w: nat, c: nat)
    requires (op.IUDiv? || op.IURem?) && Representable(d, w) && Representable(d, c) && 0 < y < Pow2(w) && y < Pow2(c)
    ensures var b, e := Pow2(w) - d, Pow2(c) - d;
            Cong(if op.IUDiv? then e / y else e % y, if op.IUDiv? then b / y else b % y, Pow2(w))
            <==> DividendRight(op, d, y, w, c, true)
  {
    hide Pow2;
    Sizes(w, w);
    Sizes(c, c);
    var m, b, e := Pow2(w), Pow2(w) - d, Pow2(c) - d;
    if op.IURem? {
      RemaindersEqual(e, b, y);
      DivModUnique(e % y, m, 0, e % y);
      DivModUnique(b % y, m, 0, b % y);
    } else if c > w {
      Sizes(w, c);
      QuotientStep(b, e - b, y);
      CongToZero(e / y, b / y, m);
    } else if c < w {
      Sizes(c, w - 1);
      QuotientStep(e, b - e, y);
      Positive(b - e + e % y, y);
      QuotientSmall(b, y);
      QuotientSmall(e, y);
      DivModUnique(e / y, m, 0, e / y);
      DivModUnique(b / y, m, 0, b / y);
    }
  }

  lemma RemaindersEqual(e: int, b: int, y: int)
    requires y > 0
    ensures e % y == b % y <==> (e - b) % y == 0
  {
    CongToZero(e, b, y);
  }

  lemma QuotientStep(b: int, extra: int, y: int)
    requires y > 0
    ensures (b + extra) / y == b / y + (extra + b % y) / y
  {
    ModShift(extra + b % y, b / y, y);
  }

  // ----- what C computes -----

  lemma TruncBound(a: int, k: int, h: int)
    requires -h <= a < h && k != 0 && !(a == -h && k == -1)
    ensures -h <= TruncDiv(a, k) < h && -h <= TruncRem(a, k) < h
  {
    hide TruncDiv, TruncRem;
    TruncatingDivision(a, k);
    QuotientSmall(Abs(a), Abs(k));
    if Abs(k) > 1 && a != 0 { MulMonotone(2, Abs(k), Abs(a) / Abs(k)); }
  }

  lemma SignedApply(op: BinOp, a: int, k: int, n: nat, x: Num, y: Num)
    requires (op.Div? || op.Rem?) && n > 0 && InRange(n, true, a) && InRange(n, true, k) && k != 0
    requires !(a == -Pow2(n - 1) && k == -1) && Balance(x, y) == (Num(n, true, a), Num(n, true, k))
    ensures Apply(op, x, y) == Some(Num(n, true, if op.Div? then TruncDiv(a, k) else TruncRem(a, k)))
  {
    hide Pow2, Wrap, TruncDiv, TruncRem, Balance;
    TruncBound(a, k, Pow2(n - 1));
    WrapId(n, true, TruncDiv(a, k));
    WrapId(n, true, TruncRem(a, k));
  }

  /** The literal's number and pattern. */
  lemma NegativeFacts(d: int, ty: TypeName, temps: Vars<Num>, tys: Vars<TypeName>, pats: Vars<int>, ptr: nat)
    requires Sized(ty, ptr) && Representable(d, Width(ty, ptr))
    ensures var o := Negative(d, ty);
            var k := TextBits(o, ptr);
            && Known(o, tys) && (k == 64 || k == 128) && Representable(d, k)
            && Denote(o.text, temps) == Some(Num(k, true, -d)) && ValidNum(Num(k, true, -d))
            && Pattern(o, pats, ptr) == Pow2(Width(ty, ptr)) - d
  {
    hide Pow2;
    var w := Width(ty, ptr);
    LiteralRange(64);
    Sizes(w, w);
    Pow2Monotone(w - 1, 127);
    DivModUnique(-d, Pow2(w), -1, Pow2(w) - d);
  }

  /** The other operand's number: its pattern, unsigned unless it is a signed
      literal. */
  lemma PartnerFacts(p: Operand, temps: Vars<Num>, pats: Vars<int>, tys: Vars<TypeName>, ptr: nat) returns (n: Num,
    a: int)
    requires Canonical(temps, pats, tys, ptr) && Sized(p.ty, ptr) && !Signed(p.ty) && Width(p.ty, ptr) > 1
    requires Known(p, tys) && ShowsUnsigned(p, ptr)
    ensures Denote(p.text, temps) == Some(n) && Pattern(p, pats, ptr) == a && 0 <= a < Pow2(Width(p.ty, ptr))
    ensures n == Num(TextBits(p, ptr), p.text.IntText?, a) && ValidNum(n)
  {
    hide Canonical, Pattern, Pow2, Wrap;
    n, a := GetFacts(p, temps, pats, tys, ptr);
    if IsVar(p.text) { WrapId(Width(p.ty, ptr), false, a); }
  }

  /** The common type when the other operand's is unsigned and as wide. */
  lemma UnsignedCommon(x: Num, k: Num, d: int)
    requires x.bits >= 64 && x.bits >= k.bits && !x.signed && ValidNum(x) && k.signed && ValidNum(k) && k.v == -d
             && Representable(d, k.bits)
    ensures Representable(d, x.bits) || x.bits > 128
    ensures Pow2(x.bits) - d > 0 && x.v < Pow2(x.bits)
    ensures Balance(x, k) == (Num(x.bits, false, x.v), Num(x.bits, false, Pow2(x.bits) - d))
    ensures Balance(k, x) == (Num(x.bits, false, Pow2(x.bits) - d), Num(x.bits, false, x.v))
  {
    hide Pow2, Wrap, Balance;
    CommonTypes(k, x.v, x.bits);
    BalanceFlips(x, k);
    Sizes(k.bits, k.bits);
    Sizes(x.bits, x.bits);
    Pow2Monotone(k.bits - 1, x.bits - 1);
    DivModUnique(-d, Pow2(x.bits), -1, Pow2(x.bits) - d);
  }

  /** Otherwise it is signed and holds both values. */
  lemma SignedCommon(x: Num, k: Num) returns (n: nat)
    requires ValidNum(x) && ValidNum(k) && k.signed && k.bits >= 64 && (x.signed || x.bits < k.bits)
    ensures n >= 64 && InRange(n, true, x.v) && InRange(n, true, k.v)
    ensures Balance(x, k) == (Num(n, true, x.v), Num(n, true, k.v))
    ensures Balance(k, x) == (Num(n, true, k.v), Num(n, true, x.v))
  {
    hide Pow2, Wrap, Balance;
    PromoteValid(x);
    n := CommonBits(Promote(x), k);
    FitsCommon(Promote(x), n, true);
    FitsCommon(k, n, true);
    WrapId(n, true, x.v);
    WrapId(n, true, k.v);
    BalanceFlips(x, k);
    BalanceParts(x, k);
  }

  lemma BalanceParts(x: Num, k: Num)
    requires k.bits >= 64 && k.signed && (x.signed || x.bits < k.bits)
    ensures var n := CommonBits(Promote(x), k);
            n >= 64 && Balance(x, k) == (Num(n, true, Wrap(n, true, x.v)), Num(n, true, Wrap(n, true, k.v)))
  {
    hide Pow2, Wrap;
  }

  // ----- the emitted expressions -----

  /** Storing c is right exactly when it is congruent to the result e meant. */
  lemma StoredResult(c: int, e: int, w: nat)
    requires w > 1
    ensures Convert(w, false, c) == Wrap(w, false, e % Pow2(w)) <==> Cong(c, e, Pow2(w))
  {
    hide Pow2, Wrap, Cong, Convert;
    StoredIff(c, e % Pow2(w), w, false);
    CongFlip(e, Pow2(w));
    CongSwap(c, e % Pow2(w), e, Pow2(w));
  }

  lemma NegativeBinary(op: IntOp, l: Operand, r: Operand, ptr: nat)
    requires (op.IUDiv? || op.IURem?) && Sized(l.ty, ptr) && !Signed(l.ty) && Width(l.ty, ptr) > 1
    ensures EmitBinary(op, l, r) == Binop(if op.IUDiv? then Div else Rem, l, r)
  {
    SignedHasUnsigned(l.ty, ptr);
  }

  lemma UnsignedMeaning(op: IntOp, a: int, b: int, w: nat)
    requires (op.IUDiv? || op.IURem?) && w > 0
    ensures BinaryMeaning(op, a, b, w).Some? <==> b != 0
    ensures b != 0 ==> BinaryMeaning(op, a, b, w).value == (if op.IUDiv? then a / b else a % b) % Pow2(w)
  {
    hide Pow2, S, TruncDiv, TruncRem, BitOp;
  }

  /** Dividing any value of an unsigned type by a negative literal of that type. */
  lemma ByNegativeLiteral(op: IntOp, l: Operand, d: int, temps: Vars<Num>, pats: Vars<int>, tys: Vars<TypeName>,
                          ptr: nat)
    requires (op.IUDiv? || op.IURem?) && Canonical(temps, pats, tys, ptr) && Sized(l.ty, ptr) && !Signed(l.ty)
    requires Representable(d, Width(l.ty, ptr)) && Known(l, tys) && ShowsUnsigned(l, ptr)
    ensures var r := Negative(d, l.ty);
            && Meaning(Binary(op, l, r), pats, ptr).Some?
            && (Stores(EmitBinary(op, l, r), temps, l.ty, ptr, Meaning(Binary(op, l, r), pats, ptr).value)
                <==> DivisorRight(op, Pattern(l, pats, ptr), d, Width(l.ty, ptr), TextBits(l, ptr),
                                  RunsUnsigned(l, d, ptr)))
  {
    hide Apply, Canonical, Known, Pattern, Denote, Wrap, BinaryMeaning, Cong, Eval, Convert, Pow2, DivisorRight,
         Balance;
    var r, w := Negative(d, l.ty), Width(l.ty, ptr);
    var cop := if op.IUDiv? then Div else Rem;
    Sizes(w, w);
    var x, a := PartnerFacts(l, temps, pats, tys, ptr);
    NegativeFacts(d, l.ty, temps, tys, pats, ptr);
    var b, k := Pow2(w) - d, Denote(r.text, temps).value;
    NegativeBinary(op, l, r, ptr);
    EvalBinop(cop, l, r, temps, ptr);
    UnsignedMeaning(op, a, b, w);
    if RunsUnsigned(l, d, ptr) {
      UnsignedCommon(x, k, d);
      var e := Pow2(x.bits) - d;
      UnsignedApply(cop, a, e, x.bits, x, k);
      UnsignedDivisor(op, a, d, w, x.bits);
      StoredResult(if op.IUDiv? then a / e else a % e, if op.IUDiv? then a / b else a % b, w);
    } else {
      var n := SignedCommon(x, k);
      SignedApply(cop, a, -d, n, x, k);
      ByMinus(a, d);
      SignedDivisor(op, a, d, w);
      StoredResult(if op.IUDiv? then -(a / d) else a % d, if op.IUDiv? then a / b else a % b, w);
      WidthUnused(op, a, d, w, TextBits(l, ptr));
    }
  }

  lemma ByMinus(a: int, d: int)
    requires a >= 0 && d > 0
    ensures TruncDiv(a, -d) == -(a / d) && TruncRem(a, -d) == a % d
    ensures TruncDiv(-d, -d) == 1 && TruncRem(-d, -d) == 0
    ensures a > 0 ==> TruncDiv(-d, a) == -(d / a) && TruncRem(-d, a) == -(d % a)
  {
    hide TruncDiv, TruncRem;
    TruncatingDivision(a, -d);
    TruncatingDivision(-d, -d);
    DivModUnique(d, d, 1, 0);
    if a > 0 { TruncatingDivision(-d, a); }
  }

  lemma WidthUnused(op: IntOp, a: int, d: int, w: nat, c: nat)
    requires d != 0
    ensures DivisorRight(op, a, d, w, c, false) == DivisorRight(op, a, d, w, 0, false)
    ensures a != 0 ==> DividendRight(op, d, a, w, c, false) == DividendRight(op, d, a, w, 0, false)
  {
  }

  /** Dividing a negative literal of an unsigned type by a value of that type. */
  lemma NegativeLiteralBy(op: IntOp, d: int, r: Operand, temps: Vars<Num>, pats: Vars<int>, tys: Vars<TypeName>,
                          ptr: nat)
    requires (op.IUDiv? || op.IURem?) && Canonical(temps, pats, tys, ptr) && Sized(r.ty, ptr) && !Signed(r.ty)
    requires Representable(d, Width(r.ty, ptr)) && Known(r, tys) && ShowsUnsigned(r, ptr)
    requires Meaning(Binary(op, Negative(d, r.ty), r), pats, ptr).Some?
    ensures Pattern(r, pats, ptr) != 0
    ensures var l := Negative(d, r.ty);
            Stores(EmitBinary(op, l, r), temps, r.ty, ptr, Meaning(Binary(op, l, r), pats, ptr).value)
            <==> DividendRight(op, d, Pattern(r, pats, ptr), Width(r.ty, ptr), TextBits(r, ptr),
                               RunsUnsigned(r, d, ptr))
  {
    hide Apply, Canonical, Known, Pattern, Denote, Wrap, BinaryMeaning, Cong, Eval, Convert, Pow2, DividendRight,
         Balance;
    var l, w := Negative(d, r.ty), Width(r.ty, ptr);
    var cop := if op.IUDiv? then Div else Rem;
    Sizes(w, w);
    var x, y := PartnerFacts(r, temps, pats, tys, ptr);
    NegativeFacts(d, r.ty, temps, tys, pats, ptr);
    var b, k := Pow2(w) - d, Denote(l.text, temps).value;
    NegativeBinary(op, l, r, ptr);
    EvalBinop(cop, l, r, temps, ptr);
    UnsignedMeaning(op, b, y, w);
    if RunsUnsigned(r, d, ptr) {
      UnsignedCommon(x, k, d);
      var e := Pow2(x.bits) - d;
      UnsignedApply(cop, e, y, x.bits, k, x);
      UnsignedDividend(op, d, y, w, x.bits);
      StoredResult(if op.IUDiv? then e / y else e % y, if op.IUDiv? then b / y else b % y, w);
    } else {
      var n := SignedCommon(x, k);
      SignedApply(cop, -d, y, n, k, x);
      ByMinus(y, d);
      SignedDividend(op, d, y, w);
      StoredResult(if op.IUDiv? then -(d / y) else -(d % y), if op.IUDiv? then b / y else b % y, w);
      WidthUnused(op, y, d, w, TextBits(r, ptr));
    }
  }

  lemma TwoNegatives(op: IntOp, d: int, e: int, w: nat)
    requires (op.IUDiv? || op.IURem?) && Representable(d, w) && Representable(e, w)
    ensures var b, c := Pow2(w) - d, Pow2(w) - e;
            c > 0 && (Cong(if op.IUDiv? then d / e else -(d % e), if op.IUDiv? then b / c else b % c, Pow2(w))
                      <==> d == e)
  {
    hide Pow2, Cong;
    Sizes(w, w);
    var m, b, c := Pow2(w), Pow2(w) - d, Pow2(w) - e;
    if d == Pow2(w - 1) && e == 1 {
      DivModUnique(d, 1, d, 0);
      DivModUnique(b, c, 0, b);
      CongToZero(d, 0, m);
      CongSides(0, b, m);
      CongToZero(b, 0, m);
      DivModUnique(d, m, 0, d);
    } else if op.IUDiv? {
      BothLarge(ISDiv, b, c, w);
      CongSides(d / e, b / c, m);
    } else {
      BothLarge(ISRem, b, c, w);
      CongSides(-(d % e), b % c, m);
    }
  }

  /** The smallest value divided by -1 overflows at its own width. */
  lemma OverflowingApply(op: BinOp, x: Num, y: Num, n: nat)
    requires (op.Div? || op.Rem?) && n > 0
    requires Balance(x, y) == (Num(n, true, -Pow2(n - 1)), Num(n, true, -1))
    ensures Apply(op, x, y) == None
  {
    hide Pow2, Wrap, TruncDiv, TruncRem, Balance;
  }

  /** Two negative literals of an unsigned type: right only for equal ones. */
  lemma TwoNegativeLiterals(op: IntOp, d: int, e: int, ty: TypeName, temps: Vars<Num>, pats: Vars<int>,
                            tys: Vars<TypeName>, ptr: nat)
    requires (op.IUDiv? || op.IURem?) && Sized(ty, ptr) && !Signed(ty)
    requires Representable(d, Width(ty, ptr)) && Representable(e, Width(ty, ptr))
    ensures var l, r := Negative(d, ty), Negative(e, ty);
            && Meaning(Binary(op, l, r), pats, ptr).Some?
            && (Stores(EmitBinary(op, l, r), temps, ty, ptr, Meaning(Binary(op, l, r), pats, ptr).value) <==> d == e)
  {
    hide Apply, Pattern, Denote, Wrap, BinaryMeaning, Cong, Eval, Convert, Pow2, Balance;
    var l, r, w := Negative(d, ty), Negative(e, ty), Width(ty, ptr);
    Sizes(w, w);
    NegativeFacts(d, ty, temps, tys, pats, ptr);
    NegativeFacts(e, ty, temps, tys, pats, ptr);
    NegativeBinary(op, l, r, ptr);
    EvalBinop(if op.IUDiv? then Div else Rem, l, r, temps, ptr);
    UnsignedMeaning(op, Pow2(w) - d, Pow2(w) - e, w);
    NegativePair(op, d, e, w, Denote(l.text, temps).value, Denote(r.text, temps).value);
  }

  lemma NegativePair(op: IntOp, d: int, e: int, w: nat, x: Num, y: Num)
    requires (op.IUDiv? || op.IURem?) && Representable(d, w) && Representable(e, w)
    requires ValidNum(x) && ValidNum(y) && x.signed && y.signed && x.bits >= 64 && y.bits >= 64 && x.v == -d
             && y.v == -e
    ensures var b, c := Pow2(w) - d, Pow2(w) - e;
            var res := Apply(if op.IUDiv? then Div else Rem, x, y);
            && c > 0
            && (res.Some? && Convert(w, false, res.value.v)
                == Wrap(w, false, (if op.IUDiv? then b / c else b % c) % Pow2(w))
                <==> d == e)
  {
    hide Apply, Wrap, Cong, Convert, Pow2, Balance;
    var cop := if op.IUDiv? then Div else Rem;
    Sizes(w, w);
    var n := SignedCommon(x, y);
    if -d == -Pow2(n - 1) && -e == -1 {
      OverflowingApply(cop, x, y, n);
      Sizes(n, n);
    } else {
      var b, c := Pow2(w) - d, Pow2(w) - e;
      SignedApply(cop, -d, -e, n, x, y);
      MinusByMinus(d, e);
      TwoNegatives(op, d, e, w);
      StoredResult(if op.IUDiv? then d / e else -(d % e), if op.IUDiv? then b / c else b % c, w);
    }
  }

  lemma MinusByMinus(d: int, e: int)
    requires d > 0 && e > 0
    ensures TruncDiv(-d, -e) == d / e && TruncRem(-d, -e) == -(d % e)
  {
    hide TruncDiv, TruncRem;
    TruncatingDivision(-d, -e);
  }

  /** Zero extension of a negative literal of an unsigned type extends its sign:
      right exactly when nothing widens. */
  lemma NegativeLiteralExtends(d: int, from: TypeName, ty: TypeName, temps: Vars<Num>, pats: Vars<int>, ptr: nat)
    requires Sized(from, ptr) && !Signed(from) && Representable(d, Width(from, ptr)) && Sized(ty, ptr)
             && Width(ty, ptr) > 1
    ensures var v := Negative(d, from);
            && Emit(IntCast(v, ty, false)) == Emit(ZExt(v, ty))
            && (Stores(Emit(ZExt(v, ty)), temps, ty, ptr, Meaning(ZExt(v, ty), pats, ptr).value)
                <==> Width(ty, ptr) <= Width(from, ptr))
  {
    hide Pattern, Denote, Wrap, Cong, Eval, Convert, Pow2;
    var v, w, n := Negative(d, from), Width(from, ptr), Width(ty, ptr);
    var b := Pow2(w) - d;
    Sizes(w, w);
    NegativeFacts(d, from, temps, Vars([], []), pats, ptr);
    SignedHasUnsigned(from, ptr);
    ExtendedText(-d, ty, temps, ptr);
    IntConstants.TwiceStored(-d, b % Pow2(n), n, Signed(ty));
    CongFlip(b, Pow2(n));
    CongSwap(-d, b % Pow2(n), b, Pow2(n));
    if n <= w {
      Pow2Add(w - n, n);
      CongFrom(b, -d, Pow2(w - n), Pow2(n));
      CongSides(b, -d, Pow2(n));
    } else {
      Pow2Strict(w, n);
      IntConstants.NotCongruent(b, Pow2(w), Pow2(n));
      CongSides(b, -d, Pow2(n));
    }
  }

  lemma ExtendedText(i: int, ty: TypeName, temps: Vars<Num>, ptr: nat)
    requires Width(ty, ptr) > 1
    ensures Eval(Cast(ty, Var(IntText(i))), temps, ptr)
            == Some(Num(Width(ty, ptr), Signed(ty), Wrap(Width(ty, ptr), Signed(ty), i)))
  {
    hide Wrap, Width, Signed;
  }

  /** At eight bits, 200 divided by 255 written as -1 and 255 written so divided by 2
      are both wrong. */
  lemma NegativeLiteralFails()
    ensures !DivisorRight(IUDiv, 200, 1, 8, 8, false) && !DividendRight(IUDiv, 1, 2, 8, 8, false)
  {
    assert Pow2(8) == 256;
  }
}
