/** Signed division by an unsigned literal. The builder's fixed-width constants are
    unsigned literals of signed type, so a signed quotient is computed unsigned, at
    the literal's width. */
module UnsignedLiterals {
  import opened Wrappers
  import opened IntMath
  import opened CSyntax
  import opened CSemantics
  import opened IntLowering

  // ----- when the results agree -----

  /** x is the w-bit signed dividend, u the literal, n the width it is divided at. */
  predicate QuotientAgrees(x: int, u: int, w: nat, n: nat)
    requires w > 0 && 0 < u < Pow2(w)
  {
    var m, big := Pow2(w), Pow2(n);
    var carry := if -x % u > big % u then 1 else 0;
    if x >= 0 then u < Pow2(w - 1) || x < m - u
    else if u < Pow2(w - 1) then big / u % m == carry
    else (big / u - -x / u - carry) % m == -x / (m - u)
  }

  predicate RemainderAgrees(x: int, u: int, w: nat, n: nat)
    requires w > 0 && 0 < u < Pow2(w)
  {
    var m, big := Pow2(w), Pow2(n);
    if x >= 0 then u < Pow2(w - 1) || x < m - u
    else if u < Pow2(w - 1) then big % u == 0 && -x % u == 0
    else (-x == big % u && -x % (m - u) == 0) || -x == u
  }

  /** Divided at its own width, as a 64-bit variable is by any literal and a 128-bit
      one by a 128-bit literal, a negative dividend has the right quotient only by 1
      and by its own pattern. */
  lemma QuotientAtOwnWidth(x: int, u: int, w: nat)
    requires w > 1 && InRange(w, true, x) && 0 < u < Pow2(w)
    ensures QuotientAgrees(x, u, w, w) <==>
            if u < Pow2(w - 1) then x >= 0 || u == 1 else (0 <= x < Pow2(w) - u) || x == u - Pow2(w)
  {
    hide Pow2;
    Sizes(w, w);
    if x < 0 {
      if u < Pow2(w - 1) { SmallDivisor(-x, u, Pow2(w - 1)); } else { LargeDivisor(-x, u, Pow2(w - 1)); }
    }
  }

  lemma SmallDivisor(k: int, u: int, h: int)
    requires 2 <= h && 0 < k <= h && 0 < u < h
    ensures var p := 2 * h; p / u % p == (if k % u > p % u then 1 else 0) <==> u == 1
  {
    var p := 2 * h;
    if u == 1 {
      DivModUnique(p, p, 1, 0);
    } else {
      QuotientSmall(p, u);
      MulMonotone(2, u, p / u);
      if p / u <= 1 { MulMonotone(p / u, 1, u); }
      DivModUnique(p / u, p, 0, p / u);
    }
  }

  lemma LargeDivisor(k: int, u: int, h: int)
    requires 2 <= h && 0 < k <= h <= u < 2 * h
    ensures var p := 2 * h;
            (p / u - k / u - (if k % u > p % u then 1 else 0)) % p == k / (p - u) <==> k == p - u
  {
    var p := 2 * h;
    var v := p - u;
    if u == h {
      DivModUnique(p, u, 2, 0);
      DivModUnique(k, u, if k == u then 1 else 0, if k == u then 0 else k);
      DivModUnique(1, p, 0, 1);
    } else {
      DivModUnique(p, u, 1, v);
      DivModUnique(k, u, 0, k);
      BelowDivisor(k, v);
      QuotientSmall(k, v);
      DivModUnique(if k > v then 0 else 1, p, 0, if k > v then 0 else 1);
      if k == v { DivModUnique(k, v, 1, 0); }
    }
  }

  // ----- the two computations -----

  /** The unsigned division the C performs on a negative dividend. */
  lemma WrappedDivision(k: int, u: int, big: int)
    requires 0 < k <= big && 0 < u
    ensures var carry := if k % u > big % u then 1 else 0;
            && (big - k) / u == big / u - k / u - carry
            && (big - k) % u == big % u - k % u + carry * u
  {
    var carry := if k % u > big % u then 1 else 0;
    var q := big / u - k / u - carry;
    Recombine(big / u, k / u, carry, u);
    DivModUnique(big - k, u, q, big % u - k % u + carry * u);
  }

  lemma Recombine(a: int, b: int, c: int, u: int)
    ensures (a - b - c) * u == a * u - b * u - c * u
  {
  }

  /** The signed division meant: the literal's w-bit signed reading is u or u - 2^w. */
  lemma MeantDivision(x: int, u: int, w: nat, s: int)
    requires w > 1 && 0 < u < Pow2(w) && s == S(w, u) && s != 0
    ensures TruncDiv(x, s) == if x >= 0 then (if u < Pow2(w - 1) then x / u else -(x / (Pow2(w) - u)))
                              else if u < Pow2(w - 1) then -(-x / u) else -x / (Pow2(w) - u)
    ensures TruncRem(x, s) == if x >= 0 then (if u < Pow2(w - 1) then x % u else x % (Pow2(w) - u))
                              else if u < Pow2(w - 1) then -(-x % u) else -(-x % (Pow2(w) - u))
  {
    hide Pow2, TruncDiv, TruncRem, S;
    SignedPattern(w, u);
    TruncatingDivision(x, s);
  }

  lemma SignedPattern(w: nat, u: int)
    requires w > 0 && 0 <= u < Pow2(w)
    ensures S(w, u) == if u < Pow2(w - 1) then u else u - Pow2(w)
  {
    hide Pow2;
    DivModUnique(u, Pow2(w), 0, u);
  }

  lemma CongToZero(a: int, b: int, m: int)
    requires m > 0
    ensures Cong(a, b, m) <==> (a - b) % m == 0
  {
    if Cong(a, b, m) {
      var k := CongWitness(a, b, m);
      DivModUnique(a - b, m, k, 0);
    }
    if (a - b) % m == 0 {
      CongFrom(a, b, (a - b) / m, m);
    }
  }

  lemma CongToResidue(a: int, b: int, m: int)
    requires 0 <= b < m
    ensures Cong(a, b, m) <==> a % m == b
  {
    DivModUnique(b, m, 0, b);
  }

  /** A w-bit signed dividend and a literal of its type, divided as n-bit numbers. */
  predicate AtWidth(x: int, u: int, w: nat, n: nat) {
    && w > 1 && n > 1 && InRange(w, true, x) && 0 <= u < Pow2(w)
    && (w <= n || (InRange(n, true, x) && u < Pow2(n)))
  }

  lemma AtWidthFacts(x: int, u: int, w: nat, n: nat)
    requires AtWidth(x, u, w, n)
    ensures Pow2(w) == 2 * Pow2(w - 1) && Pow2(w - 1) >= 2 && u < Pow2(n) && -Pow2(n) < x < Pow2(n)
    ensures n < w ==> u < Pow2(w - 1)
    ensures w <= n ==> Pow2(n) % Pow2(w - 1) == 0
  {
    hide Pow2;
    Sizes(w, w);
    Sizes(n, n);
    if w <= n { Sizes(w, n); } else { Pow2Monotone(n, w - 1); }
  }

  lemma QuotientIff(x: int, u: int, s: int, w: nat, n: nat)
    requires AtWidth(x, u, w, n) && u > 0 && s == S(w, u) && s != 0
    ensures Cong(x % Pow2(n) / u, TruncDiv(x, s), Pow2(w)) <==> QuotientAgrees(x, u, w, n)
  {
    hide Pow2, TruncDiv, Cong, S, QuotientAgrees;
    AtWidthFacts(x, u, w, n);
    MeantDivision(x, u, w, s);
    if x >= 0 {
      DivModUnique(x, Pow2(n), 0, x);
      NonnegativeQuotient(x, u, w, n);
    } else {
      DivModUnique(x, Pow2(n), -1, x + Pow2(n));
      WrappedDivision(-x, u, Pow2(n));
      NegativeQuotient(x, u, w, n);
    }
  }

  lemma Sizes(w: nat, n: nat)
    requires 1 < w <= n
    ensures Pow2(w) == 2 * Pow2(w - 1) && Pow2(w - 1) >= 2 && Pow2(w) <= Pow2(n)
    ensures Pow2(n) % Pow2(w - 1) == 0
  {
    hide Pow2;
    Double(w);
    Pow2Monotone(1, w - 1);
    Pow2Monotone(w, n);
    LiteralRange(1);
    Pow2Add(n - w + 1, w - 1);
    DivModUnique(Pow2(n), Pow2(w - 1), Pow2(n - w + 1), 0);
  }

  lemma NonnegativeQuotient(x: int, u: int, w: nat, n: nat)
    requires w > 1 && InRange(w, true, x) && x >= 0 && 0 < u < Pow2(w)
    ensures var meant := if u < Pow2(w - 1) then x / u else -(x / (Pow2(w) - u));
            Cong(x / u, meant, Pow2(w)) <==> QuotientAgrees(x, u, w, n)
  {
    hide Pow2;
    Sizes(w, w);
    if u >= Pow2(w - 1) {
      var m, v := Pow2(w), Pow2(w) - u;
      DivModUnique(x, u, 0, x);
      QuotientSmall(x, v);
      CongToZero(0, -(x / v), m);
      DivModUnique(x / v, m, 0, x / v);
      BelowDivisor(x, v);
    }
  }

  lemma BelowDivisor(x: int, v: int)
    requires x >= 0 && v > 0
    ensures x / v == 0 <==> x < v
    ensures x % v == x <==> x < v
  {
    if x < v { DivModUnique(x, v, 0, x); }
  }

  lemma NegativeQuotient(x: int, u: int, w: nat, n: nat)
    requires w > 1 && InRange(w, true, x) && x < 0 && 0 < u < Pow2(w)
    ensures var carry := if -x % u > Pow2(n) % u then 1 else 0;
            var meant := if u < Pow2(w - 1) then -(-x / u) else -x / (Pow2(w) - u);
            Cong(Pow2(n) / u - -x / u - carry, meant, Pow2(w)) <==> QuotientAgrees(x, u, w, n)
  {
    hide Pow2;
    Sizes(w, w);
    var m, q := Pow2(w), Pow2(n) / u;
    var carry := if -x % u > Pow2(n) % u then 1 else 0;
    if u < Pow2(w - 1) {
      CongToZero(q - -x / u - carry, -(-x / u), m);
      CongToZero(q, carry, m);
      CongToResidue(q, carry, m);
    } else {
      QuotientSmall(-x, m - u);
      CongToResidue(q - -x / u - carry, -x / (m - u), m);
    }
  }

  lemma RemainderIff(x: int, u: int, s: int, w: nat, n: nat)
    requires AtWidth(x, u, w, n) && u > 0 && s == S(w, u) && s != 0
    ensures Cong(x % Pow2(n) % u, TruncRem(x, s), Pow2(w)) <==> RemainderAgrees(x, u, w, n)
  {
    hide Pow2, TruncRem, Cong, S, RemainderAgrees;
    AtWidthFacts(x, u, w, n);
    MeantDivision(x, u, w, s);
    if x >= 0 {
      DivModUnique(x, Pow2(n), 0, x);
      NonnegativeRemainder(x, u, w, n);
    } else {
      DivModUnique(x, Pow2(n), -1, x + Pow2(n));
      WrappedDivision(-x, u, Pow2(n));
      if u < Pow2(w - 1) { SmallRemainder(-x, u, w, n); } else { LargeRemainder(-x, u, w, n); }
    }
  }

  lemma NonnegativeRemainder(x: int, u: int, w: nat, n: nat)
    requires w > 1 && InRange(w, true, x) && x >= 0 && 0 < u < Pow2(w)
    ensures var meant := if u < Pow2(w - 1) then x % u else x % (Pow2(w) - u);
            Cong(x % u, meant, Pow2(w)) <==> RemainderAgrees(x, u, w, n)
  {
    hide Pow2;
    Sizes(w, w);
    if u >= Pow2(w - 1) {
      var m, v := Pow2(w), Pow2(w) - u;
      DivModUnique(x, u, 0, x);
      QuotientSmall(x, v);
      CongToResidue(x, x % v, m);
      DivModUnique(x, m, 0, x);
      BelowDivisor(x, v);
    }
  }

  lemma SmallRemainder(k: int, u: int, w: nat, n: nat)
    requires 1 < w && 0 < k <= Pow2(w - 1) && 0 < u < Pow2(w - 1)
    ensures var carry := if k % u > Pow2(n) % u then 1 else 0;
            Cong(Pow2(n) % u - k % u + carry * u, -(k % u), Pow2(w)) <==> RemainderAgrees(-k, u, w, n)
  {
    hide Pow2;
    Sizes(w, w);
    var r, b, m := Pow2(n) % u, k % u, Pow2(w);
    var carry := if b > r then 1 else 0;
    CongToZero(r - b + carry * u, -b, m);
    DivModUnique(r + carry * u, m, 0, r + carry * u);
  }

  lemma LargeRemainder(k: int, u: int, w: nat, n: nat)
    requires 1 < w <= n && 0 < k <= Pow2(w - 1) <= u < Pow2(w)
    ensures var carry := if k % u > Pow2(n) % u then 1 else 0;
            Cong(Pow2(n) % u - k % u + carry * u, -(k % (Pow2(w) - u)), Pow2(w)) <==> RemainderAgrees(-k, u, w, n)
  {
    hide Pow2;
    Sizes(w, n);
    var r, m, v := Pow2(n) % u, Pow2(w), Pow2(w) - u;
    if k == u {
      DivModUnique(k, u, 1, 0);
      DivModUnique(k, v, 1, 0);
    } else {
      DivModUnique(k, u, 0, k);
      var carry := if k > r then 1 else 0;
      CongToZero(r - k + carry * u, -(k % v), m);
      QuotientSmall(k, v);
      Multiples(k, v);
      if carry == 0 { Within(r - k + k % v, m); } else { DivModUnique(r - k + u + k % v, m, 0, r - k + u + k % v); }
    }
  }

  /** k rounded down to a multiple of v. */
  lemma Multiples(k: int, v: int)
    requires k >= 0 && v > 0
    ensures 0 <= k - k % v <= k < k - k % v + v
  {
    MulMonotone(0, k / v, v);
    QuotientSmall(k, v);
  }

  lemma Within(d: int, m: int)
    requires -m < d < m
    ensures d % m == 0 <==> d == 0
  {
    if d % m == 0 {
      assert d == d / m * m;
      SmallMultiple(d / m, m);
    }
  }

  // ----- the emitted expression -----

  /** The common type is the literal's when that is at least as wide as the
      dividend's; otherwise the dividend's, and signed. */
  lemma CommonTypes(x: Num, u: int, n: nat)
    requires x.signed && ValidNum(x) && n >= 64 && InRange(n, false, u)
    ensures x.bits <= n ==> Balance(x, Num(n, false, u)) == (Num(n, false, x.v % Pow2(n)), Num(n, false, u))
    ensures x.bits > n ==> Balance(x, Num(n, false, u)) == (x, Num(x.bits, true, u))
  {
    hide Pow2, Wrap;
    WrapId(n, false, u);
    PromoteValid(x);
    WrapUnsigned(n, x.v);
    if x.bits > n {
      WrapId(x.bits, true, x.v);
      InRangeWider(n, false, u, x.bits, true);
      WrapId(x.bits, true, u);
    }
  }

  lemma WrapUnsigned(n: nat, v: int)
    requires n > 0
    ensures Wrap(n, false, v) == v % Pow2(n)
  {
    hide Pow2;
  }

  lemma UnsignedApply(op: BinOp, a: int, u: int, n: nat, x: Num, y: Num)
    requires (op.Div? || op.Rem?) && n > 0 && InRange(n, false, a) && 0 < u
    requires Balance(x, y) == (Num(n, false, a), Num(n, false, u))
    ensures Apply(op, x, y) == Some(Num(n, false, if op.Div? then a / u else a % u))
  {
    hide Pow2, Wrap, TruncDiv, TruncRem, Balance;
    TruncOfNat(a, u);
    QuotientSmall(a, u);
    WrapId(n, false, a / u);
    WrapId(n, false, a % u);
  }

  /** Main result: dividing a signed variable, or a signed literal, by an unsigned
      literal of its type gives the signed quotient or remainder exactly under the
      condition, which a caller can compute from the two values; a divisor narrower
      than the dividend's text is always right. */
  lemma SignedDivisionByUnsignedLiteral(op: IntOp, l: Operand, u: int, temps: Vars<Num>, pats: Vars<int>,
                                        tys: Vars<TypeName>, ptr: nat)
    requires (op.ISDiv? || op.ISRem?) && Canonical(temps, pats, tys, ptr)
    requires Sized(l.ty, ptr) && 1 < Width(l.ty, ptr) <= 128 && Known(l, tys) && ShowsSigned(l, ptr)
    requires 0 < u < Pow2(Width(l.ty, ptr)) && Meaning(Binary(op, l, Operand(UintText(u), l.ty)), pats, ptr).Some?
    ensures var r := Operand(UintText(u), l.ty);
            var w, n, x := Width(l.ty, ptr), TextBits(r, ptr), S(Width(l.ty, ptr), Pattern(l, pats, ptr));
            Stores(EmitBinary(op, l, r), temps, l.ty, ptr, Meaning(Binary(op, l, r), pats, ptr).value)
            <==> TextBits(l, ptr) > n || (if op.ISDiv? then QuotientAgrees(x, u, w, n) else RemainderAgrees(x, u, w, n))
  {
    hide Apply, Canonical, Known, Pattern, Denote, Wrap, BinaryMeaning, Cong, Eval, Convert, S, Pow2, QuotientAgrees,
         RemainderAgrees;
    var r := Operand(UintText(u), l.ty);
    var cop := if op.ISDiv? then Div else Rem;
    var w, n := Width(l.ty, ptr), TextBits(r, ptr);
    var v, a := GetFacts(l, temps, pats, tys, ptr);
    LiteralKnown(u, l.ty, tys, ptr);
    var y, b := GetFacts(r, temps, pats, tys, ptr);
    LiteralNum(u, temps, r, ptr);
    EvalBinop(cop, l, r, temps, ptr);
    SignedNum(l, v, a, w, u, tys, ptr);
    CommonTypes(v, u, n);
    LiteralPattern(u, w, b, y);
    DivisionMeaning(op, a, u, w);
    if v.bits <= n {
      UnsignedSide(op, v, u, a, w, n);
    } else {
      SignedSide(op, v, u, a, w, n);
    }
  }

  /** -6 % 3 with the divisor written 3ULL fails the condition too, and so does the
      quotient with -6 written as its pattern. */
  lemma RemainderFails()
    ensures Pow2(32) > 3 && !RemainderAgrees(-6, 3, 32, 64) && !QuotientAgrees(-6, 3, 32, 64)
    ensures !LiteralsAgree(ISDiv, 0xffff_fffa, 3, 32)
  {
    hide Pow2;
    LiteralRange(64);
  }

  lemma LiteralKnown(u: int, ty: TypeName, tys: Vars<TypeName>, ptr: nat)
    requires 0 <= u < Pow2(Width(ty, ptr)) && Width(ty, ptr) <= 128
    ensures Known(Operand(UintText(u), ty), tys) && InRange(128, false, u)
  {
    hide Pow2;
    Pow2Monotone(Width(ty, ptr), 128);
  }

  lemma LiteralNum(u: int, temps: Vars<Num>, r: Operand, ptr: nat)
    requires r.text == UintText(u) && InRange(128, false, u)
    ensures var n := TextBits(r, ptr);
            (n == 64 || n == 128) && Denote(r.text, temps) == Some(Num(n, false, u)) && InRange(n, false, u)
  {
    hide Pow2;
    LiteralRange(64);
  }

  /** A signed operand's number against the literal's width n. */
  lemma SignedNum(l: Operand, v: Num, a: int, w: nat, u: int, tys: Vars<TypeName>, ptr: nat)
    requires Scalar(l.ty, ptr) && Facts(l, v, a, w, ptr) && ShowsSigned(l, ptr) && Known(l, tys)
    requires 1 < w <= 128 && 0 <= u < Pow2(w)
    ensures v == Num(TextBits(l, ptr), true, S(w, a)) && ValidNum(v) && 0 <= a < Pow2(w) && InRange(w, true, v.v)
    ensures var n := TextBits(Operand(UintText(u), l.ty), ptr);
            if v.bits > n then n < w <= v.bits else AtWidth(v.v, u, w, n)
  {
    hide Pow2, Wrap;
    WrapCong(w, true, a);
    LiteralRange(64);
    Pow2Monotone(w, 128);
    if w <= 64 { NarrowTexts(l, u, w, ptr); }
  }

  lemma NarrowTexts(l: Operand, u: int, w: nat, ptr: nat)
    requires Scalar(l.ty, ptr) && w == Width(l.ty, ptr) <= 64 && ShowsSigned(l, ptr) && 0 <= u < Pow2(w)
    ensures TextBits(Operand(UintText(u), l.ty), ptr) == 64 && (l.text.IntText? ==> TextBits(l, ptr) == 64)
  {
    hide Pow2;
    LiteralRange(64);
    Pow2Monotone(w, 64);
    Pow2Monotone(w - 1, 63);
  }

  lemma LiteralPattern(u: int, w: nat, b: int, y: Num)
    requires w > 0 && 0 <= u < Pow2(w) && y.v == u && 0 <= b < Pow2(w) && Cong(y.v, b, Pow2(w))
    ensures b == u
  {
    DivModUnique(u, Pow2(w), 0, u);
    DivModUnique(b, Pow2(w), 0, b);
  }

  lemma DivisionMeaning(op: IntOp, a: int, u: int, w: nat)
    requires (op.ISDiv? || op.ISRem?) && w > 0 && BinaryMeaning(op, a, u, w).Some?
    ensures S(w, u) != 0 && !(S(w, a) == -Pow2(w - 1) && S(w, u) == -1)
    ensures BinaryMeaning(op, a, u, w).value
            == (if op.ISDiv? then TruncDiv(S(w, a), S(w, u)) else TruncRem(S(w, a), S(w, u))) % Pow2(w)
  {
    hide Pow2, S, TruncDiv, TruncRem, BitOp;
  }

  lemma UnsignedSide(op: IntOp, v: Num, u: int, a: int, w: nat, n: nat)
    requires (op.ISDiv? || op.ISRem?) && AtWidth(v.v, u, w, n) && u > 0 && v.v == S(w, a)
    requires Balance(v, Num(n, false, u)) == (Num(n, false, v.v % Pow2(n)), Num(n, false, u))
    requires BinaryMeaning(op, a, u, w).Some?
    ensures var res := Apply(if op.ISDiv? then Div else Rem, v, Num(n, false, u));
            && res.Some?
            && (Convert(w, true, res.value.v) == Wrap(w, true, BinaryMeaning(op, a, u, w).value)
                <==> if op.ISDiv? then QuotientAgrees(v.v, u, w, n) else RemainderAgrees(v.v, u, w, n))
  {
    hide Pow2, Wrap, TruncDiv, TruncRem, Balance, Cong, Apply, BinaryMeaning, S, QuotientAgrees, RemainderAgrees,
         Convert;
    var cop := if op.ISDiv? then Div else Rem;
    var d := v.v % Pow2(n);
    CongMod(v.v, Pow2(n));
    UnsignedApply(cop, d, u, n, v, Num(n, false, u));
    DivisionMeaning(op, a, u, w);
    var e := if op.ISDiv? then TruncDiv(v.v, S(w, u)) else TruncRem(v.v, S(w, u));
    var c := if op.ISDiv? then d / u else d % u;
    StoredIff(c, e % Pow2(w), w, true);
    CongMod(e, Pow2(w));
    CongSwap(c, e % Pow2(w), e, Pow2(w)) by { CongFlip(e, Pow2(w)); }
    if op.ISDiv? { QuotientIff(v.v, u, S(w, u), w, n); } else { RemainderIff(v.v, u, S(w, u), w, n); }
  }

  lemma CongFlip(e: int, m: int)
    requires m > 0
    ensures Cong(e, e % m, m)
  {
    CongMod(e, m);
  }

  lemma SignedSide(op: IntOp, v: Num, u: int, a: int, w: nat, n: nat)
    requires (op.ISDiv? || op.ISRem?) && 64 <= n < w <= v.bits && v.signed && v.v == S(w, a) && ValidNum(v) && 0 < u
             && InRange(n, false, u)
    requires Balance(v, Num(n, false, u)) == (v, Num(v.bits, true, u)) && BinaryMeaning(op, a, u, w).Some?
    ensures var res := Apply(if op.ISDiv? then Div else Rem, v, Num(n, false, u));
            res.Some? && Convert(w, true, res.value.v) == Wrap(w, true, BinaryMeaning(op, a, u, w).value)
  {
    hide Pow2, Wrap, TruncDiv, TruncRem, Cong, BinaryMeaning, Convert, Balance;
    Pow2Monotone(n, w - 1);
    Pow2Monotone(n, v.bits - 1);
    Double(w);
    SignedPattern(w, u);
    DivisionMeaning(op, a, u, w);
    DivisionApply(if op.ISDiv? then Div else Rem, v, Num(v.bits, true, u)) by { WideBalance(v, u, v.bits); }
    SameBalance(if op.ISDiv? then Div else Rem, v, Num(n, false, u), Num(v.bits, true, u))
      by { WideBalance(v, u, v.bits); }
    var e := if op.ISDiv? then TruncDiv(v.v, u) else TruncRem(v.v, u);
    WideBalance(v, u, v.bits);
    WrapCongNarrow(v.bits, true, e, w);
    CongMod(e, Pow2(w));
    CongTrans(Wrap(v.bits, true, e), e, e % Pow2(w), Pow2(w));
    StoreCong(Wrap(v.bits, true, e), e % Pow2(w), w, true);
  }

  lemma WideBalance(v: Num, u: int, w: nat)
    requires w >= 64 && v.bits == w && v.signed && ValidNum(v) && InRange(w, true, u)
    ensures Balance(v, Num(w, true, u)) == (v, Num(w, true, u))
  {
    hide Pow2, Wrap;
    WrapId(w, true, v.v);
    WrapId(w, true, u);
  }

  lemma SameBalance(op: BinOp, x: Num, y: Num, z: Num)
    requires (op.Div? || op.Rem?) && Balance(x, y) == Balance(x, z)
    ensures Apply(op, x, y) == Apply(op, x, z)
  {
    hide Balance, TruncDiv, TruncRem, Wrap, Pow2;
  }

  // ----- the literal as the dividend -----

  /** u is the literal, y the w-bit signed divisor, n the width they are divided at. */
  predicate DividendAgrees(op: IntOp, u: int, y: int, w: nat, n: nat)
    requires w > 0 && 0 <= u < Pow2(w) && y != 0
  {
    var v := Pow2(w) - u;
    if y > 0 then u < Pow2(w - 1) || (if op.ISDiv? then y == 1 else u % y == 0 && v % y == 0)
    else if n < w then u < -y || (op.ISRem? && u >= Pow2(n) + y && Pow2(n) % -y == 0)
    else if u < Pow2(w - 1) then u < -y
    else if n > w then v < -y else v == -y
  }

  /** Dividing by a positive number. */
  lemma PositiveDivisor(op: IntOp, u: int, y: int, w: nat, n: nat)
    requires (op.ISDiv? || op.ISRem?) && 1 < w && 0 < y < Pow2(w - 1) && 0 <= u < Pow2(w)
    ensures var v := Pow2(w) - u;
            var meant := if u < Pow2(w - 1) then (if op.ISDiv? then u / y else u % y) else if op.ISDiv? then -(v / y)
                else -(v % y);
            Cong(if op.ISDiv? then u / y else u % y, meant, Pow2(w)) <==> DividendAgrees(op, u, y, w, n)
  {
    hide Pow2;
    Double(w);
    if u >= Pow2(w - 1) {
      var m, v := Pow2(w), Pow2(w) - u;
      QuotientSmall(u, y);
      QuotientSmall(v, y);
      if op.ISDiv? {
        CongToZero(u / y, -(v / y), m);
        QuotientSum(u, v, y);
        Positive(u, y);
        if u / y + v / y < m { DivModUnique(u / y + v / y, m, 0, u / y + v / y); } else { DivModUnique(m, m, 1, 0); }
      } else {
        CongToZero(u % y, -(v % y), m);
        DivModUnique(u % y + v % y, m, 0, u % y + v % y);
      }
    }
  }

  lemma QuotientSum(u: int, v: int, y: int)
    requires u > 0 && v > 0 && y > 0
    ensures u / y + v / y <= u + v && (u / y + v / y == u + v <==> y == 1)
  {
    QuotientSmall(u, y);
    QuotientSmall(v, y);
    if y > 1 {
      MulMonotone(2, y, u / y);
      MulMonotone(2, y, v / y);
    }
  }

  lemma Positive(u: int, y: int)
    requires u >= y > 0
    ensures u / y >= 1
  {
    if u / y < 1 { MulMonotone(u / y, 0, y); }
  }

  /** Dividing by a negative number, whose wrapped value is large. */
  lemma NegativeDivisor(op: IntOp, u: int, k: int, w: nat, n: nat)
    requires (op.ISDiv? || op.ISRem?) && 1 < w <= n && 0 < k <= Pow2(w - 1) && 0 <= u < Pow2(w)
    ensures var v, d := Pow2(w) - u, Pow2(n) - k;
            var meant := if u < Pow2(w - 1) then (if op.ISDiv? then -(u / k) else u % k) else if op.ISDiv? then v / k
                else -(v % k);
            && d > 0
            && (Cong(if op.ISDiv? then u / d else u % d, meant, Pow2(w)) <==> DividendAgrees(op, u, -k, w, n))
  {
    hide Pow2;
    Sizes(w, n);
    var m, v, d := Pow2(w), Pow2(w) - u, Pow2(n) - k;
    if n > w {
      Double(w + 1);
      Pow2Monotone(w + 1, n);
    }
    if u < d {
      DivModUnique(u, d, 0, u);
      SmallDividend(op, u, k, w);
    } else {
      DivModUnique(u, d, 1, u - d);
      LargeDividend(op, u, k, w);
    }
  }

  /** The wrapped divisor exceeds the literal: quotient 0, remainder u. */
  lemma SmallDividend(op: IntOp, u: int, k: int, w: nat)
    requires (op.ISDiv? || op.ISRem?) && 1 < w && 0 < k <= Pow2(w - 1) && 0 <= u < Pow2(w)
    ensures var v := Pow2(w) - u;
            var meant := if u < Pow2(w - 1) then (if op.ISDiv? then -(u / k) else u % k) else if op.ISDiv? then v / k
                else -(v % k);
            Cong(if op.ISDiv? then 0 else u, meant, Pow2(w)) <==> (if u < Pow2(w - 1) then u < k else v < k)
  {
    hide Pow2;
    Double(w);
    var m, v := Pow2(w), Pow2(w) - u;
    if u < Pow2(w - 1) {
      QuotientSmall(u, k);
      BelowDivisor(u, k);
      CongToZero(0, -(u / k), m);
      DivModUnique(u / k, m, 0, u / k);
      CongToResidue(u, u % k, m);
      DivModUnique(u, m, 0, u);
    } else {
      QuotientSmall(v, k);
      BelowDivisor(v, k);
      CongToResidue(0, v / k, m);
      CongToZero(u, -(v % k), m);
      DivModUnique(u + v % k, m, if v < k then 1 else 0, if v < k then 0 else u + v % k);
    }
  }

  /** At the literal's own width it may exceed the wrapped divisor 2^w - k. */
  lemma LargeDividend(op: IntOp, u: int, k: int, w: nat)
    requires (op.ISDiv? || op.ISRem?) && 1 < w && 0 < k <= Pow2(w - 1) && Pow2(w) - k <= u < Pow2(w)
    ensures var v := Pow2(w) - u;
            var c, e := if op.ISDiv? then 1 else u - (Pow2(w) - k), if op.ISDiv? then v / k else -(v % k);
            u >= Pow2(w - 1) && (Cong(c, e, Pow2(w)) <==> v == k)
  {
    hide Pow2;
    Double(w);
    Pow2Monotone(1, w - 1);
    LiteralRange(1);
    var m, v := Pow2(w), Pow2(w) - u;
    if v == k {
      DivModUnique(v, k, 1, 0);
    } else {
      DivModUnique(v, k, 0, v);
    }
    CongToResidue(1, v / k, m);
    DivModUnique(1, m, 0, 1);
    CongToZero(k - v, -(v % k), m);
    DivModUnique(k - v + v % k, m, 0, k - v + v % k);
  }

  /** At a width below the type's the wrapped divisor 2^n - k may be reached too. */
  lemma NegativeDivisorBelow(op: IntOp, u: int, k: int, w: nat, n: nat)
    requires (op.ISDiv? || op.ISRem?) && 1 < n < w && 0 < k <= Pow2(n - 1) && 0 <= u < Pow2(n) && u < Pow2(w - 1)
    ensures var d := Pow2(n) - k;
            && d > 0
            && (Cong(if op.ISDiv? then u / d else u % d, if op.ISDiv? then -(u / k) else u % k, Pow2(w))
                <==> DividendAgrees(op, u, -k, w, n))
  {
    hide Pow2;
    Sizes(w, w);
    Sizes(n, n);
    var m, d := Pow2(w), Pow2(n) - k;
    if u < d {
      DivModUnique(u, d, 0, u);
      SmallBelow(op, u, k, m);
    } else {
      DivModUnique(u, d, 1, u - d);
      LargeBelow(op, u, k, d, m);
    }
  }

  lemma SmallBelow(op: IntOp, u: int, k: int, m: int)
    requires (op.ISDiv? || op.ISRem?) && 0 < k && 0 <= u && 2 * u < m
    ensures Cong(if op.ISDiv? then 0 else u, if op.ISDiv? then -(u / k) else u % k, m) <==> u < k
  {
    QuotientSmall(u, k);
    BelowDivisor(u, k);
    CongToZero(0, -(u / k), m);
    DivModUnique(u / k, m, 0, u / k);
    CongToResidue(u, u % k, m);
    DivModUnique(u, m, 0, u);
  }

  lemma LargeBelow(op: IntOp, u: int, k: int, d: int, m: int)
    requires (op.ISDiv? || op.ISRem?) && 0 < k <= d <= u < d + k && 2 * u < m
    ensures Cong(if op.ISDiv? then 1 else u - d, if op.ISDiv? then -(u / k) else u % k, m)
            <==> op.ISRem? && (d + k) % k == 0
  {
    QuotientSmall(u, k);
    CongToZero(1, -(u / k), m);
    DivModUnique(1 + u / k, m, 0, 1 + u / k);
    CongToResidue(u - d, u % k, m);
    DivModUnique(u - d, m, 0, u - d);
    ModShift(d, 1, k);
    if u % k == u - d { DivModUnique(d, k, u / k, 0); }
    if d % k == 0 { DivModUnique(u, k, d / k, u - d); }
  }

  /** The signed division meant of a literal. */
  lemma MeantDividend(u: int, y: int, w: nat, s: int)
    requires w > 1 && 0 <= u < Pow2(w) && s == S(w, u) && y != 0
    ensures TruncDiv(s, y) == if y > 0 then (if u < Pow2(w - 1) then u / y else -((Pow2(w) - u) / y))
                              else if u < Pow2(w - 1) then -(u / -y) else (Pow2(w) - u) / -y
    ensures TruncRem(s, y) == if y > 0 then (if u < Pow2(w - 1) then u % y else -((Pow2(w) - u) % y))
                              else if u < Pow2(w - 1) then u % -y else -((Pow2(w) - u) % -y)
  {
    hide Pow2, TruncDiv, TruncRem, S;
    SignedPattern(w, u);
    TruncatingDivision(s, y);
  }

  lemma DividendIff(op: IntOp, u: int, y: int, w: nat, n: nat)
    requires (op.ISDiv? || op.ISRem?) && AtWidth(y, u, w, n) && y != 0
    ensures y % Pow2(n) > 0
    ensures Cong(if op.ISDiv? then u / (y % Pow2(n)) else u % (y % Pow2(n)),
                 if op.ISDiv? then TruncDiv(S(w, u), y) else TruncRem(S(w, u), y), Pow2(w))
            <==> DividendAgrees(op, u, y, w, n)
  {
    hide Pow2, TruncDiv, TruncRem, Cong, S, DividendAgrees;
    if y > 0 { PositiveIff(op, u, y, w, n); } else { NegativeIff(op, u, y, w, n); }
  }

  lemma PositiveIff(op: IntOp, u: int, y: int, w: nat, n: nat)
    requires (op.ISDiv? || op.ISRem?) && AtWidth(y, u, w, n) && y > 0
    ensures y % Pow2(n) > 0
    ensures Cong(if op.ISDiv? then u / (y % Pow2(n)) else u % (y % Pow2(n)),
                 if op.ISDiv? then TruncDiv(S(w, u), y) else TruncRem(S(w, u), y), Pow2(w))
            <==> DividendAgrees(op, u, y, w, n)
  {
    hide Pow2, TruncDiv, TruncRem, Cong, S, DividendAgrees;
    AtWidthFacts(y, u, w, n);
    MeantDividend(u, y, w, S(w, u));
    DivModUnique(y, Pow2(n), 0, y);
    PositiveDivisor(op, u, y, w, n);
  }

  lemma NegativeIff(op: IntOp, u: int, y: int, w: nat, n: nat)
    requires (op.ISDiv? || op.ISRem?) && AtWidth(y, u, w, n) && y < 0
    ensures y % Pow2(n) > 0
    ensures Cong(if op.ISDiv? then u / (y % Pow2(n)) else u % (y % Pow2(n)),
                 if op.ISDiv? then TruncDiv(S(w, u), y) else TruncRem(S(w, u), y), Pow2(w))
            <==> DividendAgrees(op, u, y, w, n)
  {
    hide Pow2, TruncDiv, TruncRem, Cong, S, DividendAgrees;
    AtWidthFacts(y, u, w, n);
    MeantDividend(u, y, w, S(w, u));
    DivModUnique(y, Pow2(n), -1, y + Pow2(n));
    if w <= n { NegativeDivisor(op, u, -y, w, n); } else { NegativeDivisorBelow(op, u, -y, w, n); }
  }

  lemma BalanceFlips(x: Num, y: Num)
    ensures Balance(x, y) == (Balance(y, x).1, Balance(y, x).0)
  {
    hide Wrap;
  }

  /** Dividing an unsigned literal by a signed variable or literal of its type,
      likewise. */
  lemma UnsignedLiteralBySigned(op: IntOp, u: int, r: Operand, temps: Vars<Num>, pats: Vars<int>, tys: Vars<TypeName>,
                                ptr: nat)
    requires (op.ISDiv? || op.ISRem?) && Canonical(temps, pats, tys, ptr)
    requires Sized(r.ty, ptr) && 1 < Width(r.ty, ptr) <= 128 && Known(r, tys) && ShowsSigned(r, ptr)
    requires 0 <= u < Pow2(Width(r.ty, ptr)) && Meaning(Binary(op, Operand(UintText(u), r.ty), r), pats, ptr).Some?
    ensures S(Width(r.ty, ptr), Pattern(r, pats, ptr)) != 0
    ensures var l := Operand(UintText(u), r.ty);
            var w, n, y := Width(r.ty, ptr), TextBits(l, ptr), S(Width(r.ty, ptr), Pattern(r, pats, ptr));
            Stores(EmitBinary(op, l, r), temps, r.ty, ptr, Meaning(Binary(op, l, r), pats, ptr).value)
            <==> TextBits(r, ptr) > n || DividendAgrees(op, u, y, w, n)
  {
    hide Apply, Canonical, Known, Pattern, Denote, Wrap, BinaryMeaning, Cong, Eval, Convert, S, Pow2, DividendAgrees,
         Balance;
    var l := Operand(UintText(u), r.ty);
    var cop := if op.ISDiv? then Div else Rem;
    var w, n := Width(r.ty, ptr), TextBits(l, ptr);
    var v, b := GetFacts(r, temps, pats, tys, ptr);
    LiteralKnown(u, r.ty, tys, ptr);
    var x, a := GetFacts(l, temps, pats, tys, ptr);
    LiteralNum(u, temps, l, ptr);
    EvalBinop(cop, l, r, temps, ptr);
    SignedNum(r, v, b, w, u, tys, ptr);
    CommonTypes(v, u, n);
    BalanceFlips(x, v);
    LiteralPattern(u, w, a, x);
    DividendMeaning(op, u, b, w);
    if v.bits <= n {
      UnsignedDividend(op, u, v, b, w, n);
    } else {
      SignedDividend(op, u, v, b, w, n);
    }
  }

  lemma DividendMeaning(op: IntOp, u: int, b: int, w: nat)
    requires (op.ISDiv? || op.ISRem?) && w > 0 && BinaryMeaning(op, u, b, w).Some?
    ensures S(w, b) != 0 && !(S(w, u) == -Pow2(w - 1) && S(w, b) == -1)
    ensures BinaryMeaning(op, u, b, w).value
            == (if op.ISDiv? then TruncDiv(S(w, u), S(w, b)) else TruncRem(S(w, u), S(w, b))) % Pow2(w)
  {
    hide Pow2, S, TruncDiv, TruncRem, BitOp;
  }

  lemma UnsignedDividend(op: IntOp, u: int, v: Num, b: int, w: nat, n: nat)
    requires (op.ISDiv? || op.ISRem?) && AtWidth(v.v, u, w, n) && v.v == S(w, b)
    requires Balance(Num(n, false, u), v) == (Num(n, false, u), Num(n, false, v.v % Pow2(n)))
    requires BinaryMeaning(op, u, b, w).Some?
    ensures v.v != 0
    ensures var res := Apply(if op.ISDiv? then Div else Rem, Num(n, false, u), v);
            && res.Some?
            && (Convert(w, true, res.value.v) == Wrap(w, true, BinaryMeaning(op, u, b, w).value)
                <==> DividendAgrees(op, u, v.v, w, n))
  {
    hide Pow2, Wrap, TruncDiv, TruncRem, Balance, Cong, Apply, BinaryMeaning, S, DividendAgrees, Convert;
    DividendMeaning(op, u, b, w);
    DividendIff(op, u, v.v, w, n);
    var d := v.v % Pow2(n);
    AtWidthFacts(v.v, u, w, n);
    UnsignedApply(if op.ISDiv? then Div else Rem, u, d, n, Num(n, false, u), v);
    var e := if op.ISDiv? then TruncDiv(S(w, u), v.v) else TruncRem(S(w, u), v.v);
    var c := if op.ISDiv? then u / d else u % d;
    StoredIff(c, e % Pow2(w), w, true);
    CongFlip(e, Pow2(w));
    CongSwap(c, e % Pow2(w), e, Pow2(w));
  }

  lemma SignedDividend(op: IntOp, u: int, v: Num, b: int, w: nat, n: nat)
    requires (op.ISDiv? || op.ISRem?) && 64 <= n < w <= v.bits && v.signed && v.v == S(w, b) && ValidNum(v) && 0 <= u
             && InRange(n, false, u)
    requires Balance(Num(n, false, u), v) == (Num(v.bits, true, u), v) && BinaryMeaning(op, u, b, w).Some?
    ensures var res := Apply(if op.ISDiv? then Div else Rem, Num(n, false, u), v);
            res.Some? && Convert(w, true, res.value.v) == Wrap(w, true, BinaryMeaning(op, u, b, w).value)
  {
    hide Pow2, Wrap, TruncDiv, TruncRem, Cong, BinaryMeaning, Convert, Balance, S;
    Pow2Monotone(n, w - 1);
    Pow2Monotone(n, v.bits - 1);
    Double(w);
    SignedPattern(w, u);
    DividendMeaning(op, u, b, w);
    BalanceFlips(Num(v.bits, true, u), v);
    WideBalance(v, u, v.bits);
    BalanceFlips(v, Num(v.bits, true, u));
    DivisionApply(if op.ISDiv? then Div else Rem, Num(v.bits, true, u), v);
    SameDividend(if op.ISDiv? then Div else Rem, Num(n, false, u), Num(v.bits, true, u), v);
    var e := if op.ISDiv? then TruncDiv(u, v.v) else TruncRem(u, v.v);
    WrapCongNarrow(v.bits, true, e, w);
    CongFlip(e, Pow2(w));
    CongTrans(Wrap(v.bits, true, e), e, e % Pow2(w), Pow2(w));
    StoreCong(Wrap(v.bits, true, e), e % Pow2(w), w, true);
  }

  lemma SameDividend(op: BinOp, x: Num, z: Num, y: Num)
    requires (op.Div? || op.Rem?) && Balance(x, y) == Balance(z, y)
    ensures Apply(op, x, y) == Apply(op, z, y)
  {
    hide Balance, TruncDiv, TruncRem, Wrap, Pow2;
  }

  // ----- two literals -----

  /** u is divided by v, both read as w-bit signed numbers. */
  predicate LiteralsAgree(op: IntOp, u: int, v: int, w: nat)
    requires w > 0 && v != 0
  {
    var m, h := Pow2(w), Pow2(w - 1);
    if v < h then u < h || (if op.ISDiv? then v == 1 else u % v == 0 && (m - u) % v == 0)
    else if u < h then u < m - v
    else u == v
  }

  lemma LiteralsIff(op: IntOp, u: int, v: int, w: nat, s: int)
    requires (op.ISDiv? || op.ISRem?) && 1 < w && 0 <= u < Pow2(w) && 0 < v < Pow2(w) && s == S(w, v) && s != 0
    requires !(S(w, u) == -Pow2(w - 1) && s == -1)
    ensures Cong(if op.ISDiv? then u / v else u % v, if op.ISDiv? then TruncDiv(S(w, u), s) else TruncRem(S(w, u), s),
                 Pow2(w))
            <==> LiteralsAgree(op, u, v, w)
  {
    hide Pow2, TruncDiv, TruncRem, Cong, S;
    Sizes(w, w);
    SignedPattern(w, u);
    SignedPattern(w, v);
    MeantDivision(S(w, u), v, w, s);
    if u < Pow2(w - 1) {
      if op.ISDiv? { NonnegativeQuotient(u, v, w, w); } else { NonnegativeRemainder(u, v, w, w); }
    } else if v < Pow2(w - 1) {
      PositiveDivisor(op, u, v, w, w);
    } else {
      BothLarge(op, u, v, w);
    }
  }

  /** Both read as negative, the smallest value is not divided by -1. */
  lemma BothLarge(op: IntOp, u: int, v: int, w: nat)
    requires (op.ISDiv? || op.ISRem?) && 1 < w && Pow2(w - 1) <= u < Pow2(w) && Pow2(w - 1) <= v < Pow2(w)
    requires !(u == Pow2(w - 1) && v == Pow2(w) - 1)
    ensures var c, d := Pow2(w) - u, Pow2(w) - v;
            Cong(if op.ISDiv? then u / v else u % v, if op.ISDiv? then c / d else -(c % d), Pow2(w)) <==> u == v
  {
    hide Pow2;
    Sizes(w, w);
    var m, c, d := Pow2(w), Pow2(w) - u, Pow2(w) - v;
    QuotientSmall(c, d);
    if u < v {
      DivModUnique(u, v, 0, u);
      AtLeastOnce(c, d);
      CongToResidue(0, c / d, m);
      CongToZero(u, -(c % d), m);
      Multiples(c, d);
      DivModUnique(u + c % d, m, 0, u + c % d);
    } else if u == v {
      DivModUnique(u, v, 1, 0);
      DivModUnique(c, d, 1, 0);
    } else {
      DivModUnique(u, v, 1, u - v);
      DivModUnique(c, d, 0, c);
      CongToResidue(1, 0, m);
      DivModUnique(1, m, 0, 1);
      CongToZero(u - v, -c, m);
      DivModUnique(m - v, m, 0, m - v);
    }
  }

  lemma AtLeastOnce(c: int, d: int)
    requires 0 < d < c
    ensures 0 < c / d && c / d < c + d && c % d < d
  {
    QuotientSmall(c, d);
    Positive(c, d);
  }

  /** Both operands unsigned literals of one signed type: the division runs unsigned
      on the two patterns. */
  lemma TwoUnsignedLiterals(op: IntOp, u: int, v: int, ty: TypeName, temps: Vars<Num>, pats: Vars<int>, ptr: nat)
    requires (op.ISDiv? || op.ISRem?) && Sized(ty, ptr) && Signed(ty) && 1 < Width(ty, ptr) <= 128
    requires 0 <= u < Pow2(Width(ty, ptr)) && 0 <= v < Pow2(Width(ty, ptr))
    requires Meaning(Binary(op, Operand(UintText(u), ty), Operand(UintText(v), ty)), pats, ptr).Some?
    ensures v != 0
    ensures var l, r := Operand(UintText(u), ty), Operand(UintText(v), ty);
            Stores(EmitBinary(op, l, r), temps, ty, ptr, Meaning(Binary(op, l, r), pats, ptr).value)
            <==> LiteralsAgree(op, u, v, Width(ty, ptr))
  {
    hide Apply, Wrap, BinaryMeaning, Cong, Eval, Convert, S, Pow2, LiteralsAgree, Denote, Balance;
    var l, r, w := Operand(UintText(u), ty), Operand(UintText(v), ty), Width(ty, ptr);
    var cop := if op.ISDiv? then Div else Rem;
    UnsignedText(u, ty, temps, ptr);
    UnsignedText(v, ty, temps, ptr);
    EvalBinop(cop, l, r, temps, ptr);
    DivisionMeaning(op, u, v, w);
    SignedPattern(w, v);
    LiteralsIff(op, u, v, w, S(w, v));
    var x, y := Denote(l.text, temps).value, Denote(r.text, temps).value;
    var n := UnsignedPair(x, y);
    UnsignedApply(cop, u, v, n, x, y);
    var e := if op.ISDiv? then TruncDiv(S(w, u), S(w, v)) else TruncRem(S(w, u), S(w, v));
    var c := if op.ISDiv? then u / v else u % v;
    StoredIff(c, e % Pow2(w), w, true);
    CongFlip(e, Pow2(w));
    CongSwap(c, e % Pow2(w), e, Pow2(w));
  }

  /** The number an unsigned literal denotes; it is its own pattern. */
  lemma UnsignedText(u: int, ty: TypeName, temps: Vars<Num>, ptr: nat)
    requires Width(ty, ptr) <= 128 && 0 <= u < Pow2(Width(ty, ptr))
    ensures u % Pow2(Width(ty, ptr)) == u
    ensures var n := TextBits(Operand(UintText(u), ty), ptr);
            (n == 64 || n == 128) && Denote(UintText(u), temps) == Some(Num(n, false, u)) && InRange(n, false, u)
  {
    hide Pow2;
    LiteralRange(64);
    DivModUnique(u, Pow2(Width(ty, ptr)), 0, u);
    Pow2Monotone(Width(ty, ptr), 128);
  }

  lemma UnsignedPair(x: Num, y: Num) returns (n: nat)
    requires ValidNum(x) && ValidNum(y) && !x.signed && !y.signed && x.bits >= 64 && y.bits >= 64
    ensures n > 0 && InRange(n, false, x.v) && InRange(n, false, y.v)
    ensures Balance(x, y) == (Num(n, false, x.v), Num(n, false, y.v))
  {
    hide Pow2, Wrap;
    n := CommonBits(x, y);
    BalanceExact(x, y);
    Pow2Monotone(x.bits, n);
    Pow2Monotone(y.bits, n);
  }
}
