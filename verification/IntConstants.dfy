/** Constants, switches, and where the integer lowering is exact and where not. */
module IntConstants {
  import opened Wrappers
  import opened IntMath
  import opened CSyntax
  import opened CSemantics
  import opened IntLowering

  // ----- sign extension of constants -----

  /** `((val as i128) << shift) >> shift`. */
  function SignExtend(val: int, bits: nat): int
    requires 0 < bits
  {
    var v := Wrap(128, true, val);
    if bits >= 128 then v
    else Wrap(128, true, v * Pow2(128 - bits)) / Pow2(128 - bits)
  }

  lemma SignExtendIsWrap(val: int, bits: nat)
    requires 0 < bits <= 128
    ensures SignExtend(val, bits) == Wrap(bits, true, val)
  {
    hide Pow2, Wrap;
    if bits < 128 {
      var k := Pow2(128 - bits);
      var s := Wrap(bits, true, val);
      WrapCongNarrow(128, true, val, bits);
      WrapCong(bits, true, val);
      CongTrans(Wrap(128, true, val), val, s, Pow2(bits));
      var j := CongWitness(Wrap(128, true, val), s, Pow2(bits));
      Pow2Add(bits, 128 - bits);
      Pow2Add(bits - 1, 128 - bits);
      ScaledRange(s, bits, k);
      ScaledWrap(Wrap(128, true, val), s, j, Pow2(bits), k);
      DivModUnique(s * k, k, s, 0);
    }
  }

  lemma ScaledWrap(v: int, s: int, j: int, m: int, k: int)
    requires m > 0 && k > 0 && m * k == Pow2(128) && v == s + j * m && InRange(128, true, s * k)
    ensures Wrap(128, true, v * k) == s * k
  {
    hide Pow2, Wrap;
    assert v * k == s * k + j * (m * k);
    ModShift(s * k, j, Pow2(128));
    WrapUnique(128, true, v * k, s * k);
  }

  lemma ScaledRange(s: int, bits: nat, k: int)
    requires 0 < bits < 128 && k == Pow2(128 - bits) && InRange(bits, true, s)
    requires Pow2(127) == Pow2(bits - 1) * k
    ensures InRange(128, true, s * k)
  {
    hide Pow2;
    var h := Pow2(bits - 1);
    MulMonotone(-h, s, k);
    MulMonotone(s, h - 1, k);
    assert -h * k == -(h * k) && (h - 1) * k == h * k - k;
  }

  /** `const_uint` and `const_uint_big`. */
  function ConstUint(ty: TypeName, u: int, ptr: nat): Operand
    requires Sized(ty, ptr)
  {
    if Signed(ty) then Operand(IntText(SignExtend(u, Width(ty, ptr))), ty) else Operand(UintText(u), ty)
  }

  /** `const_u8`, `const_u32`, `const_u64`, `const_u128`: a signed type of n bits
      with an unsigned literal. */
  function ConstUnsigned(n: nat, u: int): Operand {
    Operand(UintText(u), IntT(n, true))
  }

  /** `const_uint` has pattern u modulo 2^w; a signed constant shows its signed
      value, an unsigned one its unsigned value exactly when u fits the type. */
  lemma ConstUintShows(ty: TypeName, u: int, ptr: nat, pats: Vars<int>)
    requires Sized(ty, ptr) && Width(ty, ptr) <= 128 && InRange(128, false, u)
    ensures var o := ConstUint(ty, u, ptr);
            && Known(o, Vars([], []))
            && Pattern(o, pats, ptr) == u % Pow2(Width(ty, ptr))
            && (Signed(ty) ==> ShowsSigned(o, ptr))
            && (!Signed(ty) ==> (ShowsUnsigned(o, ptr) <==> u < Pow2(Width(ty, ptr))))
  {
    hide Pow2;
    var w := Width(ty, ptr);
    if Signed(ty) {
      SignExtendIsWrap(u, w);
      WrapCong(w, true, u);
      InRangeWider(w, true, Wrap(w, true, u), 128, true);
    }
  }

  /** The unsigned literals in signed types have the right pattern but never count
      as signed operands: they must stay out of sdiv, srem and sext. */
  lemma ConstUnsignedShows(n: nat, u: int, ptr: nat, pats: Vars<int>)
    requires Sized(IntT(n, true), ptr) && Width(IntT(n, true), ptr) > 1 && InRange(n, false, u)
    ensures var o := ConstUnsigned(n, u);
            && o.ty == IntT(n, true) && Pattern(o, pats, ptr) == u && ShowsPattern(o, ptr)
            && ShowsUnsigned(o, ptr) && !ShowsSigned(o, ptr)
  {
    DivModUnique(u, Pow2(n), 0, u);
  }

  /** -6 / 3 with the divisor written 3ULL: the division runs unsigned. */
  lemma UnsignedLiteralBreaksSignedDivision()
    ensures var l, r := Operand(Temp(0), IntT(32, true)), ConstUnsigned(32, 3);
            var temps, pats := Vars([], [Num(32, true, -6)]), Vars([], [0xffff_fffa]);
            && Canonical(temps, pats, Vars([], [IntT(32, true)]), 64)
            && Meaning(Binary(ISDiv, l, r), pats, 64) == Some(0xffff_fffe)
            && Eval(EmitBinary(ISDiv, l, r), temps, 64).Some?
            && Convert(32, true, Eval(EmitBinary(ISDiv, l, r), temps, 64).value.v) == 0x5555_5553
  {
    hide Pow2, Wrap, TruncDiv, Balance, Apply;
    MinusSix();
    MinusSixDivided();
    MinusSixOverThreeUnsigned();
  }

  lemma MinusSix()
    ensures Wrap(32, true, 0xffff_fffa) == -6 && S(32, 0xffff_fffa) == -6 && S(32, 3) == 3
    ensures Pow2(32) == 0x1_0000_0000 && Pow2(31) == 0x8000_0000 && -2 % Pow2(32) == 0xffff_fffe
    ensures Wrap(32, true, 0x5555_5555_5555_5553) == 0x5555_5553
  {
    hide Pow2;
    LiteralRange(64);
    DivModUnique(-2, 0x1_0000_0000, -1, 0xffff_fffe);
    assert 0x5555_5555_5555_5553 % 0x1_0000_0000 == 0x5555_5553;
  }

  lemma MinusSixDivided()
    ensures TruncDiv(-6, 3) == -2 && TruncDiv(0xffff_ffff_ffff_fffa, 3) == 0x5555_5555_5555_5553
  {
  }

  lemma MinusSixOverThreeUnsigned()
    ensures Apply(Div, Num(32, true, -6), Num(64, false, 3)) == Some(Num(64, false, 0x5555_5555_5555_5553))
  {
    hide Pow2, TruncDiv;
    LiteralRange(64);
    MinusSixDivided();
    DivModUnique(-6, 0x1_0000_0000_0000_0000, -1, 0xffff_ffff_ffff_fffa);
    assert Wrap(64, false, -6) == 0xffff_ffff_ffff_fffa && Wrap(64, false, 3) == 3;
    assert Wrap(64, false, 0x5555_5555_5555_5553) == 0x5555_5555_5555_5553;
  }

  // ----- switch -----

  /** The controlling expression: signed values are cast to unsigned. */
  function SwitchExpr(v: Operand): CExpr {
    match v.ty
    case IntT(bits, true) => Cast(IntT(bits, false), Var(v.text))
    case PtrWidthT(true) => Cast(PtrWidthT(false), Var(v.text))
    case _ => Var(v.text)
  }

  /** A case label is converted to the promoted type of the controlling
      expression (section 6.8.4.2 of C11). */
  predicate CaseMatches(n: Num, constant: int)
    requires n.bits > 0
  {
    var p := Promote(n);
    Wrap(p.bits, p.signed, constant) == p.v
  }

  lemma CaseExact(n: Num, a: int, constant: int, w: nat)
    requires ValidNum(n) && n.v == a && 0 <= a < Pow2(w) && 0 <= constant < Pow2(w) && 0 < w <= n.bits
    requires n.signed ==> w < n.bits
    ensures CaseMatches(n, constant) <==> constant == a
  {
    hide Wrap;
    PromoteValid(n);
    var p := Promote(n);
    if p.signed {
      Pow2Monotone(w, p.bits - 1);
    } else {
      Pow2Monotone(w, p.bits);
    }
    WrapId(p.bits, p.signed, constant);
  }

  /** The place of the first case whose label matches; the number of cases stands
      for the default. */
  function Chosen(n: Num, labels: seq<int>): nat
    requires n.bits > 0
  {
    if labels == [] || CaseMatches(n, labels[0]) then 0 else 1 + Chosen(n, labels[1..])
  }

  /** The place of the case whose constant is the pattern. */
  function Meant(a: int, labels: seq<int>): nat {
    if labels == [] || labels[0] == a then 0 else 1 + Meant(a, labels[1..])
  }

  lemma {:induction false} ChosenIsMeant(n: Num, a: int, labels: seq<int>)
    requires n.bits > 0
    ensures Chosen(n, labels) == Meant(a, labels)
            <==> forall k | 0 <= k < |labels| && k <= Meant(a, labels) :: CaseMatches(n, labels[k]) <==> labels[k] == a
    decreases labels
  {
    hide CaseMatches;
    if labels != [] {
      ChosenIsMeant(n, a, labels[1..]);
      forall k | 0 < k < |labels| ensures labels[k] == labels[1..][k - 1] {
      }
      if labels[0] != a && !CaseMatches(n, labels[0]) {
        assert forall k | 0 <= k < |labels[1..]| :: labels[1..][k] == labels[k + 1];
      }
    }
  }

  lemma CaseAgrees(n: Num, constant: int)
    requires ValidNum(n) && n.bits > 0
    ensures CaseMatches(n, constant) <==> Cong(constant, n.v, Pow2(Promote(n).bits))
  {
    hide Pow2, Wrap;
    var p := Promote(n);
    PromoteValid(n);
    WrapCong(p.bits, p.signed, constant);
    if Cong(constant, n.v, Pow2(p.bits)) { WrapUnique(p.bits, p.signed, constant, p.v); }
  }

  /** Every label up to the meant one agrees with the literal, in the bits its text
      has, exactly when it is the pattern. */
  predicate LabelsAgree(v: Operand, a: int, labels: seq<int>, ptr: nat) {
    forall k | 0 <= k < |labels| && k <= Meant(a, labels) ::
      Cong(labels[k], Literal(v), Pow2(TextBits(v, ptr))) <==> labels[k] == a
  }

  /** A switch on a variable, or on anything of signed type, goes to the case whose
      constant is the value's bit pattern. On a literal of unsigned type, which is
      compared at the width of its own text, it does exactly when the labels agree
      with it there. */
  lemma SwitchGoesToPattern(v: Operand, labels: seq<int>, temps: Vars<Num>, pats: Vars<int>, tys: Vars<TypeName>,
                            ptr: nat)
    requires Canonical(temps, pats, tys, ptr) && Sized(v.ty, ptr) && Known(v, tys)
    requires forall c | c in labels :: 0 <= c < Pow2(Width(v.ty, ptr))
    ensures Eval(SwitchExpr(v), temps, ptr).Some? && Eval(SwitchExpr(v), temps, ptr).value.bits > 0
    ensures Chosen(Eval(SwitchExpr(v), temps, ptr).value, labels) == Meant(Pattern(v, pats, ptr), labels)
            <==> Signed(v.ty) || IsVar(v.text) || LabelsAgree(v, Pattern(v, pats, ptr), labels, ptr)
  {
    hide Canonical, Known, Pattern, Denote, Wrap, Cong, Eval, Chosen, Meant, Pow2, LabelsAgree, CaseMatches;
    var n, a := GetFacts(v, temps, pats, tys, ptr);
    EvalVar(v, temps, ptr);
    if Signed(v.ty) {
      var w := Width(v.ty, ptr);
      UnsignedWidth(v.ty, ptr);
      var ut := UnsignedType(v.ty).value;
      CastPattern(Var(v.text), n, a, w, ut, temps, ptr);
      SwitchOnPattern(Canon(ut, ptr, a), a, labels, w);
    } else if IsVar(v.text) {
      UnsignedVariable(v.ty, ptr, a);
      SwitchOnPattern(n, a, labels, Width(v.ty, ptr));
    } else {
      LiteralNumber(v, n, temps, tys, ptr);
      SwitchOnLiteral(v, n, a, labels, ptr);
    }
  }

  lemma UnsignedVariable(ty: TypeName, ptr: nat, a: int)
    requires Sized(ty, ptr) && !Signed(ty) && 0 <= a < Pow2(Width(ty, ptr))
    ensures Canon(ty, ptr, a) == Num(Width(ty, ptr), false, a)
  {
    hide Pow2, Wrap;
    WrapId(Width(ty, ptr), false, a);
  }

  lemma SwitchOnPattern(n: Num, a: int, labels: seq<int>, w: nat)
    requires ValidNum(n) && n.v == a && 0 <= a < Pow2(w) && 0 < w <= n.bits && !n.signed
    requires forall c | c in labels :: 0 <= c < Pow2(w)
    ensures Chosen(n, labels) == Meant(a, labels)
  {
    hide CaseMatches, Chosen, Meant, Pow2;
    forall k | 0 <= k < |labels| ensures CaseMatches(n, labels[k]) <==> labels[k] == a {
      assert labels[k] in labels;
      CaseExact(n, a, labels[k], w);
    }
    ChosenIsMeant(n, a, labels);
  }

  lemma LiteralNumber(v: Operand, n: Num, temps: Vars<Num>, tys: Vars<TypeName>, ptr: nat)
    requires Known(v, tys) && !IsVar(v.text) && Denote(v.text, temps) == Some(n)
    ensures n.v == Literal(v) && n.bits == Promote(n).bits == TextBits(v, ptr)
  {
  }

  lemma SwitchOnLiteral(v: Operand, n: Num, a: int, labels: seq<int>, ptr: nat)
    requires ValidNum(n) && n.v == Literal(v) && 0 < n.bits == Promote(n).bits == TextBits(v, ptr)
    ensures Chosen(n, labels) == Meant(a, labels) <==> LabelsAgree(v, a, labels, ptr)
  {
    hide CaseMatches, Chosen, Meant, Pow2, Cong, Literal, TextBits;
    forall k | 0 <= k < |labels|
      ensures CaseMatches(n, labels[k]) <==> Cong(labels[k], Literal(v), Pow2(TextBits(v, ptr)))
    {
      CaseAgrees(n, labels[k]);
    }
    ChosenIsMeant(n, a, labels);
  }

  /** The 128-bit literal 1ULL goes to the case for 2^64 + 1, and so does the signed
      text 1LL; the byte written -1LL misses the case for 255. */
  lemma SwitchFails(t: Text, temps: Vars<Num>)
    requires t == UintText(1) || t == IntText(1) || t == IntText(-1)
    ensures var v := Operand(t, IntT(if t == IntText(-1) then 8 else 128, false));
            var a := if t == IntText(-1) then 255 else 1;
            var constant := if t == IntText(-1) then 255 else 0x1_0000_0000_0000_0001;
            && Pattern(v, Vars([], []), 64) == a
            && Eval(SwitchExpr(v), temps, 64) == Some(Num(64, t.IntText?, Literal(v)))
            && Chosen(Num(64, t.IntText?, Literal(v)), [constant]) == (if t == IntText(-1) then 1 else 0)
            && Meant(a, [constant]) == (if t == IntText(-1) then 0 else 1)
  {
    hide Pow2, Wrap, Chosen, Meant, CaseMatches, Cong;
    OneIsSmall();
    if t == IntText(-1) {
      OneLabel(Num(64, true, -1), 255, 255);
    } else {
      OneLabel(Num(64, t.IntText?, 1), 1, 0x1_0000_0000_0000_0001);
    }
  }

  lemma OneLabel(n: Num, a: int, constant: int)
    requires n.bits == 64 && -1 <= n.v <= 1 && (!n.signed ==> n.v >= 0)
    ensures Chosen(n, [constant]) == (if Cong(constant, n.v, Pow2(64)) then 0 else 1)
    ensures Meant(a, [constant]) == (if constant == a then 0 else 1)
  {
    hide CaseMatches, Cong, Pow2;
    LiteralRange(64);
    CaseAgrees(n, constant);
    assert [constant][1..] == [];
  }

  lemma OneIsSmall()
    ensures 1 % Pow2(128) == 1 && -1 % Pow2(8) == 255
    ensures Cong(0x1_0000_0000_0000_0001, 1, Pow2(64)) && !Cong(255, -1, Pow2(64))
  {
    LiteralRange(64);
    assert Pow2(8) == 256;
    Pow2Monotone(8, 128);
    DivModUnique(1, Pow2(128), 0, 1);
    DivModUnique(-1, 256, -1, 255);
  }

  lemma TopRange()
    ensures Pow2(127) > 1 && Pow2(31) > 1
  {
    hide Pow2;
    LiteralRange(64);
    Pow2Monotone(1, 127);
  }

  // ----- exactly where an operation's guard matters -----

  /** ashr on an unsigned type emits the text of a logical shift: what it stores is
      the arithmetic one exactly when the sign bit is clear or nothing is shifted. */
  lemma AShrOnUnsigned(l: Operand, r: Operand, temps: Vars<Num>, pats: Vars<int>, tys: Vars<TypeName>, ptr: nat)
    requires Canonical(temps, pats, tys, ptr) && OperandsSized(Binary(IAShr, l, r), ptr) && !Signed(l.ty)
    requires Known(l, tys) && Known(r, tys) && Width(l.ty, ptr) == Width(r.ty, ptr) > 1 && ShowsPattern(r, ptr)
    requires Meaning(Binary(IAShr, l, r), pats, ptr).Some?
    ensures Stores(EmitBinary(IAShr, l, r), temps, l.ty, ptr, Meaning(Binary(IAShr, l, r), pats, ptr).value)
            <==> Pattern(l, pats, ptr) < Pow2(Width(l.ty, ptr) - 1) || Pattern(r, pats, ptr) == 0
  {
    hide Canonical, Known, Pattern, Wrap, BinaryMeaning, Pow2, ShowsPattern;
    var a, b, w := Pattern(l, pats, ptr), Pattern(r, pats, ptr), Width(l.ty, ptr);
    var _, _ := GetFacts(l, temps, pats, tys, ptr);
    ShiftDefined(IAShr, a, b, w);
    ShiftDefined(ILShr, a, b, w);
    SignedHasUnsigned(l.ty, ptr);
    LowerShift(ILShr, l, r, temps, pats, tys, ptr);
    LogicalOrArithmetic(a, b, w);
    UnsignedVariable(l.ty, ptr, BinaryMeaning(ILShr, a, b, w).value);
    UnsignedVariable(l.ty, ptr, BinaryMeaning(IAShr, a, b, w).value);
  }

  lemma LogicalOrArithmetic(a: int, b: int, w: nat)
    requires w > 1 && 0 <= a < Pow2(w) && 0 <= b < w
    ensures BinaryMeaning(ILShr, a, b, w) == BinaryMeaning(IAShr, a, b, w) <==> a < Pow2(w - 1) || b == 0
    ensures 0 <= BinaryMeaning(ILShr, a, b, w).value < Pow2(w) && 0 <= BinaryMeaning(IAShr, a, b, w).value < Pow2(w)
  {
    hide Wrap, Pow2;
    var m, k := Pow2(w), Pow2(b);
    SignedReading(a, w);
    if a >= Pow2(w - 1) {
      Pow2Add(b, w - b);
      var d := Pow2(w - b);
      assert a - m == a + (-d) * k;
      ModShift(a, -d, k);
      if b == 0 {
        ModShift(a / k, -1, m);
        assert d == m;
      } else {
        Pow2Strict(w - b, w);
        ShiftedApart(a / k, d, m, k, a);
      }
    }
  }

  lemma SignedReading(a: int, w: nat)
    requires w > 0 && 0 <= a < Pow2(w)
    ensures S(w, a) == if a < Pow2(w - 1) then a else a - Pow2(w)
  {
    hide Pow2;
    DivModUnique(a, Pow2(w), 0, a);
  }

  lemma ShiftedApart(q: int, d: int, m: int, k: int, a: int)
    requires 0 <= a < m && k > 0 && q == a / k && 0 < d < m && m == d * k
    ensures q % m != (q - d) % m
  {
    if q % m == (q - d) % m {
      var j := CongWitness(q, q - d, m);
      if j > 0 { MulMonotone(1, j, m); } else { MulMonotone(j, 0, m); }
    }
  }

  /** 128 shifted right by 1 as an unsigned byte stores 64, where 192 is meant. */
  lemma AShrFails()
    ensures var l, r := Operand(Temp(0), IntT(8, false)), Operand(UintText(1), IntT(8, false));
            var temps, pats, tys := Vars([], [Num(8, false, 128)]), Vars([], [128]), Vars([], [IntT(8, false)]);
            && Canonical(temps, pats, tys, 64)
            && Meaning(Binary(IAShr, l, r), pats, 64) == Some(192)
            && Stores(EmitBinary(IAShr, l, r), temps, IntT(8, false), 64, 64)
            && !Stores(EmitBinary(IAShr, l, r), temps, IntT(8, false), 64, 192)
  {
    hide Eval, Wrap, BinaryMeaning, Canonical, Pattern, EmitBinary, Pow2, Known;
    var l, r := Operand(Temp(0), IntT(8, false)), Operand(UintText(1), IntT(8, false));
    var temps, pats, tys := Vars([], [Num(8, false, 128)]), Vars([], [128]), Vars([], [IntT(8, false)]);
    ByteState();
    HalfOf128();
    SameShift(l, r);
    LowerShift(ILShr, l, r, temps, pats, tys, 64);
    AShrOnUnsigned(l, r, temps, pats, tys, 64);
  }

  lemma SameShift(l: Operand, r: Operand)
    requires UnsignedType(l.ty).None?
    ensures EmitBinary(ILShr, l, r) == EmitBinary(IAShr, l, r)
  {
  }

  lemma ByteState()
    ensures Pow2(7) == 128 && Pow2(8) == 256
    ensures var l, r := Operand(Temp(0), IntT(8, false)), Operand(UintText(1), IntT(8, false));
            var temps, pats, tys := Vars([], [Num(8, false, 128)]), Vars([], [128]), Vars([], [IntT(8, false)]);
            && Canonical(temps, pats, tys, 64) && Known(l, tys) && Known(r, tys)
            && Pattern(l, pats, 64) == 128 && Pattern(r, pats, 64) == 1
  {
    hide Wrap;
    assert Pow2(7) == 128 && Pow2(8) == 256;
    UnsignedVariable(IntT(8, false), 64, 128);
    Pow2Monotone(8, 128);
  }

  lemma HalfOf128()
    ensures BinaryMeaning(ILShr, 128, 1, 8) == Some(64) && BinaryMeaning(IAShr, 128, 1, 8) == Some(192)
  {
    hide Wrap;
    assert Pow2(1) == 2 && Pow2(7) == 128 && Pow2(8) == 256;
    SignedReading(128, 8);
  }

  /** The byte 2 truncates to 0 but is stored in a _Bool as 1. */
  lemma TruncToBoolFails(ptr: nat)
    ensures Convert(1, false, Canon(IntT(8, false), ptr, 2).v) == 1 && 2 % 2 == 0
  {
    assert Pow2(8) == 256;
  }

  /** Truncation to _Bool tests for zero instead of taking the low bit: right
      exactly for 0 and for odd patterns. */
  lemma TruncToBool(ty: TypeName, a: int, ptr: nat)
    requires Sized(ty, ptr) && 0 <= a < Pow2(Width(ty, ptr))
    ensures Convert(1, false, Canon(ty, ptr, a).v) == a % 2 <==> a == 0 || a % 2 == 1
  {
    var w := Width(ty, ptr);
    DivModUnique(a, Pow2(w), 0, a);
  }

  // ----- two 64-bit literals at a 128-bit type -----

  /** Addition, subtraction, multiplication and the bitwise operations on two 64-bit
      literals of a 128-bit type are done at 64 bits: right exactly when the result
      fits there, the two literals' signedness deciding which 64 bits. */
  lemma NarrowLiteralsAt128(op: IntOp, l: Operand, r: Operand, temps: Vars<Num>, pats: Vars<int>, tys: Vars<TypeName>,
                            ptr: nat)
    requires Modular(op) && Canonical(temps, pats, tys, ptr) && OperandsSized(Binary(op, l, r), ptr)
    requires Known(l, tys) && Known(r, tys) && Width(l.ty, ptr) == Width(r.ty, ptr) == 128 && Narrow(l, ptr)
             && Narrow(r, ptr)
    ensures Meaning(Binary(op, l, r), pats, ptr).Some?
    ensures Stores(EmitBinary(op, l, r), temps, l.ty, ptr, Meaning(Binary(op, l, r), pats, ptr).value)
            <==> NarrowRight(op, Literal(l), Literal(r), BothSigned(l, r))
  {
    hide Apply, Canonical, Known, Pattern, Denote, Wrap, BinaryMeaning, Cong, InRange, Eval, Convert, NarrowRight, Pow2;
    var x, a := GetFacts(l, temps, pats, tys, ptr);
    var y, b := GetFacts(r, temps, pats, tys, ptr);
    NarrowFacts(l, temps, tys, ptr);
    NarrowFacts(r, temps, tys, ptr);
    EvalBinop(ModularOp(op), l, r, temps, ptr);
    NarrowModular(op, x, y, a, b, 128, Signed(l.ty));
    ModularDefined(op, a, b, 128);
  }

  /** Signed division of two such literals is undefined in C, though not at 128
      bits, exactly for the smallest 64-bit value by -1. */
  lemma NarrowDivisionAt128(op: IntOp, l: Operand, r: Operand, temps: Vars<Num>, pats: Vars<int>, tys: Vars<TypeName>,
                            ptr: nat)
    requires (op.ISDiv? || op.ISRem?) && Canonical(temps, pats, tys, ptr) && OperandsSized(Binary(op, l, r), ptr)
    requires Known(l, tys) && Known(r, tys) && Width(l.ty, ptr) == Width(r.ty, ptr) == 128 && Narrow(l, ptr)
             && Narrow(r, ptr)
    requires ShowsSigned(l, ptr) && ShowsSigned(r, ptr) && Meaning(Binary(op, l, r), pats, ptr).Some?
    ensures Stores(EmitBinary(op, l, r), temps, l.ty, ptr, Meaning(Binary(op, l, r), pats, ptr).value)
            <==> !(Literal(l) == I64_MIN && Literal(r) == -1)
  {
    hide Apply, Canonical, Known, Pattern, Denote, Wrap, BinaryMeaning, Cong, InRange, Eval, Convert, S, Pow2;
    var x, a := GetFacts(l, temps, pats, tys, ptr);
    var y, b := GetFacts(r, temps, pats, tys, ptr);
    NarrowFacts(l, temps, tys, ptr);
    NarrowFacts(r, temps, tys, ptr);
    EvalBinop(if op.ISDiv? then Div else Rem, l, r, temps, ptr);
    NarrowDivision(op, x, y, a, b, 128, true);
  }

  /** Negating a 64-bit literal of a 128-bit type is right exactly when the result
      fits its 64 bits, and complementing it exactly when it is signed. */
  lemma NarrowUnaryAt128(v: Operand, temps: Vars<Num>, pats: Vars<int>, tys: Vars<TypeName>, ptr: nat)
    requires Canonical(temps, pats, tys, ptr) && Sized(v.ty, ptr) && Known(v, tys) && Width(v.ty, ptr) == 128
             && Narrow(v, ptr)
    ensures Stores(Emit(Negate(v)), temps, v.ty, ptr, Meaning(Negate(v), pats, ptr).value)
            <==> InRange(64, v.text.IntText?, -Literal(v))
    ensures Stores(Emit(Not(v)), temps, v.ty, ptr, Meaning(Not(v), pats, ptr).value) <==> v.text.IntText?
  {
    hide ApplyUnary, Canonical, Known, Pattern, Denote, Wrap, Cong, Eval, Convert, InRange, Pow2;
    var x, a := GetFacts(v, temps, pats, tys, ptr);
    NarrowFacts(v, temps, tys, ptr);
    EvalVar(v, temps, ptr);
    EvalUn(Neg, Var(v.text), temps, ptr);
    EvalUn(BitNot, Var(v.text), temps, ptr);
    NarrowNegate(x, a, 128, Signed(v.ty));
    NarrowNot(x, a, 128, Signed(v.ty));
  }

  /** Selecting between two such literals is right exactly when both are signed or
      the chosen one is not negative. */
  lemma NarrowSelectAt128(c: Operand, l: Operand, r: Operand, temps: Vars<Num>, pats: Vars<int>, tys: Vars<TypeName>,
                          ptr: nat)
    requires Canonical(temps, pats, tys, ptr) && OperandsSized(Select(c, l, r), ptr)
    requires Known(c, tys) && c.ty.BoolT? && ShowsPattern(c, ptr)
    requires Known(l, tys) && Known(r, tys) && Width(l.ty, ptr) == Width(r.ty, ptr) == 128 && Narrow(l, ptr)
             && Narrow(r, ptr)
    ensures Stores(Emit(Select(c, l, r)), temps, l.ty, ptr, Meaning(Select(c, l, r), pats, ptr).value)
            <==> BothSigned(l, r) || (if Pattern(c, pats, ptr) == 1 then Literal(l) else Literal(r)) >= 0
  {
    hide Balance, Canonical, Known, Pattern, Denote, Wrap, Cong, Eval, InRange, Convert, Pow2;
    var z, k := GetFacts(c, temps, pats, tys, ptr);
    var x, a := GetFacts(l, temps, pats, tys, ptr);
    var y, b := GetFacts(r, temps, pats, tys, ptr);
    NarrowFacts(l, temps, tys, ptr);
    NarrowFacts(r, temps, tys, ptr);
    EvalVar(c, temps, ptr);
    EvalVar(l, temps, ptr);
    EvalVar(r, temps, ptr);
    TernaryChooses(Var(c.text), Var(l.text), Var(r.text), temps, ptr);
    LiteralRange(1);
    NarrowPick(x, y, a, b, 128, Signed(l.ty));
  }

  /** The largest signed 64-bit literal plus one, as i128, is stored wrapped. */
  lemma NarrowSumWraps(ptr: nat)
    ensures var ty := IntT(128, true);
            var l, r := Operand(IntText(I64_MAX), ty), Operand(IntText(1), ty);
            !Stores(EmitBinary(IAdd, l, r), Vars([], []), ty, ptr, 0x8000_0000_0000_0000)
            && Meaning(Binary(IAdd, l, r), Vars([], []), ptr) == Some(0x8000_0000_0000_0000)
  {
    hide Pow2, Wrap, Stores, EmitBinary, Meaning;
    var ty := IntT(128, true);
    var l, r := Operand(IntText(I64_MAX), ty), Operand(IntText(1), ty);
    LiteralRange(64);
    TopRange();
    LargeSum(l, r, Vars([], []), ptr);
    NarrowLiteralsAt128(IAdd, l, r, Vars([], []), Vars([], []), Vars([], []), ptr);
  }

  lemma LargeSum(l: Operand, r: Operand, none: Vars<int>, ptr: nat)
    requires l == Operand(IntText(I64_MAX), IntT(128, true)) && r == Operand(IntText(1), IntT(128, true))
    ensures Meaning(Binary(IAdd, l, r), none, ptr) == Some(0x8000_0000_0000_0000)
    ensures InRange(128, true, I64_MAX) && InRange(128, true, 1)
  {
    hide Pow2, Wrap;
    LiteralRange(64);
    Pow2Monotone(64, 127);
    Pow2Monotone(64, 128);
    DivModUnique(I64_MAX, Pow2(128), 0, I64_MAX);
    DivModUnique(1, Pow2(128), 0, 1);
    DivModUnique(0x8000_0000_0000_0000, Pow2(128), 0, 0x8000_0000_0000_0000);
  }

  // ----- unsigned literals of signed type -----

  /** Sign extension, or a signed cast, of an unsigned literal of a signed type
      extends by zeros: right exactly when the sign bit is clear or nothing widens. */
  lemma UnsignedLiteralExtends(u: int, ty: TypeName, wide: TypeName, temps: Vars<Num>, pats: Vars<int>, ptr: nat)
    requires Sized(ty, ptr) && Signed(ty) && Sized(wide, ptr) && Width(wide, ptr) > 1
             && InRange(Width(ty, ptr), false, u)
    ensures var v := Operand(UintText(u), ty);
            Stores(Emit(SExt(v, wide)), temps, wide, ptr, Meaning(SExt(v, wide), pats, ptr).value)
            <==> u < Pow2(Width(ty, ptr) - 1) || Width(wide, ptr) <= Width(ty, ptr)
  {
    hide Pow2, Wrap;
    var v := Operand(UintText(u), ty);
    var w, n := Width(ty, ptr), Width(wide, ptr);
    DivModUnique(u, Pow2(w), 0, u);
    SignedReading(u, w);
    CongMod(S(w, u), Pow2(n));
    ExtendedLiteral(u, wide, temps, ptr);
    TwiceStored(u, S(w, u) % Pow2(n), n, Signed(wide));
    if Width(wide, ptr) <= w {
      WrapCongNarrow(w, true, u, n);
    } else if u >= Pow2(w - 1) {
      Pow2Strict(w, n);
      NotCongruent(u, Pow2(w), Pow2(n));
    }
  }

  lemma ExtendedLiteral(u: int, wide: TypeName, temps: Vars<Num>, ptr: nat)
    requires Width(wide, ptr) > 1
    ensures Eval(Cast(wide, Var(UintText(u))), temps, ptr)
            == Some(Num(Width(wide, ptr), Signed(wide), Wrap(Width(wide, ptr), Signed(wide), u)))
  {
    hide Wrap, Width, Signed;
  }

  lemma TwiceStored(u: int, m: int, n: nat, signed: bool)
    requires n > 1
    ensures Convert(n, signed, Wrap(n, signed, u)) == Wrap(n, signed, m) <==> Cong(u, m, Pow2(n))
  {
    hide Pow2, Wrap;
    StoredIff(Wrap(n, signed, u), m, n, signed);
    WrapCong(n, signed, u);
  }

  lemma NotCongruent(u: int, d: int, m: int)
    requires 0 < d < m
    ensures !Cong(u, u - d, m)
  {
    if Cong(u, u - d, m) {
      var k := CongWitness(u, u - d, m);
      SmallMultiple(k, m);
    }
  }
}
