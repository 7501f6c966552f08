/** How arguments and results cross a call: the parameter lists of declaration and
    type, what the caller passes, and what the callee's `get_param` denotes. */
module CallAbi {
  import opened Wrappers
  import opened IntMath

  datatype CType =
    | VoidC
    | BoolC
    | IntC(bits: nat, signed: bool)
    | PtrWidthC(signed: bool)
    | PtrC
    | FloatC(bits: nat)
    | ArrayC(element: CType, len: nat)
    | StructC(fields: seq<CType>)
    | VectorC(element: CType, count: nat)
    | FunctionC(ret: CType, args: seq<CType>, variadic: bool)

  /** What the layout of a Rust type contributes to its C type. */
  datatype Layout =
    | Zst
    | Scalar(ty: CType)
    | ScalarPair(first: CType, second: CType)
    | SimdVector(element: CType, count: nat)
    | Memory(size: nat)

  datatype PassMode = Ignore | Direct | Pair | Cast(target: CType) | Indirect(onStack: bool, unsized: bool)

  datatype ArgAbi = ArgAbi(mode: PassMode, layout: Layout)

  datatype FnAbi = FnAbi(args: seq<ArgAbi>, ret: ArgAbi, variadic: bool)

  /** `layout_to_c_type` */
  function LayoutType(l: Layout): CType {
    match l
    case Zst => StructC([])
    case Scalar(ty) => ty
    case ScalarPair(a, b) => StructC([a, b])
    case SimdVector(e, n) => VectorC(e, n)
    case Memory(size) => if size == 0 then StructC([]) else StructC([ArrayC(IntC(8, true), size)])
  }

  /** `fn_abi_ret_type` */
  function RetType(ret: ArgAbi): CType {
    match ret.mode
    case Ignore => VoidC
    case Cast(target) => target
    case _ => LayoutType(ret.layout)
  }

  /** `fn_abi_arg_type` */
  function ArgType(arg: ArgAbi): CType {
    match arg.mode
    case Ignore => VoidC
    case Cast(target) => target
    case Indirect(onStack, _) => if onStack then LayoutType(arg.layout) else PtrC
    case _ => LayoutType(arg.layout)
  }

  predicate ByValue(m: PassMode) {
    m.Indirect? && m.onStack && !m.unsized
  }

  /** The C parameters one Rust argument becomes. */
  function Parameters(arg: ArgAbi): seq<CType> {
    match arg.mode
    case Ignore => []
    case Pair => if arg.layout.ScalarPair? then [arg.layout.first, arg.layout.second] else [LayoutType(arg.layout)]
    case Indirect(_, unsized) => if unsized then [PtrC, PtrC] else [ArgType(arg)]
    case _ => [ArgType(arg)]
  }

  function AllParameters(args: seq<ArgAbi>): seq<CType> {
    if args == [] then [] else AllParameters(args[..|args| - 1]) + Parameters(args[|args| - 1])
  }

  /** Where the parameters of argument j start. */
  function Position(args: seq<ArgAbi>, j: nat): nat
    requires j <= |args|
  {
    |AllParameters(args[..j])|
  }

  // ----- what the ABI asks of a parameter list -----

  /** The C type of an object passed whole: its scalar, the two scalars of a pair in
      order, a vector, or a byte array in a struct. */
  predicate WholeType(l: Layout, ty: CType) {
    match l
    case Zst => ty == StructC([])
    case Scalar(t) => ty == t
    case ScalarPair(a, b) => ty == StructC([a, b])
    case SimdVector(e, n) => ty == VectorC(e, n)
    case Memory(size) => if size == 0 then ty == StructC([]) else ty == StructC([ArrayC(IntC(8, true), size)])
  }

  /** From position k on the list has what the argument's passing mode demands, and
      the next argument starts behind it. */
  predicate Demanded(arg: ArgAbi, ts: seq<CType>, k: nat, next: nat) {
    match arg.mode
    case Ignore => next == k
    case Direct => next == k + 1 <= |ts| && WholeType(arg.layout, ts[k])
    case Pair =>
      if arg.layout.ScalarPair?
      then next == k + 2 <= |ts| && ts[k] == arg.layout.first && ts[k + 1] == arg.layout.second
      else next == k + 1 <= |ts| && WholeType(arg.layout, ts[k])
    case Cast(target) => next == k + 1 <= |ts| && ts[k] == target
    case Indirect(onStack, unsized) =>
      if unsized then next == k + 2 <= |ts| && ts[k] == PtrC && ts[k + 1] == PtrC
      else next == k + 1 <= |ts| && if onStack then WholeType(arg.layout, ts[k]) else ts[k] == PtrC
  }

  /** The whole list is what the arguments demand, one after the other. */
  ghost predicate ListDemanded(args: seq<ArgAbi>, ts: seq<CType>) {
    && Position(args, 0) == 0 && Position(args, |args|) == |ts|
    && forall j | 0 <= j < |args| :: Demanded(args[j], ts, Position(args, j), Position(args, j + 1))
  }

  /** The result: nothing, the cast target, or the object itself, also where it is
      returned through memory. */
  predicate ReturnDemanded(ret: ArgAbi, ty: CType) {
    match ret.mode
    case Ignore => ty == VoidC
    case Cast(target) => ty == target
    case _ => WholeType(ret.layout, ty)
  }

  lemma {:induction false} ParametersDemanded(args: seq<ArgAbi>)
    ensures ListDemanded(args, AllParameters(args))
  {
    hide Demanded, AllParameters;
    assert args[..0] == [] && args[..|args|] == args;
    NoParameters();
    forall j | 0 <= j < |args|
      ensures Demanded(args[j], AllParameters(args), Position(args, j), Position(args, j + 1))
    {
      PositionsTile(args, j);
      OneDemanded(args[j], AllParameters(args), Position(args, j), Position(args, j + 1));
    }
  }

  lemma NoParameters()
    ensures AllParameters([]) == []
  {
  }

  lemma OneDemanded(arg: ArgAbi, ts: seq<CType>, k: nat, next: nat)
    requires k <= next <= |ts| && next == k + |Parameters(arg)| && ts[k..next] == Parameters(arg)
    ensures Demanded(arg, ts, k, next)
  {
    assert forall i | 0 <= i < next - k :: ts[k + i] == ts[k..next][i];
  }

  // ----- the two list builders -----

  /** `fn_abi_to_c_type` */
  method FnAbiToCType(abi: FnAbi) returns (ty: CType)
    ensures ty == FunctionC(RetType(abi.ret), AllParameters(abi.args), abi.variadic)
    ensures ListDemanded(abi.args, ty.args) && ReturnDemanded(abi.ret, ty.ret)
  {
    var args: seq<CType> := [];
    for j := 0 to |abi.args|
      invariant args == AllParameters(abi.args[..j])
    {
      var arg := abi.args[j];
      assert abi.args[..j + 1][..j] == abi.args[..j];
      if arg.mode.Ignore? {
      } else if arg.mode.Pair? {
        if arg.layout.ScalarPair? {
          args := args + [arg.layout.first];
          args := args + [arg.layout.second];
        } else {
          args := args + [LayoutType(arg.layout)];
        }
      } else if arg.mode.Indirect? && arg.mode.unsized {
        args := args + [PtrC];
        args := args + [PtrC];
      } else {
        args := args + [ArgType(arg)];
      }
    }
    assert abi.args[..|abi.args|] == abi.args;
    ty := FunctionC(RetType(abi.ret), args, abi.variadic);
    ParametersDemanded(abi.args);
  }

  /** k is the position of an argument passed by value on the stack. */
  ghost predicate IsByValue(args: seq<ArgAbi>, k: nat) {
    exists j | 0 <= j < |args| :: ByValue(args[j].mode) && Position(args, j) == k
  }

  /** What the declaration's loop collects. */
  function StackPositions(args: seq<ArgAbi>): set<nat> {
    if args == [] then {}
    else
      var before, arg := args[..|args| - 1], args[|args| - 1];
      StackPositions(before) + if ByValue(arg.mode) then {|AllParameters(before)|} else {}
  }

  lemma {:induction false} StackPositionsExact(args: seq<ArgAbi>, k: nat)
    ensures k in StackPositions(args) <==> IsByValue(args, k)
  {
    hide AllParameters, Parameters, ByValue;
    if args != [] {
      var before, arg := args[..|args| - 1], args[|args| - 1];
      StackPositionsExact(before, k);
      forall j | 0 <= j < |before| ensures Position(before, j) == Position(args, j) && before[j] == args[j] {
        assert before[..j] == args[..j];
      }
      assert Position(args, |args| - 1) == |AllParameters(before)|;
      if k in StackPositions(before) {
        var j :| 0 <= j < |before| && ByValue(before[j].mode) && Position(before, j) == k;
        assert ByValue(args[j].mode) && Position(args, j) == k;
      }
      if IsByValue(args, k) {
        var j :| 0 <= j < |args| && ByValue(args[j].mode) && Position(args, j) == k;
        if j < |before| { assert ByValue(before[j].mode) && Position(before, j) == k; }
      }
    }
  }

  lemma NextArgument(args: seq<ArgAbi>, j: nat)
    requires j < |args|
    ensures AllParameters(args[..j + 1]) == AllParameters(args[..j]) + Parameters(args[j])
    ensures StackPositions(args[..j + 1]) == StackPositions(args[..j]) + if ByValue(args[j].mode)
            then {|AllParameters(args[..j])|} else {}
  {
    assert args[..j + 1][..j] == args[..j];
  }

  ghost predicate Numbered(ps: seq<(CType, nat)>, ts: seq<CType>) {
    |ps| == |ts| && forall k | 0 <= k < |ps| :: ps[k] == (ts[k], k)
  }

  function Types(ps: seq<(CType, nat)>): seq<CType> {
    seq(|ps|, k requires 0 <= k < |ps| => ps[k].0)
  }

  lemma LayoutIsWhole(arg: ArgAbi)
    ensures WholeType(arg.layout, LayoutType(arg.layout)) && ReturnDemanded(arg, RetType(arg))
  {
  }

  lemma Push(ps: seq<(CType, nat)>, ts: seq<CType>, t: CType)
    requires Numbered(ps, ts)
    ensures Numbered(ps + [(t, |ps|)], ts + [t])
  {
  }

  /** The function being built. Parameter k is named `_arg` followed by its number. */
  class OpenFunction {
    var params: seq<(CType, nat)>
    var onStack: set<nat>
    var hasIndirectRet: bool
    var retDataType: Option<CType>
    var returnType: CType
    var retbuf: bool
    var localDecls: seq<CType>

    ghost predicate Valid(abi: FnAbi)
      reads this
    {
      && Numbered(params, AllParameters(abi.args))
      && onStack == StackPositions(abi.args)
      && hasIndirectRet == abi.ret.mode.Indirect?
      && returnType == RetType(abi.ret)
      && retDataType == (if hasIndirectRet then Some(LayoutType(abi.ret.layout)) else None)
      && (retbuf ==> hasIndirectRet)
      && localDecls == (if retbuf then [retDataType.value] else [])
    }

    /** `predefine_fn`: the same list as the function type, numbered in order, and
        exactly the by-value positions recorded. */
    constructor (abi: FnAbi)
      ensures Valid(abi) && !retbuf
      ensures ListDemanded(abi.args, Types(params)) && ReturnDemanded(abi.ret, returnType)
      ensures forall k | 0 <= k < |params| :: params[k].1 == k
      ensures forall k: nat :: k in onStack <==> IsByValue(abi.args, k)
      ensures hasIndirectRet ==> retDataType.Some? && WholeType(abi.ret.layout, retDataType.value)
    {
      hide AllParameters, StackPositions, LayoutType;
      var ps: seq<(CType, nat)>, n, stack: set<nat> := [], 0, {};
      StartLists(abi.args);
      for j := 0 to |abi.args|
        invariant n == |ps| && Numbered(ps, AllParameters(abi.args[..j])) && stack == StackPositions(abi.args[..j])
      {
        var arg := abi.args[j];
        ghost var ts := AllParameters(abi.args[..j]);
        NextArgument(abi.args, j);
        NumberedLength(ps, ts);
        if arg.mode.Ignore? {
          assert ts + Parameters(arg) == ts;
        } else if arg.mode.Pair? {
          if arg.layout.ScalarPair? {
            Push(ps, ts, arg.layout.first);
            ps, n := ps + [(arg.layout.first, n)], n + 1;
            Push(ps, ts + [arg.layout.first], arg.layout.second);
            ps, n := ps + [(arg.layout.second, n)], n + 1;
            assert ts + [arg.layout.first] + [arg.layout.second] == ts + Parameters(arg);
          } else {
            Push(ps, ts, ArgType(arg));
            ps, n := ps + [(ArgType(arg), n)], n + 1;
          }
        } else if arg.mode.Indirect? && arg.mode.unsized {
          Push(ps, ts, PtrC);
          ps, n := ps + [(PtrC, n)], n + 1;
          Push(ps, ts + [PtrC], PtrC);
          ps, n := ps + [(PtrC, n)], n + 1;
          assert ts + [PtrC] + [PtrC] == ts + Parameters(arg);
        } else if arg.mode.Indirect? && arg.mode.onStack {
          stack := stack + {n};
          Push(ps, ts, ArgType(arg));
          ps, n := ps + [(ArgType(arg), n)], n + 1;
        } else {
          Push(ps, ts, ArgType(arg));
          ps, n := ps + [(ArgType(arg), n)], n + 1;
        }
      }
      assert abi.args[..|abi.args|] == abi.args;
      ParametersDemanded(abi.args);
      assert Types(ps) == AllParameters(abi.args);
      forall k: nat ensures k in stack <==> IsByValue(abi.args, k) { StackPositionsExact(abi.args, k); }
      LayoutIsWhole(abi.ret);
      params, onStack := ps, stack;
      hasIndirectRet := abi.ret.mode.Indirect?;
      returnType := RetType(abi.ret);
      retDataType := if abi.ret.mode.Indirect? then Some(LayoutType(abi.ret.layout)) else None;
      retbuf, localDecls := false, [];
    }

    /** `get_param`: index 0 of a function returning through memory is its return
        buffer, declared on first use; other indices shift down by one. */
    method GetParam(abi: FnAbi, index: nat) returns (e: ParamExpr)
      requires Valid(abi)
      modifies this`retbuf, this`localDecls
      ensures Valid(abi) && retbuf == (old(retbuf) || (hasIndirectRet && index == 0))
      ensures e == Lookup(abi, index)
    {
      if hasIndirectRet && index == 0 {
        if retbuf { return RetbufAddress; }
        localDecls := localDecls + [retDataType.value];
        retbuf := true;
        return RetbufAddress;
      }
      var c := if hasIndirectRet then index - 1 else index;
      StackPositionsExact(abi.args, c);
      if c in onStack { return ArgAddress(c); }
      return ArgValue(c);
    }

    /** `ret_void` returns the buffer where there is one. */
    method RetVoid(abi: FnAbi) returns (r: ReturnStmt)
      requires Valid(abi)
      ensures r == if retbuf then ReturnRetbuf else ReturnNothing
    {
      if retbuf { return ReturnRetbuf; }
      return ReturnNothing;
    }
  }

  lemma StartLists(args: seq<ArgAbi>)
    ensures Numbered([], AllParameters(args[..0])) && StackPositions(args[..0]) == {}
  {
  }

  lemma NumberedLength(ps: seq<(CType, nat)>, ts: seq<CType>)
    requires Numbered(ps, ts)
    ensures |ps| == |ts|
  {
  }

  /** What `get_param` renders. */
  datatype ParamExpr = RetbufAddress | ArgAddress(k: nat) | ArgValue(k: nat)

  datatype ReturnStmt = ReturnRetbuf | ReturnNothing | ReturnValue

  ghost function Lookup(abi: FnAbi, index: nat): ParamExpr {
    var indirect := abi.ret.mode.Indirect?;
    if indirect && index == 0 then RetbufAddress
    else
      var c := if indirect then index - 1 else index;
      if IsByValue(abi.args, c) then ArgAddress(c) else ArgValue(c)
  }

  // ----- where each argument's parameters are -----

  /** The parameters of argument j occupy the list from its position on. */
  lemma {:induction false} PositionsTile(args: seq<ArgAbi>, j: nat)
    requires j < |args|
    ensures Position(args, j + 1) == Position(args, j) + |Parameters(args[j])| <= |AllParameters(args)|
    ensures AllParameters(args)[Position(args, j)..Position(args, j + 1)] == Parameters(args[j])
    decreases |args|
  {
    hide Parameters;
    NextArgument(args, j);
    var before := args[..|args| - 1];
    if j == |args| - 1 {
      assert args[..j + 1] == args && before == args[..j];
    } else {
      PositionsTile(before, j);
      assert before[..j] == args[..j] && before[..j + 1] == args[..j + 1];
      var a, p, q := AllParameters(before), Position(args, j), Position(args, j + 1);
      assert AllParameters(args) == a + Parameters(args[|args| - 1]);
      assert (a + Parameters(args[|args| - 1]))[p..q] == a[p..q];
    }
  }

  /** A by-value position has the C type of the argument's layout. */
  lemma ByValueType(args: seq<ArgAbi>, k: nat) returns (j: nat)
    requires IsByValue(args, k)
    ensures j < |args| && ByValue(args[j].mode) && Position(args, j) == k
    ensures k < |AllParameters(args)| && AllParameters(args)[k] == LayoutType(args[j].layout)
  {
    hide AllParameters;
    j :| 0 <= j < |args| && ByValue(args[j].mode) && Position(args, j) == k;
    PositionsTile(args, j);
    assert Parameters(args[j]) == [LayoutType(args[j].layout)];
    assert AllParameters(args)[k] == AllParameters(args)[Position(args, j)..Position(args, j + 1)][0];
  }

  /** The walk of `store_fn_arg` over the arguments: how far it moves the index. */
  function Consumed(m: PassMode): nat {
    match m
    case Ignore => 0
    case Pair => 2
    case _ => 1
  }

  function Walked(args: seq<ArgAbi>): nat {
    if args == [] then 0 else Walked(args[..|args| - 1]) + Consumed(args[|args| - 1].mode)
  }

  /** The walk reaches every argument at its own position exactly when there is no
      unsized argument (pairs having scalar-pair layout). */
  lemma {:induction false} WalkMatchesPositions(args: seq<ArgAbi>)
    requires forall a | a in args :: a.mode.Pair? ==> a.layout.ScalarPair?
    ensures Walked(args) <= |AllParameters(args)|
    ensures Walked(args) == |AllParameters(args)| <==> forall a | a in args :: !(a.mode.Indirect? && a.mode.unsized)
  {
    hide LayoutType;
    if args != [] {
      var before, last := args[..|args| - 1], args[|args| - 1];
      WalkMatchesPositions(before);
      assert args == before + [last];
      assert |AllParameters(args)| == |AllParameters(before)| + |Parameters(last)|;
      var unsized := last.mode.Indirect? && last.mode.unsized;
      assert Consumed(last.mode) == |Parameters(last)| - if unsized then 1 else 0;
      assert (forall a | a in args :: !(a.mode.Indirect? && a.mode.unsized))
          <==> (forall a | a in before :: !(a.mode.Indirect? && a.mode.unsized)) && !unsized;
    }
  }

  /** One unsized argument: two parameters, of which the walk reads one. */
  lemma UnsizedWalkFails()
    ensures var args := [ArgAbi(Indirect(false, true), Memory(0))];
            Walked(args) == 1 && |AllParameters(args)| == 2
  {
    var args := [ArgAbi(Indirect(false, true), Memory(0))];
    assert args[..0] == [];
  }

  // ----- the caller -----

  /** A number (addresses included), or the contents of a struct or vector. */
  datatype CValue = Number(v: int) | Contents(c: int)

  /** A value the caller passes: its type and what its rendered text denotes. */
  datatype Operand = Operand(ty: CType, value: CValue)

  datatype ArgExpr = Plain(o: Operand) | LoadAs(ty: CType, o: Operand) | CastTo(ty: CType, o: Operand)

  /** `coerce_ptr_int` */
  function CoercePtrInt(o: Operand, ty: CType): ArgExpr {
    if o.ty == ty then Plain(o)
    else if (o.ty.PtrC? && (ty.PtrWidthC? || ty.IntC?)) || (ty.PtrC? && (o.ty.PtrWidthC? || o.ty.IntC?))
        then CastTo(ty, o)
    else Plain(o)
  }

  function PassedAs(o: Operand, ty: CType): ArgExpr {
    if ty.StructC? && o.ty.PtrC? then LoadAs(ty, o) else CoercePtrInt(o, ty)
  }

  /** A struct parameter is read through a pointer operand, a pointer and an integer are
      cast into each other, and everything else is passed as it stands. */
  lemma PassedHow(o: Operand, ty: CType)
    ensures PassedAs(o, ty) == LoadAs(ty, o) <==> ty.StructC? && o.ty.PtrC?
    ensures PassedAs(o, ty) == CastTo(ty, o) <==>
            || (o.ty.PtrC? && (ty.IntC? || ty.PtrWidthC?)) || (ty.PtrC? && (o.ty.IntC? || o.ty.PtrWidthC?))
    ensures PassedAs(o, ty) == LoadAs(ty, o) || PassedAs(o, ty) == CastTo(ty, o) || PassedAs(o, ty) == Plain(o)
  {
  }

  datatype CallCode = CallCode(args: seq<ArgExpr>, copyTo: Option<Operand>)

  /** `call`: the buffer pointer is stripped from the arguments and receives the
      value the C function returns; the rest are passed as the declared types
      demand (surplus arguments of a variadic function as they are). */
  method Call(abi: FnAbi, args: seq<Operand>) returns (code: CallCode)
    requires abi.ret.mode.Indirect? ==> RetType(abi.ret) != VoidC
    ensures var indirect := abi.ret.mode.Indirect? && args != [];
            var shift := if indirect then 1 else 0;
            && code.copyTo == (if indirect then Some(args[0]) else None)
            && |code.args| == |args| - shift
            && forall k | 0 <= k < |code.args| ::
                 code.args[k] == if k < |AllParameters(abi.args)|
                   then PassedAs(args[k + shift], AllParameters(abi.args)[k]) else Plain(args[k + shift])
  {
    hide AllParameters, PassedAs, LayoutType;
    var sret: Option<Operand>, actual := None, args;
    if abi.ret.mode.Indirect? && args != [] { sret, actual := Some(args[0]), args[1..]; }
    var ty := FnAbiToCType(abi);
    var coerced := seq(|actual|, k requires 0 <= k < |actual| =>
                     if k < |ty.args| then PassedAs(actual[k], ty.args[k]) else Plain(actual[k]));
    if ty.ret.VoidC? { return CallCode(coerced, None); }
    return CallCode(coerced, sret);
  }

  // ----- what arrives -----

  type Memory = map<int, int>

  function Bits(ty: CType, ptr: nat): nat {
    match ty
    case BoolC => 1
    case IntC(bits, _) => bits
    case PtrWidthC(_) => ptr
    case PtrC => ptr
    case _ => 0
  }

  function IsSigned(ty: CType): bool {
    (ty.IntC? || ty.PtrWidthC?) && ty.signed
  }

  function ConvertTo(ty: CType, v: int, ptr: nat): int
    requires Bits(ty, ptr) > 0
  {
    if ty.BoolC? then (if v != 0 then 1 else 0) else Wrap(Bits(ty, ptr), IsSigned(ty), v)
  }

  function EvalArg(e: ArgExpr, mem: Memory, ptr: nat): Option<(CType, CValue)> {
    match e
    case Plain(o) => Some((o.ty, o.value))
    case LoadAs(ty, o) => if o.value.Number? && o.value.v in mem then Some((ty, Contents(mem[o.value.v]))) else None
    case CastTo(ty, o) => if o.value.Number? && Bits(ty, ptr) > 0 then Some((ty, Number(ConvertTo(ty, o.value.v, ptr))))
      else None
  }

  predicate Arithmetic(ty: CType) { ty.BoolC? || ty.IntC? || ty.PtrWidthC? }

  /** Passing converts as if by assignment (section 6.5.2.2 of C11); None where that
      violates a constraint. */
  function ToParameter(ty: CType, from: (CType, CValue), ptr: nat): Option<CValue> {
    if ty == from.0 then Some(from.1)
    else if Arithmetic(ty) && Arithmetic(from.0) && Bits(ty, ptr) > 0 && from.1.Number?
        then Some(Number(ConvertTo(ty, from.1.v, ptr)))
    else None
  }

  function Arrives(o: Operand, ty: CType, mem: Memory, ptr: nat): Option<CValue> {
    match EvalArg(PassedAs(o, ty), mem, ptr)
    case None => None
    case Some(t) => ToParameter(ty, t, ptr)
  }

  /** What rustc's codegen passes for a parameter: a pointer to the object for one
      passed by value, else a value of the parameter's type or of an integer or
      pointer type as wide. */
  ghost predicate Suits(o: Operand, ty: CType, byValue: bool, mem: Memory, ptr: nat) {
    if byValue then o.ty.PtrC? && o.value.Number? && o.value.v in mem
    else
      || (o.ty == ty && !(ty.StructC? && o.ty.PtrC?))
      || ((ty.IntC? || ty.PtrWidthC? || ty.PtrC?) && (o.ty.IntC? || o.ty.PtrWidthC? || o.ty.PtrC?)
          && Bits(ty, ptr) == Bits(o.ty, ptr) > 0 && o.value.Number?)
  }

  /** The parameter holds what was passed: the pointed-to object itself, or the same
      value, or the same bits. */
  ghost predicate Delivered(o: Operand, ty: CType, byValue: bool, mem: Memory, ptr: nat) {
    var r := Arrives(o, ty, mem, ptr);
    && r.Some?
    && if byValue then o.value.Number? && o.value.v in mem && r.value == Contents(mem[o.value.v])
       else if o.ty == ty then r.value == o.value
       else r.value.Number? && o.value.Number? && Cong(r.value.v, o.value.v, Pow2(Bits(ty, ptr)))
  }

  /** Every argument is delivered, except that one passed by value must have a
      struct type. */
  lemma ArgumentDelivered(o: Operand, ty: CType, byValue: bool, mem: Memory, ptr: nat)
    requires Suits(o, ty, byValue, mem, ptr)
    ensures Delivered(o, ty, byValue, mem, ptr) <==> (byValue ==> ty.StructC?)
  {
    hide Wrap, Pow2;
    if !byValue && o.ty != ty {
      WrapCong(Bits(ty, ptr), IsSigned(ty), o.value.v);
    }
  }

  /** A pointer passed for an integer parameter as wide arrives as the integer of its
      address, and the other way round. */
  lemma AddressAsInteger(a: int, signed: bool, mem: Memory, ptr: nat)
    requires ptr > 0
    ensures forall ty | ty == IntC(ptr, signed) || ty == PtrWidthC(signed) ::
              Arrives(Operand(PtrC, Number(a)), ty, mem, ptr)
              == Some(Number(if signed && a % Pow2(ptr) >= Pow2(ptr - 1) then a % Pow2(ptr) - Pow2(ptr)
                             else a % Pow2(ptr)))
    ensures forall ty | ty == IntC(ptr, signed) || ty == PtrWidthC(signed) ::
              Arrives(Operand(ty, Number(a)), PtrC, mem, ptr) == Some(Number(a % Pow2(ptr)))
  {
  }

  /** An integer passed for an integer parameter of n bits arrives as the integer of
      that type congruent to it. */
  lemma IntegerAsInteger(from: CType, a: int, n: nat, signed: bool, mem: Memory, ptr: nat)
    requires Arithmetic(from) && n > 0
    ensures from != IntC(n, signed) ==>
              Arrives(Operand(from, Number(a)), IntC(n, signed), mem, ptr)
              == Some(Number(if signed && a % Pow2(n) >= Pow2(n - 1) then a % Pow2(n) - Pow2(n) else a % Pow2(n)))
    ensures from != BoolC ==>
              Arrives(Operand(from, Number(a)), BoolC, mem, ptr) == Some(Number(if a != 0 then 1 else 0))
  {
  }

  /** A pointer passed for a by-value vector does not arrive. */
  lemma VectorNotDelivered(ptr: nat)
    ensures var o, ty, mem := Operand(PtrC, Number(0)), LayoutType(SimdVector(FloatC(32), 4)), map[0 := 7];
            Suits(o, ty, true, mem, ptr) && !Delivered(o, ty, true, mem, ptr)
  {
  }

  // ----- the callee's view -----

  /** Parameter objects live at fresh addresses from base on. */
  function Entered(mem: Memory, values: seq<CValue>, base: nat): Memory {
    mem + map k: nat | base <= k < base + |values| && HoldsObject(values, base, k) :: values[k - base].c
  }

  predicate HoldsObject(values: seq<CValue>, base: nat, k: nat) {
    base <= k < base + |values| && values[k - base].Contents?
  }

  function ParamValue(e: ParamExpr, values: seq<CValue>, base: nat, buffer: int): Option<CValue> {
    match e
    case RetbufAddress => Some(Number(buffer))
    case ArgAddress(k) => Some(Number(base + k))
    case ArgValue(k) => if k < |values| then Some(values[k]) else None
  }

  function Shift(abi: FnAbi): nat { if abi.ret.mode.Indirect? then 1 else 0 }

  /** The caller supplies a buffer pointer where one is due and one suitable operand
      per parameter; what is passed by value has a struct type. */
  ghost predicate GoodCall(abi: FnAbi, args: seq<Operand>, mem: Memory, base: nat, ptr: nat) {
    var ps := AllParameters(abi.args);
    && |args| == |ps| + Shift(abi)
    && (forall a | a in mem :: a < base)
    && (abi.ret.mode.Indirect? ==> RetType(abi.ret) != VoidC)
    && forall k: nat | k < |ps| ::
         && Suits(args[k + Shift(abi)], ps[k], IsByValue(abi.args, k), mem, ptr)
         && (IsByValue(abi.args, k) ==> ps[k].StructC?)
  }

  /** What the callee sees for the caller's operand number i: a fresh object holding
      what the pointer led to, or the same value, or the same bits. */
  ghost predicate Observes(abi: FnAbi, args: seq<Operand>, i: nat, mem: Memory, inside: Memory, v: CValue, ptr: nat)
    requires Shift(abi) <= i < |args| && |args| == |AllParameters(abi.args)| + Shift(abi)
  {
    var o, k := args[i], i - Shift(abi);
    var ty := AllParameters(abi.args)[k];
    if IsByValue(abi.args, k) then
      && v.Number? && o.value.Number? && o.value.v in mem
      && v.v in inside && v.v !in mem && inside[v.v] == mem[o.value.v]
    else if o.ty == ty then v == o.value
    else v.Number? && o.value.Number? && Cong(v.v, o.value.v, Pow2(Bits(ty, ptr)))
  }

  lemma EnteredHolds(mem: Memory, values: seq<CValue>, base: nat)
    requires forall a | a in mem :: a < base
    ensures forall k: nat | k < |values| && values[k].Contents? ::
              base + k in Entered(mem, values, base) && Entered(mem, values, base)[base + k] == values[k].c
    ensures forall a | a in mem :: a in Entered(mem, values, base) && Entered(mem, values, base)[a] == mem[a]
  {
    var e := Entered(mem, values, base);
    forall k: nat | k < |values| && values[k].Contents? ensures base + k in e && e[base + k] == values[k].c {
      var n := base + k;
      assert HoldsObject(values, base, n);
    }
  }

  /** The whole passage: the caller's code evaluated, the frame entered, and the
      callee's `get_param(i)` evaluated in it. */
  method PassThenGet(abi: FnAbi, f: OpenFunction, args: seq<Operand>, i: nat, mem: Memory, base: nat, buffer: int,
                     ptr: nat)
      returns (v: CValue, inside: Memory)
    requires f.Valid(abi) && GoodCall(abi, args, mem, base, ptr) && i < |args|
    modifies f
    ensures f.Valid(abi)
    ensures forall a | a in mem :: a in inside && inside[a] == mem[a]
    ensures if i < Shift(abi) then v == Number(buffer) && f.retbuf else Observes(abi, args, i, mem, inside, v, ptr)
  {
    hide Suits, Delivered, Arrives, AllParameters, IsByValue, RetType, Entered, PassedAs, EvalArg, ToParameter,
         StackPositions, Numbered;
    var sh := Shift(abi);
    var ty := FnAbiToCType(abi);
    var code := Call(abi, args);
    var values: seq<CValue> := [];
    for k := 0 to |code.args|
      invariant |values| == k && f.Valid(abi)
      invariant forall h: nat | h < k :: Arrives(args[h + sh], ty.args[h], mem, ptr) == Some(values[h])
      invariant forall h: nat | h < k :: Delivered(args[h + sh], ty.args[h], IsByValue(abi.args, h), mem, ptr)
    {
      ArgumentDelivered(args[k + sh], ty.args[k], IsByValue(abi.args, k), mem, ptr);
      DeliveredArrives(args[k + sh], ty.args[k], IsByValue(abi.args, k), mem, ptr);
      values := values + [ToParameter(ty.args[k], EvalArg(code.args[k], mem, ptr).value, ptr).value];
    }
    EnteredHolds(mem, values, base);
    inside := Entered(mem, values, base);
    var e := f.GetParam(abi, i);
    v := ParamValue(e, values, base, buffer).value;
    if i >= sh {
      DeliveredObserved(abi, args, i, mem, values[i - sh], ptr);
    }
  }

  lemma DeliveredArrives(o: Operand, ty: CType, byValue: bool, mem: Memory, ptr: nat)
    requires Delivered(o, ty, byValue, mem, ptr)
    ensures Arrives(o, ty, mem, ptr).Some? && EvalArg(PassedAs(o, ty), mem, ptr).Some?
    ensures ToParameter(ty, EvalArg(PassedAs(o, ty), mem, ptr).value, ptr) == Arrives(o, ty, mem, ptr)
  {
  }

  lemma DeliveredObserved(abi: FnAbi, args: seq<Operand>, i: nat, mem: Memory, r: CValue, ptr: nat)
    requires Shift(abi) <= i < |args| && |args| == |AllParameters(abi.args)| + Shift(abi)
    requires var ty := AllParameters(abi.args)[i - Shift(abi)];
             && Delivered(args[i], ty, IsByValue(abi.args, i - Shift(abi)), mem, ptr)
               && Arrives(args[i], ty, mem, ptr) == Some(r)
    ensures var o, ty := args[i], AllParameters(abi.args)[i - Shift(abi)];
            if IsByValue(abi.args, i - Shift(abi))
            then o.value.Number? && o.value.v in mem && r == Contents(mem[o.value.v])
            else if o.ty == ty then r == o.value
            else r.Number? && o.value.Number? && Cong(r.v, o.value.v, Pow2(Bits(ty, ptr)))
  {
    hide Arrives, IsByValue, AllParameters;
  }

  // ----- returning through memory -----

  /** After the callee reaches `ret_void` with the given memory: its objects die and
      the caller's copy statement runs. The caller's buffer then holds what the
      callee wrote to its own exactly when the callee ever asked for it; otherwise
      the function ends without a value. */
  method ReturnThroughMemory(abi: FnAbi, f: OpenFunction, args: seq<Operand>, final: Memory, base: nat, buffer: int)
      returns (after: Memory, landed: bool)
    requires f.Valid(abi) && abi.ret.mode.Indirect? && RetType(abi.ret) != VoidC
    requires args != [] && args[0].value.Number? && args[0].value.v < base <= buffer && buffer in final
    ensures landed <==> f.retbuf
    ensures landed ==>
              && args[0].value.v in after && after[args[0].value.v] == final[buffer]
              && forall a :: a in after && a != args[0].value.v <==> a in final && a < base && a != args[0].value.v
    ensures forall a | a in after && (landed ==> a != args[0].value.v) :: a in final && after[a] == final[a]
  {
    var code := Call(abi, args);
    var r := f.RetVoid(abi);
    after := map a | a in final && a < base :: final[a];
    landed := r.ReturnRetbuf? && code.copyTo.Some?;
    if landed { after := after[code.copyTo.value.value.v := final[buffer]]; }
  }

  // ----- calls written from the passing modes -----

  /** Argument number `at` on is what rustc's codegen passes for this mode: the object
      itself, the two scalars, the cast value, or a pointer to the object (and its
      metadata). */
  ghost predicate Natural(arg: ArgAbi, args: seq<Operand>, at: nat, mem: Memory) {
    match arg.mode
    case Ignore => true
    case Direct => at < |args| && WholeType(arg.layout, args[at].ty)
    case Pair =>
      if arg.layout.ScalarPair?
      then at + 1 < |args| && args[at].ty == arg.layout.first && args[at + 1].ty == arg.layout.second
      else at < |args| && WholeType(arg.layout, args[at].ty)
    case Cast(target) => at < |args| && args[at].ty == target
    case Indirect(onStack, unsized) =>
      && at < |args| && args[at].ty == PtrC && args[at].value.Number?
      && (unsized ==> at + 1 < |args|)
      && (unsized ==> (args[at + 1].ty.PtrC? || args[at + 1].ty.PtrWidthC?) && args[at + 1].value.Number?)
      && (onStack && !unsized ==> args[at].value.v in mem && !arg.layout.Scalar? && !arg.layout.SimdVector?)
  }

  ghost predicate NaturalCall(abi: FnAbi, args: seq<Operand>, mem: Memory, base: nat) {
    && |args| == Position(abi.args, |abi.args|) + Shift(abi) && (forall a | a in mem :: a < base)
    && (abi.ret.mode.Indirect? ==> !WholeType(abi.ret.layout, VoidC))
    && forall j | 0 <= j < |abi.args| :: Natural(abi.args[j], args, Position(abi.args, j) + Shift(abi), mem)
  }

  lemma {:induction false} PositionsGrow(args: seq<ArgAbi>, i: nat, j: nat)
    requires i <= j <= |args|
    ensures Position(args, i) <= Position(args, j) <= |AllParameters(args)|
    decreases j - i
  {
    hide AllParameters, Parameters;
    if i < j {
      PositionsTile(args, i);
      PositionsGrow(args, i + 1, j);
    } else if j < |args| {
      PositionsTile(args, j);
    } else {
      assert args[..j] == args;
    }
  }

  lemma StartsAtZero(args: seq<ArgAbi>)
    ensures Position(args, 0) == 0
  {
    assert args[..0] == [];
  }

  /** Every parameter belongs to one argument. */
  lemma {:induction false} Owner(args: seq<ArgAbi>, n: nat, k: nat) returns (j: nat)
    requires n <= |args| && k < Position(args, n)
    ensures j < n && Position(args, j) <= k < Position(args, j + 1)
    decreases n
  {
    hide AllParameters;
    StartsAtZero(args);
    j := 0;
    if n > 0 {
      if k < Position(args, n - 1) { j := Owner(args, n - 1, k); } else { j := n - 1; }
    }
  }

  lemma OwnerByValue(args: seq<ArgAbi>, j: nat, k: nat)
    requires j < |args| && Position(args, j) <= k < Position(args, j + 1)
    ensures IsByValue(args, k) <==> ByValue(args[j].mode)
  {
    hide AllParameters;
    PositionsTile(args, j);
    if ByValue(args[j].mode) { assert |Parameters(args[j])| == 1; }
    if IsByValue(args, k) {
      var h :| 0 <= h < |args| && ByValue(args[h].mode) && Position(args, h) == k;
      PositionsTile(args, h);
      if h < j { PositionsGrow(args, h + 1, j); } else if h > j { PositionsGrow(args, j + 1, h); }
    }
  }

  /** Such a call is one PassThenGet speaks of. */
  lemma NaturalIsGood(abi: FnAbi, args: seq<Operand>, mem: Memory, base: nat, ptr: nat)
    requires NaturalCall(abi, args, mem, base) && ptr > 0
    ensures GoodCall(abi, args, mem, base, ptr)
  {
    hide AllParameters, Natural, Demanded, IsByValue, Suits;
    var ps := AllParameters(abi.args);
    ParametersDemanded(abi.args);
    VoidIsNotWhole(abi.ret);
    forall k: nat | k < |ps|
      ensures Suits(args[k + Shift(abi)], ps[k], IsByValue(abi.args, k), mem, ptr)
              && (IsByValue(abi.args, k) ==> ps[k].StructC?)
    {
      var j := Owner(abi.args, |abi.args|, k);
      OwnerByValue(abi.args, j, k);
      PositionsTile(abi.args, j);
      NaturalSuits(abi.args[j], ps, Position(abi.args, j), Position(abi.args, j + 1), k, args, Shift(abi), mem, ptr);
    }
  }

  lemma VoidIsNotWhole(ret: ArgAbi)
    requires ret.mode.Indirect? ==> !WholeType(ret.layout, VoidC)
    ensures ret.mode.Indirect? ==> RetType(ret) != VoidC
  {
  }

  lemma NaturalSuits(arg: ArgAbi, ps: seq<CType>, p: nat, q: nat, k: nat, args: seq<Operand>, sh: nat, mem: Memory,
                     ptr: nat)
    requires p <= k < q <= |ps| && |args| == |ps| + sh && Demanded(arg, ps, p, q) && Natural(arg, args, p + sh, mem)
             && ptr > 0
    ensures Suits(args[k + sh], ps[k], ByValue(arg.mode), mem, ptr) && (ByValue(arg.mode) ==> ps[k].StructC?)
  {
    assert k == p || k == p + 1;
  }

  /** A pointer passed for an argument that is indirect and not on the stack: the
      callee's parameter is that same pointer, whatever the other arguments are. */
  method PassPointer(abi: FnAbi, f: OpenFunction, args: seq<Operand>, j: nat, mem: Memory, base: nat, buffer: int,
                     ptr: nat)
      returns (v: CValue, inside: Memory)
    requires f.Valid(abi) && NaturalCall(abi, args, mem, base) && ptr > 0
    requires j < |abi.args| && abi.args[j].mode == Indirect(false, false)
    modifies f
    ensures f.Valid(abi) && Position(abi.args, j) + Shift(abi) < |args|
    ensures v == args[Position(abi.args, j) + Shift(abi)].value
  {
    hide AllParameters, Natural, Demanded, IsByValue, Suits, Numbered, StackPositions;
    NaturalIsGood(abi, args, mem, base, ptr);
    ParametersDemanded(abi.args);
    var k := Position(abi.args, j);
    PositionsTile(abi.args, j);
    OneParameter(abi.args[j], AllParameters(abi.args), k, Position(abi.args, j + 1), args, Shift(abi), mem);
    OwnerByValue(abi.args, j, k);
    v, inside := PassThenGet(abi, f, args, k + Shift(abi), mem, base, buffer, ptr);
  }

  lemma OneParameter(arg: ArgAbi, ps: seq<CType>, k: nat, next: nat, args: seq<Operand>, sh: nat, mem: Memory)
    requires arg.mode == Indirect(false, false) && Demanded(arg, ps, k, next) && Natural(arg, args, k + sh, mem)
    ensures next == k + 1 <= |ps| && ps[k] == PtrC && k + sh < |args| && args[k + sh].ty == PtrC
  {
  }
}
