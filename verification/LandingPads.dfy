/** Landing pads as the code generator names them: `cleanup_landing_pad` hands out a
    value, bound where the exception landed, but the backend renders every use of it
    as `__exn_ptr`, the pointer that landed last. */
module LandingPads {
  import opened Wrappers
  import opened UnwindSource
  import opened UnwindMachine
  import opened UnwindSimulation

  datatype PadExpr =
    | Number(n: int)
    | Local(x: nat)
    | Pad(x: nat)           // the value of landing pad x
    | Contents(addr: PadExpr)
    | Sum(left: PadExpr, right: PadExpr)

  datatype PadInstr =
    | Set(x: nat, e: PadExpr)
    | Write(addr: PadExpr, e: PadExpr)
    | CallTo(x: nat, f: PadExpr, args: seq<PadExpr>)
    | LandingPad(x: nat)    // binds pad x to the pointer that landed here

  datatype PadTerm =
    | Plain(t: Simple, e: PadExpr)
    | Guarded(x: nat, f: PadExpr, args: seq<PadExpr>, normal: nat, catch: nat)
    | EndCleanup(pad: nat, unwind: Option<nat>)

  /** Terminators with at most one operand. */
  datatype Simple = Give | Jump(target: nat) | Branch(ifTrue: nat, ifFalse: nat) | Rethrow | Stop

  datatype PadBlock = PadBlock(body: seq<PadInstr>, term: PadTerm)

  type PadFunction = map<nat, PadBlock>
  type PadProgram = map<int, PadFunction>

  // ----- what the backend sees: every pad is __exn_ptr -----

  function Erase(e: PadExpr): Expr {
    match e
    case Number(n) => Const(n)
    case Local(x) => Var(x)
    case Pad(_) => ExnPtr
    case Contents(a) => Load(Erase(a))
    case Sum(a, b) => Plus(Erase(a), Erase(b))
  }

  function EraseAll(es: seq<PadExpr>): seq<Expr> {
    seq(|es|, i requires 0 <= i < |es| => Erase(es[i]))
  }

  function EraseBody(body: seq<PadInstr>): seq<Instr> {
    if body == [] then []
    else
      match body[0]
      case Set(x, e) => [Assign(x, Erase(e))] + EraseBody(body[1..])
      case Write(a, e) => [Store(Erase(a), Erase(e))] + EraseBody(body[1..])
      case CallTo(x, f, args) => [Call(x, Erase(f), EraseAll(args))] + EraseBody(body[1..])
      case LandingPad(_) => EraseBody(body[1..])
  }

  function EraseTerm(t: PadTerm): Terminator {
    match t
    case Plain(Give, e) => Ret(Erase(e))
    case Plain(Jump(l), _) => Br(l)
    case Plain(Branch(l, m), e) => CondBr(Erase(e), l, m)
    case Plain(Rethrow, e) => Resume(Erase(e))
    case Plain(Stop, _) => Unreachable
    case Guarded(x, f, args, normal, catch) => Invoke(x, Erase(f), EraseAll(args), normal, catch)
    case EndCleanup(_, unwind) => CleanupRet(unwind)
  }

  function EraseFunction(fn: PadFunction): Function {
    map l | l in fn :: Block(EraseBody(fn[l].body), EraseTerm(fn[l].term))
  }

  function EraseProgram(p: PadProgram): Program {
    map f | f in p :: EraseFunction(p[f])
  }

  // ----- the meaning with bound pads -----

  datatype PadEnv = PadEnv(locals: map<nat, int>, landed: int, pads: map<nat, int>)

  /** The result, and whether every pad used on the way was the last one landed. */
  datatype Outcome = Outcome(r: Result, right: bool)

  function Value(e: PadExpr, env: PadEnv, mem: Mem): int {
    match e
    case Number(n) => n
    case Local(x) => Read(env.locals, x)
    case Pad(x) => Read(env.pads, x)
    case Contents(a) => Read(mem, Value(a, env, mem))
    case Sum(a, b) => Value(a, env, mem) + Value(b, env, mem)
  }

  function Values(es: seq<PadExpr>, env: PadEnv, mem: Mem): seq<int> {
    seq(|es|, i requires 0 <= i < |es| => Value(es[i], env, mem))
  }

  /** The pointer pad x was bound to is still the last that landed. */
  predicate Current(x: nat, env: PadEnv) {
    Read(env.pads, x) == env.landed
  }

  predicate AllCurrent(e: PadExpr, env: PadEnv) {
    match e
    case Pad(x) => Current(x, env)
    case Contents(a) => AllCurrent(a, env)
    case Sum(a, b) => AllCurrent(a, env) && AllCurrent(b, env)
    case _ => true
  }

  predicate ListCurrent(es: seq<PadExpr>, env: PadEnv) {
    forall e | e in es :: AllCurrent(e, env)
  }

  function And(b: bool, o: Outcome): Outcome {
    Outcome(o.r, b && o.right)
  }

  function SetLocal(env: PadEnv, x: nat, v: int): PadEnv {
    env.(locals := env.locals[x := v])
  }

  function BindPad(env: PadEnv, x: nat): PadEnv {
    env.(pads := env.pads[x := env.landed])
  }

  function RunBody(p: PadProgram, fuel: nat, fn: PadFunction, body: seq<PadInstr>, term: PadTerm, env: PadEnv,
                   mem: Mem): Outcome
    decreases fuel, 1, |body|
  {
    if body != [] && body[0].LandingPad? then RunBody(p, fuel, fn, body[1..], term, BindPad(env, body[0].x), mem)
    else if fuel == 0 then Outcome(Timeout, true)
    else if body == [] then RunEnd(p, fuel, fn, term, env, mem)
    else
      match body[0]
      case Set(x, e) =>
        And(AllCurrent(e, env), RunBody(p, fuel - 1, fn, body[1..], term, SetLocal(env, x, Value(e, env, mem)), mem))
      case Write(a, e) =>
        And(AllCurrent(a, env) && AllCurrent(e, env),
            RunBody(p, fuel - 1, fn, body[1..], term, env, mem[Value(a, env, mem) := Value(e, env, mem)]))
      case CallTo(x, f, args) =>
        var o := RunFunction(p, fuel - 1, Value(f, env, mem), Values(args, env, mem), mem);
        And(AllCurrent(f, env) && ListCurrent(args, env),
            if !o.r.Returned? then o
            else And(o.right, RunBody(p, fuel - 1, fn, body[1..], term, SetLocal(env, x, o.r.v), o.r.mem)))
  }

  function RunEnd(p: PadProgram, fuel: nat, fn: PadFunction, term: PadTerm, env: PadEnv, mem: Mem): Outcome
    requires fuel > 0
    decreases fuel, 0, 0
  {
    match term
    case Plain(Give, e) => Outcome(Returned(Value(e, env, mem), mem), AllCurrent(e, env))
    case Plain(Jump(l), _) => RunFrom(p, fuel - 1, fn, l, env, mem)
    case Plain(Branch(l, m), e) =>
      And(AllCurrent(e, env), RunFrom(p, fuel - 1, fn, if Value(e, env, mem) != 0 then l else m, env, mem))
    case Plain(Rethrow, e) => Outcome(Raised(Value(e, env, mem), mem), AllCurrent(e, env))
    case Plain(Stop, _) => Outcome(Result.Aborted(mem), true)
    case EndCleanup(_, Some(l)) => RunFrom(p, fuel - 1, fn, l, env, mem)
    case EndCleanup(x, None) => Outcome(Raised(Read(env.pads, x), mem), Current(x, env))
    case Guarded(x, f, args, normal, catch) =>
      var o := RunFunction(p, fuel - 1, Value(f, env, mem), Values(args, env, mem), mem);
      And(AllCurrent(f, env) && ListCurrent(args, env),
          if o.r.Returned? then And(o.right, RunFrom(p, fuel - 1, fn, normal, SetLocal(env, x, o.r.v), o.r.mem))
          else if o.r.Raised? then And(o.right, RunFrom(p, fuel - 1, fn, catch, env.(landed := o.r.exn), o.r.mem))
          else o)
  }

  function RunFrom(p: PadProgram, fuel: nat, fn: PadFunction, l: nat, env: PadEnv, mem: Mem): Outcome
    decreases fuel, 2, 0
  {
    if l in fn then RunBody(p, fuel, fn, fn[l].body, fn[l].term, env, mem) else Outcome(Fault, true)
  }

  function RunFunction(p: PadProgram, fuel: nat, f: int, args: seq<int>, mem: Mem): Outcome
    decreases fuel, 3, 0
  {
    if f == RAISE then Outcome(if |args| == 1 then Raised(args[0], mem) else Fault, true)
    else if f == TRY then
      if |args| != 3 then Outcome(Fault, true)
      else if fuel == 0 then Outcome(Timeout, true)
      else
        var o := RunFunction(p, fuel - 1, args[0], [args[1]], mem);
        if o.r.Returned? then Outcome(Returned(0, o.r.mem), o.right)
        else if o.r.Raised? then
          var h := RunFunction(p, fuel - 1, args[2], [args[1], o.r.exn], o.r.mem);
          And(o.right, if h.r.Returned? then Outcome(Returned(1, h.r.mem), h.right) else h)
        else o
    else if f in p then RunFrom(p, fuel, p[f], 0, PadEnv(Params(args).locals, 0, map[]), mem)
    else Outcome(Fault, true)
  }

  // ----- a run whose uses are all right is the erased one -----

  function Seen(env: PadEnv): Env {
    Env(env.locals, env.landed)
  }

  /** One use: the text reads the bound pointer exactly when it landed last. */
  lemma UseReads(x: nat, env: PadEnv, mem: Mem)
    ensures Eval(Erase(Pad(x)), Seen(env), mem) == Value(Pad(x), env, mem) <==> Current(x, env)
  {
  }

  lemma {:induction false} ValueErased(e: PadExpr, env: PadEnv, mem: Mem)
    requires AllCurrent(e, env)
    ensures Eval(Erase(e), Seen(env), mem) == Value(e, env, mem)
    decreases e
  {
    if e.Contents? {
      ValueErased(e.addr, env, mem);
    } else if e.Sum? {
      ValueErased(e.left, env, mem);
      ValueErased(e.right, env, mem);
    }
  }

  lemma ValuesErased(es: seq<PadExpr>, env: PadEnv, mem: Mem)
    requires ListCurrent(es, env)
    ensures EvalArgs(EraseAll(es), Seen(env), mem) == Values(es, env, mem)
  {
    forall i | 0 <= i < |es| ensures Eval(Erase(es[i]), Seen(env), mem) == Value(es[i], env, mem) {
      ValueErased(es[i], env, mem);
    }
  }

  lemma {:induction false} BodyErased(p: PadProgram, fuel: nat, fn: PadFunction, body: seq<PadInstr>, term: PadTerm,
                                      env: PadEnv, mem: Mem)
    requires RunBody(p, fuel, fn, body, term, env, mem).right
    ensures RunCode(EraseProgram(p), fuel, EraseFunction(fn), EraseBody(body), EraseTerm(term), Seen(env), mem)
            == RunBody(p, fuel, fn, body, term, env, mem).r
    decreases fuel, 1, |body|
  {
    hide EraseProgram, EraseFunction;
    if body != [] && body[0].LandingPad? {
      BodyErased(p, fuel, fn, body[1..], term, BindPad(env, body[0].x), mem);
    } else if fuel > 0 {
      if body == [] {
        EndErased(p, fuel, fn, term, env, mem);
      } else {
        InstrErased(p, fuel, fn, body, term, env, mem);
      }
    }
  }

  lemma {:induction false} InstrErased(p: PadProgram, fuel: nat, fn: PadFunction, body: seq<PadInstr>, term: PadTerm,
                                       env: PadEnv, mem: Mem)
    requires fuel > 0 && body != [] && !body[0].LandingPad? && RunBody(p, fuel, fn, body, term, env, mem).right
    ensures RunCode(EraseProgram(p), fuel, EraseFunction(fn), EraseBody(body), EraseTerm(term), Seen(env), mem)
            == RunBody(p, fuel, fn, body, term, env, mem).r
    decreases fuel, 0, 1
  {
    hide EraseProgram, EraseFunction, RunEnd, RunTerm, RunFunction, RunCall;
    var q, g := EraseProgram(p), EraseFunction(fn);
    if body[0].CallTo? {
      CallToErased(p, fuel, fn, body, term, env, mem);
    } else if body[0].Set? {
      ValueErased(body[0].e, env, mem);
      BodyErased(p, fuel - 1, fn, body[1..], term, SetLocal(env, body[0].x, Value(body[0].e, env, mem)), mem);
      PlainUnfolds(q, fuel, g, EraseBody(body), EraseTerm(term), Seen(env), mem);
    } else {
      ValueErased(body[0].addr, env, mem);
      ValueErased(body[0].e, env, mem);
      BodyErased(p, fuel - 1, fn, body[1..], term, env,
                 mem[Value(body[0].addr, env, mem) := Value(body[0].e, env, mem)]);
      PlainUnfolds(q, fuel, g, EraseBody(body), EraseTerm(term), Seen(env), mem);
    }
  }

  lemma {:induction false} CallToErased(p: PadProgram, fuel: nat, fn: PadFunction, body: seq<PadInstr>, term: PadTerm,
                                        env: PadEnv, mem: Mem)
    requires fuel > 0 && body != [] && body[0].CallTo? && RunBody(p, fuel, fn, body, term, env, mem).right
    ensures RunCode(EraseProgram(p), fuel, EraseFunction(fn), EraseBody(body), EraseTerm(term), Seen(env), mem)
            == RunBody(p, fuel, fn, body, term, env, mem).r
    decreases fuel, 0, 0
  {
    hide EraseProgram, EraseFunction, RunEnd, RunTerm, RunFunction, RunCall;
    var f, args := body[0].f, body[0].args;
    ValueErased(f, env, mem);
    ValuesErased(args, env, mem);
    FunctionErased(p, fuel - 1, Value(f, env, mem), Values(args, env, mem), mem);
    CallUnfoldsIn(EraseProgram(p), fuel, EraseFunction(fn), EraseBody(body), EraseTerm(term), Seen(env), mem);
    var o := RunFunction(p, fuel - 1, Value(f, env, mem), Values(args, env, mem), mem);
    if o.r.Returned? {
      BodyErased(p, fuel - 1, fn, body[1..], term, SetLocal(env, body[0].x, o.r.v), o.r.mem);
    }
  }

  lemma {:induction false} EndErased(p: PadProgram, fuel: nat, fn: PadFunction, term: PadTerm, env: PadEnv, mem: Mem)
    requires fuel > 0 && RunEnd(p, fuel, fn, term, env, mem).right
    ensures RunTerm(EraseProgram(p), fuel, EraseFunction(fn), EraseTerm(term), Seen(env), mem)
            == RunEnd(p, fuel, fn, term, env, mem).r
    decreases fuel, 0, 0
  {
    hide EraseProgram, EraseFunction, RunFunction, RunCall, RunFrom, RunBlock;
    if term.Guarded? {
      ValueErased(term.f, env, mem);
      ValuesErased(term.args, env, mem);
      FunctionErased(p, fuel - 1, Value(term.f, env, mem), Values(term.args, env, mem), mem);
      var o := RunFunction(p, fuel - 1, Value(term.f, env, mem), Values(term.args, env, mem), mem);
      if o.r.Returned? {
        FromErased(p, fuel - 1, fn, term.normal, SetLocal(env, term.x, o.r.v), o.r.mem);
      } else if o.r.Raised? {
        FromErased(p, fuel - 1, fn, term.catch, env.(landed := o.r.exn), o.r.mem);
      }
    } else if term.EndCleanup? {
      if term.unwind.Some? { FromErased(p, fuel - 1, fn, term.unwind.value, env, mem); }
    } else if term.t.Jump? {
      FromErased(p, fuel - 1, fn, term.t.target, env, mem);
    } else if !term.t.Stop? {
      ValueErased(term.e, env, mem);
      if term.t.Branch? {
        FromErased(p, fuel - 1, fn, if Value(term.e, env, mem) != 0 then term.t.ifTrue else term.t.ifFalse, env, mem);
      }
    }
  }

  lemma {:induction false} FromErased(p: PadProgram, fuel: nat, fn: PadFunction, l: nat, env: PadEnv, mem: Mem)
    requires RunFrom(p, fuel, fn, l, env, mem).right
    ensures RunBlock(EraseProgram(p), fuel, EraseFunction(fn), l, Seen(env), mem) == RunFrom(p, fuel, fn, l, env, mem).r
    decreases fuel, 2, 0
  {
    hide RunBody, RunCode, EraseBody, EraseTerm, EraseProgram;
    if l in fn { BodyErased(p, fuel, fn, fn[l].body, fn[l].term, env, mem); }
  }

  lemma {:induction false} FunctionErased(p: PadProgram, fuel: nat, f: int, args: seq<int>, mem: Mem)
    requires RunFunction(p, fuel, f, args, mem).right
    ensures RunCall(EraseProgram(p), fuel, f, args, mem) == RunFunction(p, fuel, f, args, mem).r
    decreases fuel, 3, 0
  {
    hide RunFrom, RunBlock;
    if f == TRY {
      if |args| == 3 && fuel > 0 {
        FunctionErased(p, fuel - 1, args[0], [args[1]], mem);
        var o := RunFunction(p, fuel - 1, args[0], [args[1]], mem);
        if o.r.Raised? { FunctionErased(p, fuel - 1, args[2], [args[1], o.r.exn], o.r.mem); }
      }
    } else if f != RAISE && f in p {
      FromErased(p, fuel, p[f], 0, PadEnv(Params(args).locals, 0, map[]), mem);
    }
  }

  // ----- whole programs -----

  /** With bound pads, `f` has an answer that reads `o` on the machine. */
  ghost predicate PadsEnd(p: PadProgram, f: int, args: seq<int>, mem: Mem, o: Machine) {
    exists fuel: nat :: !RunFunction(p, fuel, f, args, mem).r.Timeout?
        && Verdict(RunFunction(p, fuel, f, args, mem).r) == o
  }

  /** No run of f uses a pad after a later landing brought another pointer. */
  ghost predicate AlwaysRight(p: PadProgram, f: int, args: seq<int>, mem: Mem) {
    forall fuel: nat :: RunFunction(p, fuel, f, args, mem).right
  }

  /** Main result: if every use of a pad is right, the emitted C ends as the program
      with bound pads does, and only then. */
  lemma LoweringPreservesPads(p: PadProgram, f: int, args: seq<int>, mem: Mem, o: Machine)
    requires AlwaysRight(p, f, args, mem)
    ensures MachineEnds(EraseProgram(p), f, args, mem, o) <==> PadsEnd(p, f, args, mem, o)
  {
    hide RunFunction, RunCall, EraseProgram;
    LoweringPreservesMeaning(EraseProgram(p), f, args, mem, o);
    forall fuel: nat ensures RunCall(EraseProgram(p), fuel, f, args, mem) == RunFunction(p, fuel, f, args, mem).r {
      FunctionErased(p, fuel, f, args, mem);
    }
  }

  // ----- uses within the landing block -----

  predicate LocalExpr(e: PadExpr, bound: set<nat>) {
    match e
    case Pad(x) => x in bound
    case Contents(a) => LocalExpr(a, bound)
    case Sum(a, b) => LocalExpr(a, bound) && LocalExpr(b, bound)
    case _ => true
  }

  predicate LocalList(es: seq<PadExpr>, bound: set<nat>) {
    forall e | e in es :: LocalExpr(e, bound)
  }

  predicate LocalBody(body: seq<PadInstr>, term: PadTerm, bound: set<nat>) {
    if body == [] then LocalTerm(term, bound)
    else
      match body[0]
      case LandingPad(x) => LocalBody(body[1..], term, bound + {x})
      case Set(_, e) => LocalExpr(e, bound) && LocalBody(body[1..], term, bound)
      case Write(a, e) => LocalExpr(a, bound) && LocalExpr(e, bound) && LocalBody(body[1..], term, bound)
      case CallTo(_, f, args) => LocalExpr(f, bound) && LocalList(args, bound) && LocalBody(body[1..], term, bound)
  }

  predicate LocalTerm(term: PadTerm, bound: set<nat>) {
    match term
    case Plain(_, e) => LocalExpr(e, bound)
    case Guarded(_, f, args, _, _) => LocalExpr(f, bound) && LocalList(args, bound)
    case EndCleanup(x, unwind) => unwind.None? ==> x in bound
  }

  /** Each pad is used only in the block that binds it, after the binding, as a
      code generator does that saves the pointer in a local where it lands. */
  predicate LocalFunction(fn: PadFunction) {
    forall l | l in fn :: LocalBody(fn[l].body, fn[l].term, {})
  }

  predicate LocalProgram(p: PadProgram) {
    forall f | f in p :: LocalFunction(p[f])
  }

  predicate BoundCurrent(bound: set<nat>, env: PadEnv) {
    forall x | x in bound :: Current(x, env)
  }

  lemma {:induction false} LocalIsCurrent(e: PadExpr, bound: set<nat>, env: PadEnv)
    requires LocalExpr(e, bound) && BoundCurrent(bound, env)
    ensures AllCurrent(e, env)
    decreases e
  {
    if e.Contents? {
      LocalIsCurrent(e.addr, bound, env);
    } else if e.Sum? {
      LocalIsCurrent(e.left, bound, env);
      LocalIsCurrent(e.right, bound, env);
    }
  }

  lemma LocalsAreCurrent(es: seq<PadExpr>, bound: set<nat>, env: PadEnv)
    requires LocalList(es, bound) && BoundCurrent(bound, env)
    ensures ListCurrent(es, env)
  {
    forall e | e in es ensures AllCurrent(e, env) {
      LocalIsCurrent(e, bound, env);
    }
  }

  lemma {:induction false} BodyRight(p: PadProgram, fuel: nat, fn: PadFunction, body: seq<PadInstr>, term: PadTerm,
                                     bound: set<nat>,
                                     env: PadEnv, mem: Mem)
    requires LocalProgram(p) && LocalFunction(fn) && LocalBody(body, term, bound) && BoundCurrent(bound, env)
    ensures RunBody(p, fuel, fn, body, term, env, mem).right
    decreases fuel, 1, |body|
  {
    hide LocalProgram, LocalFunction, RunEnd, RunFunction, LocalTerm;
    if body != [] && body[0].LandingPad? {
      BodyRight(p, fuel, fn, body[1..], term, bound + {body[0].x}, BindPad(env, body[0].x), mem);
    } else if fuel > 0 {
      if body == [] {
        EndRight(p, fuel, fn, term, bound, env, mem);
      } else if body[0].CallTo? {
        var f, args := body[0].f, body[0].args;
        LocalIsCurrent(f, bound, env);
        LocalsAreCurrent(args, bound, env);
        FunctionRight(p, fuel - 1, Value(f, env, mem), Values(args, env, mem), mem);
        var o := RunFunction(p, fuel - 1, Value(f, env, mem), Values(args, env, mem), mem);
        if o.r.Returned? {
          BodyRight(p, fuel - 1, fn, body[1..], term, bound, SetLocal(env, body[0].x, o.r.v), o.r.mem);
        }
      } else if body[0].Set? {
        LocalIsCurrent(body[0].e, bound, env);
        BodyRight(p, fuel - 1, fn, body[1..], term, bound, SetLocal(env, body[0].x, Value(body[0].e, env, mem)), mem);
      } else {
        LocalIsCurrent(body[0].addr, bound, env);
        LocalIsCurrent(body[0].e, bound, env);
        BodyRight(p, fuel - 1, fn, body[1..], term, bound, env,
                  mem[Value(body[0].addr, env, mem) := Value(body[0].e, env, mem)]);
      }
    }
  }

  lemma {:induction false} EndRight(p: PadProgram, fuel: nat, fn: PadFunction, term: PadTerm, bound: set<nat>,
                                    env: PadEnv, mem: Mem)
    requires fuel > 0 && LocalProgram(p) && LocalFunction(fn) && LocalTerm(term, bound) && BoundCurrent(bound, env)
    ensures RunEnd(p, fuel, fn, term, env, mem).right
    decreases fuel, 0, 0
  {
    hide LocalProgram, LocalFunction, RunFrom, RunFunction;
    if term.Guarded? {
      LocalIsCurrent(term.f, bound, env);
      LocalsAreCurrent(term.args, bound, env);
      FunctionRight(p, fuel - 1, Value(term.f, env, mem), Values(term.args, env, mem), mem);
      var o := RunFunction(p, fuel - 1, Value(term.f, env, mem), Values(term.args, env, mem), mem);
      if o.r.Returned? {
        FromRight(p, fuel - 1, fn, term.normal, SetLocal(env, term.x, o.r.v), o.r.mem);
      } else if o.r.Raised? {
        FromRight(p, fuel - 1, fn, term.catch, env.(landed := o.r.exn), o.r.mem);
      }
    } else if term.EndCleanup? {
      if term.unwind.Some? { FromRight(p, fuel - 1, fn, term.unwind.value, env, mem); }
    } else {
      LocalIsCurrent(term.e, bound, env);
      if term.t.Jump? {
        FromRight(p, fuel - 1, fn, term.t.target, env, mem);
      } else if term.t.Branch? {
        FromRight(p, fuel - 1, fn, if Value(term.e, env, mem) != 0 then term.t.ifTrue else term.t.ifFalse, env, mem);
      }
    }
  }

  lemma {:induction false} FromRight(p: PadProgram, fuel: nat, fn: PadFunction, l: nat, env: PadEnv, mem: Mem)
    requires LocalProgram(p) && LocalFunction(fn)
    ensures RunFrom(p, fuel, fn, l, env, mem).right
    decreases fuel, 2, 0
  {
    hide RunBody, LocalBody, LocalProgram;
    if l in fn { BodyRight(p, fuel, fn, fn[l].body, fn[l].term, {}, env, mem); }
  }

  lemma {:induction false} FunctionRight(p: PadProgram, fuel: nat, f: int, args: seq<int>, mem: Mem)
    requires LocalProgram(p)
    ensures RunFunction(p, fuel, f, args, mem).right
    decreases fuel, 3, 0
  {
    hide RunFrom, LocalFunction;
    if f == TRY {
      if |args| == 3 && fuel > 0 {
        FunctionRight(p, fuel - 1, args[0], [args[1]], mem);
        var o := RunFunction(p, fuel - 1, args[0], [args[1]], mem);
        if o.r.Raised? { FunctionRight(p, fuel - 1, args[2], [args[1], o.r.exn], o.r.mem); }
      }
    } else if f != RAISE && f in p {
      FromRight(p, fuel, p[f], 0, PadEnv(Params(args).locals, 0, map[]), mem);
    }
  }

  /** Pads used only where they land keep their meaning in every program. */
  lemma LocalPadsPreserved(p: PadProgram, f: int, args: seq<int>, mem: Mem, o: Machine)
    requires LocalProgram(p)
    ensures MachineEnds(EraseProgram(p), f, args, mem, o) <==> PadsEnd(p, f, args, mem, o)
  {
    hide RunFunction, EraseProgram, LocalProgram;
    forall fuel: nat ensures RunFunction(p, fuel, f, args, mem).right {
      FunctionRight(p, fuel, f, args, mem);
    }
    LoweringPreservesPads(p, f, args, mem, o);
  }

  /** Saving the pointer in a local where it lands and raising it again from there, in
      this block or another, is such a program. */
  lemma SavedPadIsLocal(x: nat, y: nat, target: nat)
    ensures LocalFunction(map[0 := PadBlock([LandingPad(x), Set(y, Pad(x))], Plain(Jump(target), Number(0))),
                              1 := PadBlock([], Plain(Rethrow, Local(y)))])
    ensures !LocalFunction(map[0 := PadBlock([LandingPad(x)], Plain(Jump(target), Number(0))),
                               1 := PadBlock([], Plain(Rethrow, Pad(x)))])
  {
    var body, t := [LandingPad(x), Set(y, Pad(x))], Plain(Jump(target), Number(0));
    assert body[1..] == [Set(y, Pad(x))] && body[1..][1..] == [];
    assert LocalBody(body[1..][1..], t, {x}) && LocalBody(body[1..], t, {x});
    assert {} + {x} == {x} && LocalBody(body, t, {});
    var f: PadFunction := map[0 := PadBlock([LandingPad(x)], Plain(Jump(target), Number(0))),
                              1 := PadBlock([], Plain(Rethrow, Pad(x)))];
    assert 1 in f && !LocalBody(f[1].body, f[1].term, {});
  }

  // ----- a use after a later landing -----

  /** 5 lands in pad 0; while it is handled 7 is raised and lands in pad 1; then the
      function returns pad 0. */
  const LATE: PadFunction := map[
    0 := PadBlock([], Guarded(0, Number(RAISE), [Number(5)], 3, 1)),
    1 := PadBlock([LandingPad(0)], Guarded(0, Number(RAISE), [Number(7)], 3, 2)),
    2 := PadBlock([LandingPad(1)], Plain(Give, Pad(0)))]

  /** The handler of 7: the pad bound to 5 is meant, 7 is read. */
  lemma SecondPad(p: PadProgram, locals: map<nat, int>, mem: Mem)
    ensures RunFrom(p, 1, LATE, 2, PadEnv(locals, 7, map[0 := 5]), mem) == Outcome(Returned(5, mem), false)
    ensures RunBlock(EraseProgram(p), 1, EraseFunction(LATE), 2, Env(locals, 7), mem) == Returned(7, mem)
  {
    hide RunFunction, RunCall, EraseProgram;
    assert [LandingPad(1)][1..] == [];
  }

  lemma FirstPad(p: PadProgram, locals: map<nat, int>, mem: Mem)
    ensures RunFrom(p, 2, LATE, 1, PadEnv(locals, 5, map[]), mem) == Outcome(Returned(5, mem), false)
    ensures RunBlock(EraseProgram(p), 2, EraseFunction(LATE), 1, Env(locals, 5), mem) == Returned(7, mem)
  {
    hide EraseProgram, RunFrom, RunBlock;
    SecondPad(p, locals, mem);
    Entered(p, 2, 1, PadEnv(locals, 5, map[]), mem);
    assert [LandingPad(0)][1..] == [];
    assert BindPad(PadEnv(locals, 5, map[]), 0) == PadEnv(locals, 5, map[0 := 5]);
  }

  lemma Entered(p: PadProgram, fuel: nat, l: nat, env: PadEnv, mem: Mem)
    requires l in LATE
    ensures RunFrom(p, fuel, LATE, l, env, mem) == RunBody(p, fuel, LATE, LATE[l].body, LATE[l].term, env, mem)
    ensures RunBlock(EraseProgram(p), fuel, EraseFunction(LATE), l, Seen(env), mem)
            == RunCode(EraseProgram(p), fuel, EraseFunction(LATE), EraseBody(LATE[l].body), EraseTerm(LATE[l].term),
                       Seen(env), mem)
  {
    hide RunBody, RunCode, EraseBody, EraseTerm, EraseProgram;
  }

  lemma NoPadYet(p: PadProgram, mem: Mem)
    ensures RunFrom(p, 3, LATE, 0, PadEnv(map[], 0, map[]), mem) == Outcome(Returned(5, mem), false)
    ensures RunBlock(EraseProgram(p), 3, EraseFunction(LATE), 0, Env(map[], 0), mem) == Returned(7, mem)
  {
    hide EraseProgram, RunFrom, RunBlock;
    FirstPad(p, map[], mem);
    Entered(p, 3, 0, PadEnv(map[], 0, map[]), mem);
  }

  /** The machine returns 7 where the program means 5. */
  lemma LatePadFails()
    ensures var p := map[0 := LATE];
            PadsEnd(p, 0, [], map[], Done(5, map[])) && MachineEnds(EraseProgram(p), 0, [], map[], Done(7, map[]))
  {
    hide RunFrom, RunBlock, EraseFunction;
    var p: PadProgram := map[0 := LATE];
    NoPadYet(p, map[]);
    assert Params([]).locals == map[] && EraseProgram(p)[0] == EraseFunction(LATE);
    assert RunFunction(p, 3, 0, [], map[]).r == Returned(5, map[]);
    assert RunCall(EraseProgram(p), 3, 0, [], map[]) == Returned(7, map[]);
    LoweringPreservesMeaning(EraseProgram(p), 0, [], map[], Done(7, map[]));
  }
}
