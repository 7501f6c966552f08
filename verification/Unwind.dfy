/** The language rustc's codegen interface presents to the backend for unwinding:
    basic blocks of straight-line instructions closed by a terminator, functions
    called directly or through a pointer, and a reference meaning in which an
    exception travels to the nearest enclosing handler. */
module UnwindSource {
  import opened Wrappers

  type Mem = map<int, int>

  /** `ExnPtr` is the value `cleanup_landing_pad` hands out: the exception most
      recently delivered to this activation. */
  datatype Expr =
    | Const(n: int)
    | Var(x: nat)
    | ExnPtr
    | Load(addr: Expr)
    | Plus(left: Expr, right: Expr)

  datatype Env = Env(locals: map<nat, int>, exn: int)

  datatype Instr =
    | Assign(x: nat, e: Expr)
    | Store(addr: Expr, e: Expr)
    | Call(x: nat, f: Expr, args: seq<Expr>)

  datatype Terminator =
    | Ret(e: Expr)
    | Br(target: nat)
    | CondBr(cond: Expr, ifTrue: nat, ifFalse: nat)
    | Invoke(x: nat, f: Expr, args: seq<Expr>, normal: nat, catch: nat)
    | Resume(exn: Expr)
    | CleanupRet(unwind: Option<nat>)
    | Unreachable

  datatype Block = Block(body: seq<Instr>, term: Terminator)

  type Function = map<nat, Block>
  type Program = map<int, Function>

  // Function-pointer values of the two runtime entry points.
  const RAISE: int := -1
  const TRY: int := -2

  datatype Result =
    | Returned(v: int, mem: Mem)
    | Raised(exn: int, mem: Mem)
    | Aborted(mem: Mem)
    | Fault
    | Timeout

  function Read<K>(m: map<K, int>, k: K): int {
    if k in m then m[k] else 0
  }

  function Eval(e: Expr, env: Env, mem: Mem): int {
    match e
    case Const(n) => n
    case Var(x) => Read(env.locals, x)
    case ExnPtr => env.exn
    case Load(a) => Read(mem, Eval(a, env, mem))
    case Plus(a, b) => Eval(a, env, mem) + Eval(b, env, mem)
  }

  function EvalArgs(es: seq<Expr>, env: Env, mem: Mem): seq<int> {
    seq(|es|, i requires 0 <= i < |es| => Eval(es[i], env, mem))
  }

  function Bind(env: Env, x: nat, v: int): Env {
    env.(locals := env.locals[x := v])
  }

  /** The environment of a fresh activation: parameter i is local i. */
  function Params(args: seq<int>): Env {
    Env(map i: nat | i < |args| :: args[i], 0)
  }

  /** What a terminator other than Invoke decides. */
  datatype Next = Leave(r: Result) | Goto(target: nat)

  function Decide(term: Terminator, env: Env, mem: Mem): Next
    requires !term.Invoke?
  {
    match term
    case Ret(e) => Leave(Returned(Eval(e, env, mem), mem))
    case Br(l) => Goto(l)
    case CondBr(c, l, m) => Goto(if Eval(c, env, mem) != 0 then l else m)
    case Resume(e) => Leave(Raised(Eval(e, env, mem), mem))
    case CleanupRet(Some(l)) => Goto(l)
    case CleanupRet(None) => Leave(Raised(env.exn, mem))
    case Unreachable => Leave(Aborted(mem))
  }

  /** Structured meaning of the rest of a block. */
  function RunCode(p: Program, fuel: nat, fn: Function, body: seq<Instr>, term: Terminator, env: Env, mem: Mem): Result
    decreases fuel, 1
  {
    if fuel == 0 then Timeout
    else if body == [] then RunTerm(p, fuel, fn, term, env, mem)
    else
      match body[0]
      case Assign(x, e) => RunCode(p, fuel - 1, fn, body[1..], term, Bind(env, x, Eval(e, env, mem)), mem)
      case Store(a, e) =>
        RunCode(p, fuel - 1, fn, body[1..], term, env, mem[Eval(a, env, mem) := Eval(e, env, mem)])
      case Call(x, f, args) =>
        var r := RunCall(p, fuel - 1, Eval(f, env, mem), EvalArgs(args, env, mem), mem);
        if r.Returned? then RunCode(p, fuel - 1, fn, body[1..], term, Bind(env, x, r.v), r.mem) else r
  }

  function RunTerm(p: Program, fuel: nat, fn: Function, term: Terminator, env: Env, mem: Mem): Result
    requires fuel > 0
    decreases fuel, 0
  {
    if term.Invoke? then
      var r := RunCall(p, fuel - 1, Eval(term.f, env, mem), EvalArgs(term.args, env, mem), mem);
      if r.Returned? then RunBlock(p, fuel - 1, fn, term.normal, Bind(env, term.x, r.v), r.mem)
      else if r.Raised? then RunBlock(p, fuel - 1, fn, term.catch, env.(exn := r.exn), r.mem)
      else r
    else
      match Decide(term, env, mem)
      case Leave(r) => r
      case Goto(l) => RunBlock(p, fuel - 1, fn, l, env, mem)
  }

  function RunBlock(p: Program, fuel: nat, fn: Function, l: nat, env: Env, mem: Mem): Result
    decreases fuel, 2
  {
    if l in fn then RunCode(p, fuel, fn, fn[l].body, fn[l].term, env, mem) else Fault
  }

  /** Structured meaning of a call; `TRY` runs its first argument and hands an
      escaping exception to its third. */
  function RunCall(p: Program, fuel: nat, f: int, args: seq<int>, mem: Mem): Result
    decreases fuel, 3
  {
    if f == RAISE then
      if |args| == 1 then Raised(args[0], mem) else Fault
    else if f == TRY then
      if |args| != 3 then Fault
      else if fuel == 0 then Timeout
      else
        var r := RunCall(p, fuel - 1, args[0], [args[1]], mem);
        if r.Returned? then Returned(0, r.mem)
        else if r.Raised? then
          var h := RunCall(p, fuel - 1, args[2], [args[1], r.exn], r.mem);
          if h.Returned? then Returned(1, h.mem) else h
        else r
    else if f in p then RunBlock(p, fuel, p[f], 0, Params(args), mem)
    else Fault
  }
}

/** The emitted C: statements over a thread-local chain of unwind contexts, the
    lowering that produces them, and the machine that executes them. */
module UnwindMachine {
  import opened Wrappers
  import opened UnwindSource

  datatype CStmt =
    | CAssign(x: nat, e: Expr)
    | CStore(addr: Expr, e: Expr)
    | CCall(x: nat, f: Expr, args: seq<Expr>)
    | CtxSavePrev                           // ctx.prev = chain;
    | CtxClearExn                           // ctx.exception_ptr = 0;
    | ChainPush                             // chain = &ctx;
    | Setjmp(handler: seq<CStmt>)           // if (setjmp(ctx.buf) != 0) { handler }
    | LoadExn                               // exn = ctx.exception_ptr;
    | ChainPop                              // chain = ctx.prev;
    | CGoto(target: nat)
    | CCondGoto(cond: Expr, ifTrue: nat, ifFalse: nat)
    | CReturn(e: Expr)
    | CRaise(exn: Expr)                     // if (chain) { chain->exception_ptr = e; longjmp(chain->buf, 1); } abort();
    | CAbort

  type CFunction = map<nat, seq<CStmt>>
  type CProgram = map<int, CFunction>

  // ----- lowering -----

  function LowerInstr(i: Instr): CStmt {
    match i
    case Assign(x, e) => CAssign(x, e)
    case Store(a, e) => CStore(a, e)
    case Call(x, f, args) => CCall(x, f, args)
  }

  /** The prologue of every guarded call: push the context, arm the handler. */
  function Guard(handler: seq<CStmt>, call: CStmt): seq<CStmt> {
    [CtxSavePrev, CtxClearExn, ChainPush, Setjmp([LoadExn, ChainPop] + handler), call, ChainPop]
  }

  function LowerTerm(t: Terminator): seq<CStmt> {
    match t
    case Ret(e) => [CReturn(e)]
    case Br(l) => [CGoto(l)]
    case CondBr(c, l, m) => [CCondGoto(c, l, m)]
    case Invoke(x, f, args, normal, catch) => Guard([CGoto(catch)], CCall(x, f, args)) + [CGoto(normal)]
    case Resume(e) => [CRaise(e)]
    case CleanupRet(Some(l)) => [CGoto(l)]
    case CleanupRet(None) => [CRaise(ExnPtr)]
    case Unreachable => [CAbort]
  }

  function LowerCode(body: seq<Instr>, term: Terminator): seq<CStmt> {
    if body == [] then LowerTerm(term) else [LowerInstr(body[0])] + LowerCode(body[1..], term)
  }

  function LowerFunction(fn: Function): CFunction {
    map l | l in fn :: LowerCode(fn[l].body, fn[l].term)
  }

  function LowerProgram(p: Program): CProgram {
    map f | f in p :: LowerFunction(p[f])
  }

  /** `__rust_try(try_fn, data, catch_fn)`: parameters are locals 0, 1 and 2. */
  const RUST_TRY: seq<CStmt> :=
    Guard([CCall(3, Var(2), [Var(1), ExnPtr]), CReturn(Const(1))], CCall(3, Var(0), [Var(1)])) + [CReturn(Const(0))]

  /** `_Unwind_RaiseException(exception_object)`. */
  const RAISE_EXCEPTION: seq<CStmt> := [CRaise(Var(0))]

  // ----- machine -----

  /** A saved `jmp_buf`: the activation that called setjmp and where it resumes. */
  datatype JmpBuf = JmpBuf(depth: nat, id: nat, handler: seq<CStmt>)

  datatype Ctx = Ctx(prev: Option<nat>, exn: int, buf: Option<JmpBuf>)

  /** One C activation with its single `__unwind_ctx`. Contexts live on the C
      stack: the address of a context is the stack position of its frame, and the
      `id` tells an activation from a later one at the same position. */
  datatype Frame = Frame(id: nat, code: CFunction, rest: seq<CStmt>, env: Env, ctx: Ctx, dst: nat)

  datatype Machine =
    | Running(stack: seq<Frame>, chain: Option<nat>, mem: Mem, next: nat)
    | Done(v: int, finalMem: Mem)
    | Dead(deadMem: Mem)
    | Faulted
    | BadJump     // longjmp to a context whose function has returned: undefined behaviour

  const FRESH_CTX := Ctx(None, 0, None)

  /** The code a call enters, if the callee exists. */
  function Enter(p: CProgram, f: int, args: seq<int>): Option<(CFunction, seq<CStmt>)> {
    if f == RAISE then
      if |args| == 1 then Some((map[], RAISE_EXCEPTION)) else None
    else if f == TRY then
      if |args| == 3 then Some((map[], RUST_TRY)) else None
    else if f in p && 0 in p[f] then Some((p[f], p[f][0]))
    else None
  }

  function Jump(below: seq<Frame>, t: Frame, l: nat, chain: Option<nat>, mem: Mem, next: nat): Machine {
    if l in t.code then Running(below + [t.(rest := t.code[l])], chain, mem, next) else Faulted
  }

  function LongJump(stack: seq<Frame>, chain: Option<nat>, exn: int, mem: Mem, next: nat): Machine {
    if chain.None? then Dead(mem)
    else if chain.value >= |stack| then BadJump
    else
      var c := chain.value;
      var ctx := stack[c].ctx.(exn := exn);
      var written := stack[c := stack[c].(ctx := ctx)];
      match ctx.buf
      case None => BadJump
      case Some(b) =>
        if b.depth < |stack| && stack[b.depth].id == b.id
        then Running(written[..b.depth] + [written[b.depth].(rest := b.handler)], chain, mem, next)
        else BadJump
  }

  function Return(below: seq<Frame>, dst: nat, v: int, chain: Option<nat>, mem: Mem, next: nat): Machine {
    if below == [] then Done(v, mem)
    else
      var caller := below[|below| - 1];
      Running(below[..|below| - 1] + [caller.(env := Bind(caller.env, dst, v))], chain, mem, next)
  }

  /** One statement of the innermost activation. */
  function StepTop(p: CProgram, below: seq<Frame>, t: Frame, chain: Option<nat>, mem: Mem, next: nat): Machine {
    if t.rest == [] then Faulted
    else
      var u := t.(rest := t.rest[1..]);
      match t.rest[0]
      case CAssign(x, e) => Running(below + [u.(env := Bind(u.env, x, Eval(e, u.env, mem)))], chain, mem, next)
      case CStore(a, e) => Running(below + [u], chain, mem[Eval(a, u.env, mem) := Eval(e, u.env, mem)], next)
      case CCall(x, f, args) =>
        var vs := EvalArgs(args, u.env, mem);
        (match Enter(p, Eval(f, u.env, mem), vs)
         case None => Faulted
         case Some(entry) =>
           Running(below + [u] + [Frame(next, entry.0, entry.1, Params(vs), FRESH_CTX, x)], chain, mem, next + 1))
      case CtxSavePrev => Running(below + [u.(ctx := u.ctx.(prev := chain))], chain, mem, next)
      case CtxClearExn => Running(below + [u.(ctx := u.ctx.(exn := 0))], chain, mem, next)
      case ChainPush => Running(below + [u], Some(|below|), mem, next)
      case Setjmp(h) => Running(below + [u.(ctx := u.ctx.(buf := Some(JmpBuf(|below|, u.id, h))))], chain, mem, next)
      case LoadExn => Running(below + [u.(env := u.env.(exn := u.ctx.exn))], chain, mem, next)
      case ChainPop => Running(below + [u], u.ctx.prev, mem, next)
      case CGoto(l) => Jump(below, u, l, chain, mem, next)
      case CCondGoto(c, l, m) => Jump(below, u, if Eval(c, u.env, mem) != 0 then l else m, chain, mem, next)
      case CReturn(e) => Return(below, t.dst, Eval(e, u.env, mem), chain, mem, next)
      case CRaise(e) => LongJump(below + [u], chain, Eval(e, u.env, mem), mem, next)
      case CAbort => Dead(mem)
  }

  function Step(p: CProgram, s: Machine): Machine {
    if s.Running? && s.stack != [] then
      var n := |s.stack| - 1;
      StepTop(p, s.stack[..n], s.stack[n], s.chain, s.mem, s.next)
    else s
  }

  function Steps(p: CProgram, s: Machine, n: nat): Machine
    decreases n
  {
    if n == 0 then s else Steps(p, Step(p, s), n - 1)
  }

  /** The machine about to run the program's entry function on one argument list. */
  function Boot(p: CProgram, main: int, args: seq<int>, mem: Mem): Machine {
    match Enter(p, main, args)
    case None => Faulted
    case Some(entry) => Running([Frame(0, entry.0, entry.1, Params(args), FRESH_CTX, 0)], None, mem, 1)
  }
}

/** The lowering preserves meaning. */
module UnwindSimulation {
  import opened Wrappers
  import opened UnwindSource
  import opened UnwindMachine

  lemma {:induction false} StepsAdd(p: CProgram, s: Machine, m: nat, n: nat)
    ensures Steps(p, s, m + n) == Steps(p, Steps(p, s, m), n)
    decreases m
  {
    if m != 0 { StepsAdd(p, Step(p, s), m - 1, n); }
  }

  lemma StepsOne(p: CProgram, below: seq<Frame>, t: Frame, chain: Option<nat>, mem: Mem, next: nat)
    ensures Steps(p, Running(below + [t], chain, mem, next), 1) == StepTop(p, below, t, chain, mem, next)
  {
    var s := Running(below + [t], chain, mem, next);
    assert s.stack[..|below|] == below && s.stack[|below|] == t;
    assert Steps(p, s, 1) == Steps(p, Step(p, s), 0);
  }

  /** The innermost activation is about to return `v`; everything below is untouched. */
  ghost predicate AtReturn(m: Machine, below: seq<Frame>, dst: nat, chain: Option<nat>, v: int, mem: Mem) {
    && m.Running? && |m.stack| == |below| + 1 && m.stack[..|below|] == below
    && m.chain == chain && m.mem == mem
    && var t := m.stack[|below|];
       t.dst == dst && t.rest != [] && t.rest[0].CReturn? && Eval(t.rest[0].e, t.env, mem) == v
  }

  /** Some activation above `below` is about to raise `exn` with the chain as it
      was when `below` was left; everything below is untouched. */
  ghost predicate AtRaise(m: Machine, below: seq<Frame>, chain: Option<nat>, exn: int, mem: Mem) {
    && m.Running? && |m.stack| > |below| && m.stack[..|below|] == below
    && m.chain == chain && m.mem == mem
    && var t := m.stack[|m.stack| - 1];
       t.rest != [] && t.rest[0].CRaise? && Eval(t.rest[0].exn, t.env, mem) == exn
  }

  lemma RaiseFromCallee(m: Machine, below: seq<Frame>, t: Frame, chain: Option<nat>, exn: int, mem: Mem)
    requires AtRaise(m, below + [t], chain, exn, mem)
    ensures AtRaise(m, below, chain, exn, mem)
  {
    assert m.stack[..|below|] == m.stack[..|below| + 1][..|below|];
  }

  /** What the machine has reached when the interpreter's answer for the rest of
      an activation is `r`. */
  ghost predicate Matches(r: Result, m: Machine, n: nat, fuel: nat, below: seq<Frame>, dst: nat, chain: Option<nat>) {
    match r
    case Returned(v, mem) => AtReturn(m, below, dst, chain, v, mem)
    case Raised(e, mem) => AtRaise(m, below, chain, e, mem)
    case Aborted(mem) => m == Dead(mem)
    case Fault => m == Faulted
    case Timeout => m.Running? && n >= fuel
  }

  /** The same for a call made by frame `t`, which sits on `below`. */
  ghost predicate CallMatches(r: Result, m: Machine, n: nat, fuel: nat, below: seq<Frame>, t: Frame, x: nat,
                              chain: Option<nat>) {
    match r
    case Returned(v, mem) =>
      m.Running? && m.stack == below + [t.(env := Bind(t.env, x, v))] && m.chain == chain && m.mem == mem
    case Raised(e, mem) => AtRaise(m, below + [t], chain, e, mem)
    case Aborted(mem) => m == Dead(mem)
    case Fault => m == Faulted
    case Timeout => m.Running? && n > fuel
  }

  /** A plain instruction, in one step. */
  lemma StepPlain(q: CProgram, i: Instr, below: seq<Frame>, t: Frame, chain: Option<nat>, mem: Mem, next: nat)
    requires !i.Call? && t.rest != [] && t.rest[0] == LowerInstr(i)
    ensures var u := t.(rest := t.rest[1..]);
            Steps(q, Running(below + [t], chain, mem, next), 1) ==
            (match i
             case Assign(x, e) => Running(below + [u.(env := Bind(t.env, x, Eval(e, t.env, mem)))], chain, mem, next)
             case Store(a, e) => Running(below + [u], chain, mem[Eval(a, t.env, mem) := Eval(e, t.env, mem)], next))
  {
    StepsOne(q, below, t, chain, mem, next);
  }

  lemma NoSteps(q: CProgram, s: Machine)
    ensures Steps(q, s, 0) == s
  {
  }

  lemma {:induction false} SimCode(p: Program, fuel: nat, fn: Function, body: seq<Instr>, term: Terminator,
                                   below: seq<Frame>, t: Frame, chain: Option<nat>, mem: Mem, next: nat)
    returns (n: nat, m: Machine)
    requires t.code == LowerFunction(fn) && t.rest == LowerCode(body, term)
    ensures m == Steps(LowerProgram(p), Running(below + [t], chain, mem, next), n)
    ensures Matches(RunCode(p, fuel, fn, body, term, t.env, mem), m, n, fuel, below, t.dst, chain)
    decreases fuel, 0
  {
    if fuel == 0 {
      n, m := 0, Running(below + [t], chain, mem, next);
    } else if body == [] {
      n, m := SimTerm(p, fuel, fn, term, below, t, chain, mem, next);
    } else {
      assert t.rest[0] == LowerInstr(body[0]) && t.rest[1..] == LowerCode(body[1..], term);
      if body[0].Call? {
        n, m := SimCallInstr(p, fuel, fn, body, term, below, t, chain, mem, next);
      } else {
        n, m := SimPlainInstr(p, fuel, fn, body, term, below, t, chain, mem, next);
      }
    }
  }

  lemma PlainUnfolds(p: Program, fuel: nat, fn: Function, body: seq<Instr>, term: Terminator, env: Env, mem: Mem)
    requires fuel > 0 && body != [] && !body[0].Call?
    ensures RunCode(p, fuel, fn, body, term, env, mem) ==
            (match body[0]
             case Assign(x, e) => RunCode(p, fuel - 1, fn, body[1..], term, Bind(env, x, Eval(e, env, mem)), mem)
             case Store(a, e) => RunCode(p, fuel - 1, fn, body[1..], term, env,
                                         mem[Eval(a, env, mem) := Eval(e, env, mem)]))
  {
    hide RunTerm, RunCall;
  }

  lemma CallUnfoldsIn(p: Program, fuel: nat, fn: Function, body: seq<Instr>, term: Terminator, env: Env, mem: Mem)
    requires fuel > 0 && body != [] && body[0].Call?
    ensures var r := RunCall(p, fuel - 1, Eval(body[0].f, env, mem), EvalArgs(body[0].args, env, mem), mem);
            RunCode(p, fuel, fn, body, term, env, mem)
            == if r.Returned? then RunCode(p, fuel - 1, fn, body[1..], term, Bind(env, body[0].x, r.v), r.mem) else r
  {
    hide RunTerm, RunCall;
  }

  lemma {:induction false} SimPlainInstr(p: Program, fuel: nat, fn: Function, body: seq<Instr>, term: Terminator,
                                         below: seq<Frame>, t: Frame, chain: Option<nat>, mem: Mem, next: nat)
    returns (n: nat, m: Machine)
    requires fuel > 0 && body != [] && !body[0].Call? && t.code == LowerFunction(fn)
    requires t.rest == [LowerInstr(body[0])] + LowerCode(body[1..], term)
    ensures m == Steps(LowerProgram(p), Running(below + [t], chain, mem, next), n)
    ensures Matches(RunCode(p, fuel, fn, body, term, t.env, mem), m, n, fuel, below, t.dst, chain)
    decreases fuel - 1, 4
  {
    hide Steps, LowerProgram, LowerFunction, LowerCode, RunCode, Matches;
    var q := LowerProgram(p);
    var s := Running(below + [t], chain, mem, next);
    PlainUnfolds(p, fuel, fn, body, term, t.env, mem);
    StepPlain(q, body[0], below, t, chain, mem, next);
    m := Steps(q, s, 1);
    n, m := SimCode(p, fuel - 1, fn, body[1..], term, below, m.stack[|below|], chain, m.mem, next);
    StepsAdd(q, s, 1, n);
    MatchesLater(RunCode(p, fuel, fn, body, term, t.env, mem), m, n, fuel - 1, below, t.dst, chain);
    n := n + 1;
  }

  /** One step and one unit of fuel more. */
  lemma MatchesLater(r: Result, m: Machine, n: nat, fuel: nat, below: seq<Frame>, dst: nat, chain: Option<nat>)
    requires Matches(r, m, n, fuel, below, dst, chain)
    ensures Matches(r, m, n + 1, fuel + 1, below, dst, chain)
  {
  }

  lemma {:induction false} SimCallInstr(p: Program, fuel: nat, fn: Function, body: seq<Instr>, term: Terminator,
                                        below: seq<Frame>, t: Frame, chain: Option<nat>, mem: Mem, next: nat)
    returns (n: nat, m: Machine)
    requires fuel > 0 && body != [] && body[0].Call? && t.code == LowerFunction(fn)
    requires t.rest == [LowerInstr(body[0])] + LowerCode(body[1..], term)
    ensures m == Steps(LowerProgram(p), Running(below + [t], chain, mem, next), n)
    ensures Matches(RunCode(p, fuel, fn, body, term, t.env, mem), m, n, fuel, below, t.dst, chain)
    decreases fuel - 1, 4
  {
    hide Steps, LowerProgram, RunCall, LowerFunction, LowerCode, RunCode;
    var q := LowerProgram(p);
    CallUnfoldsIn(p, fuel, fn, body, term, t.env, mem);
    n, m := SimCall(p, fuel - 1, below, t, chain, mem, next);
    var r := RunCall(p, fuel - 1, Eval(body[0].f, t.env, mem), EvalArgs(body[0].args, t.env, mem), mem);
    if r.Returned? {
      var n1 := n;
      n, m := SimCode(p, fuel - 1, fn, body[1..], term, below, m.stack[|below|], chain, r.mem, m.next);
      StepsAdd(q, Running(below + [t], chain, mem, next), n1, n);
      n := n1 + n;
    } else if r.Raised? {
      RaiseFromCallee(m, below, t.(rest := t.rest[1..]), chain, r.exn, r.mem);
    }
  }

  /** A terminator other than Invoke, in at most one step. */
  lemma SimDecide(q: CProgram, term: Terminator, below: seq<Frame>, t: Frame, chain: Option<nat>, mem: Mem, next: nat)
    requires !term.Invoke? && t.rest == LowerTerm(term)
    ensures var s := Running(below + [t], chain, mem, next);
            match Decide(term, t.env, mem)
            case Goto(l) => Steps(q, s, 1) == Jump(below, t.(rest := []), l, chain, mem, next)
            case Leave(r) => Matches(r, Steps(q, s, if r.Aborted? then 1 else 0), 0, 0, below, t.dst, chain)
  {
    StepsOne(q, below, t, chain, mem, next);
    assert t.rest[1..] == [];
  }

  lemma {:induction false} SimTerm(p: Program, fuel: nat, fn: Function, term: Terminator,
                below: seq<Frame>, t: Frame, chain: Option<nat>, mem: Mem, next: nat)
    returns (n: nat, m: Machine)
    requires fuel > 0 && t.code == LowerFunction(fn) && t.rest == LowerTerm(term)
    ensures m == Steps(LowerProgram(p), Running(below + [t], chain, mem, next), n)
    ensures Matches(RunTerm(p, fuel, fn, term, t.env, mem), m, n, fuel, below, t.dst, chain)
    decreases fuel - 1, 4
  {
    var q := LowerProgram(p);
    var s := Running(below + [t], chain, mem, next);
    hide Steps;
    if !term.Invoke? {
      SimDecide(q, term, below, t, chain, mem, next);
      match Decide(term, t.env, mem)
      case Goto(l) =>
        n, m := SimBlock(p, fuel - 1, fn, l, below, t.(rest := []), chain, mem, next);
        StepsAdd(q, s, 1, n - 1);
      case Leave(r) =>
        n := if r.Aborted? then 1 else 0;
        m := Steps(q, s, n);
    } else {
      n, m := SimGuard(p, fuel - 1, term.x, term.f, term.args, [CGoto(term.catch)], [CGoto(term.normal)], below, t,
                       chain, mem, next);
      var r := RunCall(p, fuel - 1, Eval(term.f, t.env, mem), EvalArgs(term.args, t.env, mem), mem);
      if r.Returned? || r.Raised? {
        var n1, u, l := n, m.stack[|below|], if r.Returned? then term.normal else term.catch;
        assert Steps(q, s, n1) == Running(below + [u], chain, r.mem, m.next);
        n, m := SimGoto(p, fuel - 1, fn, l, below, u, chain, r.mem, m.next);
        StepsAdd(q, s, n1, n);
        n := n1 + n;
      }
    }
  }

  /** Any frame whose next statement is a goto. */
  lemma {:induction false} SimGoto(p: Program, fuel: nat, fn: Function, l: nat,
                below: seq<Frame>, t: Frame, chain: Option<nat>, mem: Mem, next: nat)
    returns (n: nat, m: Machine)
    requires t.code == LowerFunction(fn) && t.rest == [CGoto(l)]
    ensures m == Steps(LowerProgram(p), Running(below + [t], chain, mem, next), n)
    ensures Matches(RunBlock(p, fuel, fn, l, t.env, mem), m, n, fuel + 1, below, t.dst, chain)
    decreases fuel, 2
  {
    StepsOne(LowerProgram(p), below, t, chain, mem, next);
    n, m := SimBlock(p, fuel, fn, l, below, t.(rest := t.rest[1..]), chain, mem, next);
    StepsAdd(LowerProgram(p), Running(below + [t], chain, mem, next), 1, n - 1);
  }

  /** From the state a goto leads to; the goto itself is counted in `n`. */
  lemma {:induction false} SimBlock(p: Program, fuel: nat, fn: Function, l: nat,
                 below: seq<Frame>, t: Frame, chain: Option<nat>, mem: Mem, next: nat)
    returns (n: nat, m: Machine)
    requires t.code == LowerFunction(fn)
    ensures n > 0 && m == Steps(LowerProgram(p), Jump(below, t, l, chain, mem, next), n - 1)
    ensures Matches(RunBlock(p, fuel, fn, l, t.env, mem), m, n, fuel + 1, below, t.dst, chain)
    decreases fuel, 1
  {
    if l in fn {
      n, m := SimCode(p, fuel, fn, fn[l].body, fn[l].term, below, t.(rest := t.code[l]), chain, mem, next);
      n := n + 1;
    } else {
      n, m := 1, Faulted;
    }
  }

  /** Where a guarded call leaves frame `t`: past the pop when the callee returns,
      in the handler when an exception lands, and the chain where it was. */
  ghost predicate GuardMatches(r: Result, m: Machine, n: nat, fuel: nat, x: nat, handler: seq<CStmt>, after: seq<CStmt>,
                               below: seq<Frame>, t: Frame, chain: Option<nat>) {
    if r.Returned? || r.Raised? then
      && m.Running? && |m.stack| == |below| + 1 && m.stack == below + [m.stack[|below|]]
      && m.chain == chain && m.mem == r.mem
      && m.stack[|below|].(ctx := t.ctx) ==
         (if r.Returned? then t.(rest := after, env := Bind(t.env, x, r.v))
          else t.(rest := handler, env := t.env.(exn := r.exn)))
    else Matches(r, m, n, fuel + 1, below, t.dst, chain)
  }

  lemma {:induction false} SimGuard(p: Program, fuel: nat, x: nat, f: Expr, args: seq<Expr>,
                                    handler: seq<CStmt>, after: seq<CStmt>,
                                    below: seq<Frame>, t: Frame, chain: Option<nat>, mem: Mem, next: nat)
    returns (n: nat, m: Machine)
    requires t.rest == Guard(handler, CCall(x, f, args)) + after
    ensures m == Steps(LowerProgram(p), Running(below + [t], chain, mem, next), n)
    ensures GuardMatches(RunCall(p, fuel, Eval(f, t.env, mem), EvalArgs(args, t.env, mem), mem),
                         m, n, fuel, x, handler, after, below, t, chain)
    decreases fuel, 3
  {
    var q := LowerProgram(p);
    hide Steps, LowerProgram, RunCall;
    var s := Running(below + [t], chain, mem, next);
    var armed := Arm(q, CCall(x, f, args), handler, after, below, t, chain, mem, next);
    n, m := SimCall(p, fuel, below, armed, Some(|below|), mem, next);
    StepsAdd(q, s, 4, n);
    n := 4 + n;
    var r := RunCall(p, fuel, Eval(f, t.env, mem), EvalArgs(args, t.env, mem), mem);
    var waiting := armed.(rest := armed.rest[1..]);
    assert waiting.rest == [ChainPop] + after;
    if r.Returned? {
      Pop(q, after, below, m.stack[|below|], Some(|below|), r.mem, m.next);
      StepsAdd(q, s, n, 1);
      n, m := n + 1, Steps(q, m, 1);
    } else if r.Raised? {
      StepsAdd(q, s, n, 3);
      n := n + 3;
      m := Land(q, handler, below, waiting, m, chain, r.exn, r.mem);
    }
  }

  lemma Pop(q: CProgram, after: seq<CStmt>, below: seq<Frame>, t: Frame, chain: Option<nat>, mem: Mem, next: nat)
    requires t.rest == [ChainPop] + after
    ensures Steps(q, Running(below + [t], chain, mem, next), 1)
            == Running(below + [t.(rest := after)], t.ctx.prev, mem, next)
  {
    StepsOne(q, below, t, chain, mem, next);
    assert t.rest[1..] == after;
  }

  /** One statement of the sequences around a guarded call. */
  lemma StepSetup(q: CProgram, below: seq<Frame>, t: Frame, chain: Option<nat>, mem: Mem, next: nat)
    requires t.rest != []
    ensures var u := t.(rest := t.rest[1..]);
            var s := Steps(q, Running(below + [t], chain, mem, next), 1);
            && (t.rest[0].CtxSavePrev? ==> s == Running(below + [u.(ctx := u.ctx.(prev := chain))], chain, mem, next))
            && (t.rest[0].CtxClearExn? ==> s == Running(below + [u.(ctx := u.ctx.(exn := 0))], chain, mem, next))
            && (t.rest[0].ChainPush? ==> s == Running(below + [u], Some(|below|), mem, next))
            && (t.rest[0].Setjmp? ==>
                  s == Running(below + [u.(ctx := u.ctx.(buf := Some(JmpBuf(|below|, u.id, t.rest[0].handler))))],
                               chain, mem, next))
            && (t.rest[0].LoadExn? ==> s == Running(below + [u.(env := u.env.(exn := u.ctx.exn))], chain, mem, next))
            && (t.rest[0].ChainPop? ==> s == Running(below + [u], u.ctx.prev, mem, next))
  {
    hide Steps;
    StepsOne(q, below, t, chain, mem, next);
  }

  lemma {:induction false} Arm(q: CProgram, call: CStmt, handler: seq<CStmt>, after: seq<CStmt>,
                               below: seq<Frame>, t: Frame, chain: Option<nat>, mem: Mem, next: nat)
    returns (t4: Frame)
    requires t.rest == Guard(handler, call) + after
    ensures t4 == t.(rest := [call, ChainPop] + after,
                     ctx := Ctx(chain, 0, Some(JmpBuf(|below|, t.id, [LoadExn, ChainPop] + handler))))
    ensures Steps(q, Running(below + [t], chain, mem, next), 4) == Running(below + [t4], Some(|below|), mem, next)
  {
    hide Steps, StepTop;
    var s := Running(below + [t], chain, mem, next);
    var t1 := t.(rest := t.rest[1..], ctx := t.ctx.(prev := chain));
    var t2 := t1.(rest := t1.rest[1..], ctx := t1.ctx.(exn := 0));
    var t3 := t2.(rest := t2.rest[1..]);
    t4 := t3.(rest := t3.rest[1..], ctx := t3.ctx.(buf := Some(JmpBuf(|below|, t.id, [LoadExn, ChainPop] + handler))));
    StepSetup(q, below, t, chain, mem, next);
    StepSetup(q, below, t1, chain, mem, next);
    StepSetup(q, below, t2, chain, mem, next);
    StepSetup(q, below, t3, Some(|below|), mem, next);
    StepsAdd(q, s, 1, 1);
    StepsAdd(q, s, 2, 1);
    StepsAdd(q, s, 3, 1);
    assert t4.rest == [call, ChainPop] + after;
  }

  /** A raise with this frame's context on top of the chain lands in its handler. */
  lemma {:induction false} Land(q: CProgram, handler: seq<CStmt>, below: seq<Frame>, t: Frame, m: Machine,
             chain: Option<nat>, exn: int, mem: Mem)
    returns (m3: Machine)
    requires t.ctx == Ctx(chain, 0, Some(JmpBuf(|below|, t.id, [LoadExn, ChainPop] + handler)))
    requires AtRaise(m, below + [t], Some(|below|), exn, mem)
    ensures m3 == Running(below + [t.(rest := handler, env := t.env.(exn := exn), ctx := t.ctx.(exn := exn))], chain,
                          mem, m.next)
    ensures m3 == Steps(q, m, 3)
  {
    hide Steps, StepTop;
    var b := |below|;
    var h := [LoadExn, ChainPop] + handler;
    var t1 := t.(ctx := t.ctx.(exn := exn), rest := h);
    var t2 := t1.(rest := h[1..], env := t.env.(exn := exn));
    var m1 := Running(below + [t1], Some(b), mem, m.next);
    m3 := Running(below + [t2.(rest := handler)], chain, mem, m.next);
    LandJump(q, h, below, t, m, chain, exn, mem);
    StepSetup(q, below, t1, Some(b), mem, m.next);
    StepSetup(q, below, t2, Some(b), mem, m.next);
    StepsAdd(q, m, 1, 1);
    StepsAdd(q, m, 2, 1);
    assert t2.rest[1..] == handler;
  }

  /** The longjmp itself. */
  lemma LandJump(q: CProgram, h: seq<CStmt>, below: seq<Frame>, t: Frame, m: Machine, chain: Option<nat>, exn: int,
                 mem: Mem)
    requires t.ctx == Ctx(chain, 0, Some(JmpBuf(|below|, t.id, h)))
    requires AtRaise(m, below + [t], Some(|below|), exn, mem)
    ensures Steps(q, m, 1) == Running(below + [t.(ctx := t.ctx.(exn := exn), rest := h)], Some(|below|), mem, m.next)
  {
    hide Steps;
    var d, b := |m.stack| - 1, |below|;
    assert m.stack[b] == (below + [t])[b] == t;
    assert m.stack == m.stack[..d] + [m.stack[d]];
    StepsOne(q, m.stack[..d], m.stack[d], m.chain, m.mem, m.next);
    var top := m.stack[d];
    var stack := m.stack[..d] + [top.(rest := top.rest[1..])];
    assert stack[b] == t && stack[..b] == below;
    assert stack[b := t.(ctx := t.ctx.(exn := exn))][..b] == below;
  }

  /** Entering a callee, in one step. */
  lemma StepCall(q: CProgram, below: seq<Frame>, t: Frame, chain: Option<nat>, mem: Mem, next: nat)
    requires t.rest != [] && t.rest[0].CCall?
    ensures var call := t.rest[0];
            var args := EvalArgs(call.args, t.env, mem);
            Steps(q, Running(below + [t], chain, mem, next), 1) ==
            (match Enter(q, Eval(call.f, t.env, mem), args)
             case None => Faulted
             case Some(c) =>
               Running(below + [t.(rest := t.rest[1..])] + [Frame(next, c.0, c.1, Params(args), FRESH_CTX, call.x)],
                       chain, mem, next + 1))
  {
    StepsOne(q, below, t, chain, mem, next);
  }

  /** Returning to the caller, in one step. */
  lemma StepReturn(q: CProgram, below: seq<Frame>, caller: Frame, m: Machine, x: nat, chain: Option<nat>, v: int,
                   mem: Mem)
    requires AtReturn(m, below + [caller], x, chain, v, mem)
    ensures Steps(q, m, 1) == Running(below + [caller.(env := Bind(caller.env, x, v))], chain, mem, m.next)
  {
    var top := m.stack[|below| + 1];
    assert m.stack == (below + [caller]) + [top];
    StepsOne(q, below + [caller], top, chain, mem, m.next);
    assert (below + [caller])[..|below|] == below;
  }

  /** Entering a callee, in both semantics. */
  lemma CallUnfolds(p: Program, fuel: nat, f: int, args: seq<int>, mem: Mem)
    ensures var entry, r := Enter(LowerProgram(p), f, args), RunCall(p, fuel, f, args, mem);
            if entry.None? then r == Fault
            else if f == RAISE then |args| == 1 && entry == Some((map[], RAISE_EXCEPTION)) && r == Raised(args[0], mem)
            else if f == TRY then |args| == 3 && entry == Some((map[], RUST_TRY))
            else
              && f in p && 0 in p[f] && entry == Some((LowerFunction(p[f]), LowerCode(p[f][0].body, p[f][0].term)))
              && r == RunCode(p, fuel, p[f], p[f][0].body, p[f][0].term, Params(args), mem)
  {
    hide RunCode, LowerCode;
  }

  lemma {:induction false} SimCall(p: Program, fuel: nat, below: seq<Frame>, t: Frame, chain: Option<nat>, mem: Mem,
                                   next: nat)
    returns (n: nat, m: Machine)
    requires t.rest != [] && t.rest[0].CCall?
    ensures n > 0 && m == Steps(LowerProgram(p), Running(below + [t], chain, mem, next), n)
    ensures var call := t.rest[0];
            CallMatches(RunCall(p, fuel, Eval(call.f, t.env, mem), EvalArgs(call.args, t.env, mem), mem),
                        m, n, fuel, below, t.(rest := t.rest[1..]), call.x, chain)
    decreases fuel, 2
  {
    hide Steps, LowerProgram, Enter, RunCall, RunBlock, RunCode, LowerCode, LowerFunction;
    var q := LowerProgram(p);
    var s := Running(below + [t], chain, mem, next);
    var call := t.rest[0];
    var f, args := Eval(call.f, t.env, mem), EvalArgs(call.args, t.env, mem);
    var caller := t.(rest := t.rest[1..]);
    var entry := Enter(q, f, args);
    var r := RunCall(p, fuel, f, args, mem);
    CallUnfolds(p, fuel, f, args, mem);
    StepCall(q, below, t, chain, mem, next);
    n, m := 1, Steps(q, s, 1);
    if entry.None? {
    } else if f == RAISE {
      assert m.stack[..|below| + 1] == below + [caller];
    } else {
      var callee := m.stack[|below| + 1];
      assert m.stack == below + [caller] + [callee];
      if f == TRY {
        n, m := SimTry(p, fuel, below + [caller], callee, args, chain, mem, next + 1);
      } else {
        n, m := SimCode(p, fuel, p[f], p[f][0].body, p[f][0].term, below + [caller], callee, chain, mem, next + 1);
      }
      StepsAdd(q, s, 1, n);
      n := n + 1;
      if r.Returned? {
        StepReturn(q, below, caller, m, call.x, chain, r.v, r.mem);
        StepsAdd(q, s, n, 1);
        n, m := n + 1, Steps(q, m, 1);
      }
    }
  }

  /** The catch path of `__rust_try`, after its context has been popped. */
  lemma {:induction false} SimCatch(p: Program, fuel: nat, below: seq<Frame>, t: Frame, chain: Option<nat>, mem: Mem,
                                    next: nat)
    returns (n: nat, m: Machine)
    requires t.rest == [CCall(3, Var(2), [Var(1), ExnPtr]), CReturn(Const(1))]
    ensures m == Steps(LowerProgram(p), Running(below + [t], chain, mem, next), n)
    ensures var h := RunCall(p, fuel, Read(t.env.locals, 2), [Read(t.env.locals, 1), t.env.exn], mem);
            Matches(if h.Returned? then Returned(1, h.mem) else h, m, n, fuel + 1, below, t.dst, chain)
    decreases fuel, 3
  {
    hide Steps, LowerProgram, RunCall;
    n, m := SimCall(p, fuel, below, t, chain, mem, next);
    assert EvalArgs([Var(1), ExnPtr], t.env, mem) == [Read(t.env.locals, 1), t.env.exn];
    var h := RunCall(p, fuel, Read(t.env.locals, 2), [Read(t.env.locals, 1), t.env.exn], mem);
    if h.Raised? {
      RaiseFromCallee(m, below, t.(rest := t.rest[1..]), chain, h.exn, h.mem);
    }
  }

  lemma {:induction false} SimTry(p: Program, fuel: nat, below: seq<Frame>, t: Frame, args: seq<int>,
                                  chain: Option<nat>, mem: Mem, next: nat)
    returns (n: nat, m: Machine)
    requires |args| == 3 && t.rest == RUST_TRY && t.env == Params(args)
    ensures m == Steps(LowerProgram(p), Running(below + [t], chain, mem, next), n)
    ensures Matches(RunCall(p, fuel, TRY, args, mem), m, n, fuel, below, t.dst, chain)
    decreases fuel, 1
  {
    hide Steps, LowerProgram;
    if fuel == 0 {
      n, m := 0, Running(below + [t], chain, mem, next);
      NoSteps(LowerProgram(p), m);
      return;
    }
    var handler := [CCall(3, Var(2), [Var(1), ExnPtr]), CReturn(Const(1))];
    n, m := SimGuard(p, fuel - 1, 3, Var(0), [Var(1)], handler, [CReturn(Const(0))], below, t, chain, mem, next);
    assert EvalArgs([Var(1)], t.env, mem) == [args[1]];
    var r := RunCall(p, fuel - 1, args[0], [args[1]], mem);
    if r.Raised? {
      var n1 := n;
      n, m := SimCatch(p, fuel - 1, below, m.stack[|below|], chain, r.mem, m.next);
      StepsAdd(LowerProgram(p), Running(below + [t], chain, mem, next), n1, n);
      n := n1 + n;
    }
  }

  // ----- whole programs -----

  /** How a finished interpretation shows on the machine: an exception nobody
      handles ends in abort(). */
  function Verdict(r: Result): Machine
    requires !r.Timeout?
  {
    match r
    case Returned(v, mem) => Done(v, mem)
    case Raised(_, mem) => Dead(mem)
    case Aborted(mem) => Dead(mem)
    case Fault => Faulted
  }

  lemma {:induction false} Halted(q: CProgram, s: Machine, n: nat)
    requires !s.Running?
    ensures Steps(q, s, n) == s
  {
    if n != 0 { Halted(q, s, n - 1); }
  }

  /** The last step of the outermost activation. */
  lemma Finish(q: CProgram, m: Machine, r: Result)
    requires r.Returned? ==> AtReturn(m, [], 0, None, r.v, r.mem)
    requires r.Raised? ==> AtRaise(m, [], None, r.exn, r.mem)
    requires r.Returned? || r.Raised?
    ensures Steps(q, m, 1) == Verdict(r)
  {
    var d := |m.stack| - 1;
    assert m.stack == m.stack[..d] + [m.stack[d]];
    StepsOne(q, m.stack[..d], m.stack[d], m.chain, m.mem, m.next);
  }

  /** One interpretation decides one machine run. */
  lemma SimProgram(p: Program, fuel: nat, f: int, args: seq<int>, mem: Mem) returns (n: nat)
    ensures var m := Steps(LowerProgram(p), Boot(LowerProgram(p), f, args, mem), n);
            var r := RunCall(p, fuel, f, args, mem);
            if r.Timeout? then m.Running? && n >= fuel else m == Verdict(r)
  {
    hide Steps, LowerProgram, Enter, RunCall, RunCode, LowerCode, LowerFunction;
    var q := LowerProgram(p);
    var s := Boot(q, f, args, mem);
    NoSteps(q, s);
    CallUnfolds(p, fuel, f, args, mem);
    var r := RunCall(p, fuel, f, args, mem);
    var entry := Enter(q, f, args);
    n := 0;
    if entry.Some? {
      var t := Frame(0, entry.value.0, entry.value.1, Params(args), FRESH_CTX, 0);
      assert s == Running([] + [t], None, mem, 1);
      var m := s;
      if f == TRY {
        n, m := SimTry(p, fuel, [], t, args, None, mem, 1);
      } else if f != RAISE {
        n, m := SimCode(p, fuel, p[f], p[f][0].body, p[f][0].term, [], t, None, mem, 1);
      }
      if r.Returned? || r.Raised? {
        Finish(q, m, r);
        StepsAdd(q, s, n, 1);
        n := n + 1;
      }
    }
  }

  /** The emitted program, started on `f`, comes to rest in `o`. */
  ghost predicate MachineEnds(p: Program, f: int, args: seq<int>, mem: Mem, o: Machine) {
    !o.Running? && exists n: nat :: Steps(LowerProgram(p), Boot(LowerProgram(p), f, args, mem), n) == o
  }

  /** Structured exceptions give `f` an answer that reads `o` on the machine. */
  ghost predicate InterpreterEnds(p: Program, f: int, args: seq<int>, mem: Mem, o: Machine) {
    exists fuel: nat :: !RunCall(p, fuel, f, args, mem).Timeout? && Verdict(RunCall(p, fuel, f, args, mem)) == o
  }

  /** Main result: the emitted C and the structured meaning agree on every
      program, on termination as well as on the outcome. */
  lemma LoweringPreservesMeaning(p: Program, f: int, args: seq<int>, mem: Mem, o: Machine)
    ensures MachineEnds(p, f, args, mem, o) <==> InterpreterEnds(p, f, args, mem, o)
  {
    var q := LowerProgram(p);
    var s := Boot(q, f, args, mem);
    hide Steps, RunCall, LowerProgram, Boot;
    if InterpreterEnds(p, f, args, mem, o) {
      var fuel: nat :| !RunCall(p, fuel, f, args, mem).Timeout? && Verdict(RunCall(p, fuel, f, args, mem)) == o;
      var n := SimProgram(p, fuel, f, args, mem);
      assert Steps(q, s, n) == o;
    }
    if MachineEnds(p, f, args, mem, o) {
      var n: nat :| Steps(q, s, n) == o;
      var k := SimProgram(p, n + 1, f, args, mem);
      if k >= n {
        StepsAdd(q, s, n, k - n);
        Halted(q, o, k - n);
      } else {
        StepsAdd(q, s, k, n - k);
        Halted(q, Steps(q, s, k), n - k);
      }
    }
  }
}

/** The thread-local chain in every reachable state of every emitted program. */
module UnwindChain {
  import opened Wrappers
  import opened UnwindSource
  import opened UnwindMachine
  import opened UnwindSimulation

  // ----- the shape of emitted code -----

  /** Not inside the push-call-pop sequence of a guarded call. */
  predicate AtRest(code: seq<CStmt>) {
    && code != []
    && !code[0].CtxClearExn? && !code[0].ChainPush? && !code[0].Setjmp? && !code[0].LoadExn? && !code[0].ChainPop?
    && (code[0].CCall? ==> |code| > 1 && !code[1].ChainPop?)
  }

  /** This position is after the push and before the pop: the context is active. */
  predicate OnChain(code: seq<CStmt>) {
    && code != []
    && (code[0].Setjmp? || code[0].LoadExn? || code[0].ChainPop? || (code[0].CCall? && |code| > 1 && code[1].ChainPop?))
  }

  /** The context's `prev` has been saved and not yet restored. */
  predicate PrevSaved(code: seq<CStmt>) {
    OnChain(code) || (code != [] && (code[0].CtxClearExn? || code[0].ChainPush?))
  }

  ghost predicate Shape(code: seq<CStmt>) {
    && code != []
    && match code[0]
       case CAssign(_, _) => AtRest(code[1..]) && Shape(code[1..])
       case CStore(_, _) => AtRest(code[1..]) && Shape(code[1..])
       case CCall(_, _, _) => |code| > 1 && (AtRest(code[1..]) || code[1].ChainPop?) && Shape(code[1..])
       case CtxSavePrev => |code| > 1 && code[1].CtxClearExn? && Shape(code[1..])
       case CtxClearExn => |code| > 1 && code[1].ChainPush? && Shape(code[1..])
       case ChainPush => |code| > 1 && code[1].Setjmp? && Shape(code[1..])
       case Setjmp(h) => |code| > 2 && code[1].CCall? && code[2].ChainPop? && h != [] && h[0].LoadExn? && Shape(h)
         && Shape(code[1..])
       case LoadExn => |code| > 1 && code[1].ChainPop? && Shape(code[1..])
       case ChainPop => AtRest(code[1..]) && Shape(code[1..])
       case CGoto(_) => true
       case CCondGoto(_, _, _) => true
       case CReturn(_) => true
       case CRaise(_) => true
       case CAbort => true
  }

  ghost predicate HandlerShape(h: seq<CStmt>) {
    h != [] && h[0].LoadExn? && Shape(h)
  }

  lemma GuardShape(handler: seq<CStmt>, call: CStmt, after: seq<CStmt>)
    requires call.CCall? && AtRest(handler) && Shape(handler) && AtRest(after) && Shape(after)
    ensures AtRest(Guard(handler, call) + after) && Shape(Guard(handler, call) + after)
  {
    hide Shape;
    var h := [LoadExn] + ([ChainPop] + handler);
    var c3 := [Setjmp(h)] + ([call] + ([ChainPop] + after));
    PopShape(handler);
    PrefixShape(LoadExn, [ChainPop] + handler);
    GuardedCallShape(h, call, after);
    PrefixShape(ChainPush, c3);
    PrefixShape(CtxClearExn, [ChainPush] + c3);
    PrefixShape(CtxSavePrev, [CtxClearExn] + ([ChainPush] + c3));
    GuardNested(handler, call, after);
    FrontAtRest([CtxClearExn] + ([ChainPush] + c3));
  }

  lemma FrontAtRest(code: seq<CStmt>)
    ensures AtRest([CtxSavePrev] + code)
  {
  }

  lemma GuardNested(handler: seq<CStmt>, call: CStmt, after: seq<CStmt>)
    ensures var h := [LoadExn] + ([ChainPop] + handler);
            var c3 := [Setjmp(h)] + ([call] + ([ChainPop] + after));
            Guard(handler, call) + after == [CtxSavePrev] + ([CtxClearExn] + ([ChainPush] + c3))
  {
    var h := [LoadExn] + ([ChainPop] + handler);
    assert [LoadExn, ChainPop] + handler == h;
    assert [Setjmp(h), call, ChainPop] + after == [Setjmp(h)] + ([call] + ([ChainPop] + after));
    assert Guard(handler, call) == [CtxSavePrev, CtxClearExn, ChainPush] + [Setjmp(h), call, ChainPop];
  }

  lemma PopShape(after: seq<CStmt>)
    requires AtRest(after) && Shape(after)
    ensures Shape([ChainPop] + after)
  {
    assert ([ChainPop] + after)[1..] == after;
  }

  lemma PrefixShape(c: CStmt, code: seq<CStmt>)
    requires code != [] && Shape(code)
    requires (c.CtxSavePrev? && code[0].CtxClearExn?) || (c.CtxClearExn? && code[0].ChainPush?)
          || (c.ChainPush? && code[0].Setjmp?) || (c.LoadExn? && code[0].ChainPop?)
    ensures Shape([c] + code)
  {
    assert ([c] + code)[1..] == code;
  }

  lemma GuardedCallShape(h: seq<CStmt>, call: CStmt, after: seq<CStmt>)
    requires call.CCall? && HandlerShape(h) && AtRest(after) && Shape(after)
    ensures Shape([Setjmp(h)] + ([call] + ([ChainPop] + after)))
  {
    PopShape(after);
    var c5 := [ChainPop] + after;
    var c4 := [call] + c5;
    assert c4[1..] == c5 && Shape(c4);
    assert ([Setjmp(h)] + c4)[1..] == c4;
  }

  lemma TermShape(term: Terminator)
    ensures AtRest(LowerTerm(term)) && Shape(LowerTerm(term))
  {
    if term.Invoke? {
      GuardShape([CGoto(term.catch)], CCall(term.x, term.f, term.args), [CGoto(term.normal)]);
    }
  }

  lemma {:induction false} CodeShape(body: seq<Instr>, term: Terminator)
    ensures AtRest(LowerCode(body, term)) && Shape(LowerCode(body, term))
  {
    if body == [] {
      TermShape(term);
    } else {
      CodeShape(body[1..], term);
      assert LowerCode(body, term)[1..] == LowerCode(body[1..], term);
    }
  }

  ghost predicate FunctionShape(fn: CFunction) {
    forall l | l in fn :: AtRest(fn[l]) && Shape(fn[l])
  }

  ghost predicate ProgramShape(q: CProgram) {
    forall f | f in q :: FunctionShape(q[f])
  }

  lemma LoweredShape(p: Program)
    ensures ProgramShape(LowerProgram(p))
  {
    forall f, l | f in p && l in p[f]
      ensures AtRest(LowerFunction(p[f])[l]) && Shape(LowerFunction(p[f])[l])
    {
      CodeShape(p[f][l].body, p[f][l].term);
    }
  }

  lemma EnterShape(q: CProgram, f: int, args: seq<int>)
    requires ProgramShape(q) && Enter(q, f, args).Some?
    ensures var e := Enter(q, f, args).value; FunctionShape(e.0) && AtRest(e.1) && Shape(e.1)
  {
    var handler := [CCall(3, Var(2), [Var(1), ExnPtr]), CReturn(Const(1))];
    assert handler[1..] == [CReturn(Const(1))];
    GuardShape(handler, CCall(3, Var(0), [Var(1)]), [CReturn(Const(0))]);
  }

  // ----- the invariant -----

  /** Address of the innermost active context. */
  function Active(stack: seq<Frame>): (a: Option<nat>)
    ensures a.Some? ==> a.value < |stack|
  {
    if stack == [] then None
    else
      var k := |stack| - 1;
      if OnChain(stack[k].rest) then Some(k) else Active(stack[..k])
  }

  /** Addresses of all active contexts, innermost first. */
  function ActiveList(stack: seq<Frame>): seq<nat> {
    if stack == [] then []
    else
      var k := |stack| - 1;
      (if OnChain(stack[k].rest) then [k] else []) + ActiveList(stack[..k])
  }

  /** The saved jmp_buf belongs to this very activation. */
  ghost predicate Landing(below: seq<Frame>, t: Frame) {
    && t.ctx.buf.Some?
    && var b := t.ctx.buf.value; b.depth == |below| && b.id == t.id && HandlerShape(b.handler)
  }

  ghost predicate FrameOk(below: seq<Frame>, t: Frame) {
    && Shape(t.rest) && FunctionShape(t.code)
    && (PrevSaved(t.rest) ==> t.ctx.prev == Active(below))
    && (OnChain(t.rest) && !t.rest[0].Setjmp? ==> Landing(below, t))
    && (forall j | 0 <= j < |below| :: below[j].id < t.id)
  }

  /** Frames waiting for a callee: between call and pop, or in unguarded code. */
  ghost predicate StackOk(stack: seq<Frame>) {
    stack == [] ||
    var k := |stack| - 1;
    && StackOk(stack[..k]) && FrameOk(stack[..k], stack[k])
    && (AtRest(stack[k].rest) || stack[k].rest[0].ChainPop?)
  }

  ghost predicate TopOk(below: seq<Frame>, t: Frame, chain: Option<nat>, next: nat) {
    && StackOk(below) && FrameOk(below, t) && t.id < next
    && chain == Active(below + [t])
  }

  ghost predicate Inv(s: Machine) {
    match s
    case Running(stack, chain, _, next) => stack != [] && TopOk(stack[..|stack| - 1], stack[|stack| - 1], chain, next)
    case BadJump => false
    case _ => true
  }

  lemma Extend(below: seq<Frame>, t: Frame)
    ensures (below + [t])[..|below|] == below
    ensures Active(below + [t]) == if OnChain(t.rest) then Some(|below|) else Active(below)
  {
    assert (below + [t])[..|below|] == below;
  }

  lemma InvRunning(below: seq<Frame>, t: Frame, chain: Option<nat>, mem: Mem, next: nat)
    ensures Inv(Running(below + [t], chain, mem, next)) <==> TopOk(below, t, chain, next)
  {
    Extend(below, t);
  }

  /** The innermost active context sits in a waiting frame, with its jmp_buf set
      by that frame. */
  lemma {:induction false} ActiveWaits(stack: seq<Frame>)
    requires StackOk(stack) && Active(stack).Some?
    ensures var c := Active(stack).value;
            && stack[c].rest != [] && stack[c].rest[0].ChainPop?
            && StackOk(stack[..c]) && FrameOk(stack[..c], stack[c])
            && (forall i | c < i < |stack| :: !OnChain(stack[i].rest))
  {
    var k := |stack| - 1;
    if !OnChain(stack[k].rest) {
      ActiveWaits(stack[..k]);
      var c := Active(stack).value;
      assert stack[..k][..c] == stack[..c];
    }
  }

  predicate Protocol(c: CStmt) {
    c.CtxSavePrev? || c.CtxClearExn? || c.ChainPush? || c.Setjmp? || c.LoadExn? || c.ChainPop?
  }

  lemma InvProtocol(q: CProgram, below: seq<Frame>, t: Frame, chain: Option<nat>, mem: Mem, next: nat)
    requires TopOk(below, t, chain, next) && Protocol(t.rest[0])
    ensures Inv(StepTop(q, below, t, chain, mem, next))
  {
    hide StackOk, FunctionShape, Active;
    if t.rest[0].ChainPush? || t.rest[0].ChainPop? {
      InvLink(q, below, t, chain, mem, next);
    } else {
      InvContext(q, below, t, chain, mem, next);
    }
  }

  /** Pushing and popping the chain. */
  lemma InvLink(q: CProgram, below: seq<Frame>, t: Frame, chain: Option<nat>, mem: Mem, next: nat)
    requires TopOk(below, t, chain, next) && (t.rest[0].ChainPush? || t.rest[0].ChainPop?)
    ensures Inv(StepTop(q, below, t, chain, mem, next))
  {
    hide StackOk, FunctionShape;
    Extend(below, t);
    var s := StepTop(q, below, t, chain, mem, next);
    var u := s.stack[|below|];
    assert s.stack == below + [u];
    Extend(below, u);
    InvRunning(below, u, s.chain, s.mem, s.next);
  }

  /** Reading and writing the context itself. */
  lemma InvContext(q: CProgram, below: seq<Frame>, t: Frame, chain: Option<nat>, mem: Mem, next: nat)
    requires TopOk(below, t, chain, next)
    requires t.rest[0].CtxSavePrev? || t.rest[0].CtxClearExn? || t.rest[0].Setjmp? || t.rest[0].LoadExn?
    ensures Inv(StepTop(q, below, t, chain, mem, next))
  {
    hide StackOk, FunctionShape, Active, StepTop;
    if t.rest[0].CtxSavePrev? || t.rest[0].CtxClearExn? {
      InvPrepare(q, below, t, chain, mem, next);
    } else {
      InvBuffer(q, below, t, chain, mem, next);
    }
  }

  lemma InvPrepare(q: CProgram, below: seq<Frame>, t: Frame, chain: Option<nat>, mem: Mem, next: nat)
    requires TopOk(below, t, chain, next) && (t.rest[0].CtxSavePrev? || t.rest[0].CtxClearExn?)
    ensures Inv(StepTop(q, below, t, chain, mem, next))
  {
    hide StackOk, FunctionShape;
    Extend(below, t);
    var s := StepTop(q, below, t, chain, mem, next);
    var u := s.stack[|below|];
    assert s.stack == below + [u];
    Extend(below, u);
    InvRunning(below, u, s.chain, s.mem, s.next);
  }

  lemma InvBuffer(q: CProgram, below: seq<Frame>, t: Frame, chain: Option<nat>, mem: Mem, next: nat)
    requires TopOk(below, t, chain, next) && (t.rest[0].Setjmp? || t.rest[0].LoadExn?)
    ensures Inv(StepTop(q, below, t, chain, mem, next))
  {
    hide StackOk, FunctionShape;
    Extend(below, t);
    var s := StepTop(q, below, t, chain, mem, next);
    var u := s.stack[|below|];
    assert s.stack == below + [u];
    Extend(below, u);
    InvRunning(below, u, s.chain, s.mem, s.next);
  }

  lemma InvPlain(q: CProgram, below: seq<Frame>, t: Frame, chain: Option<nat>, mem: Mem, next: nat)
    requires TopOk(below, t, chain, next) && !Protocol(t.rest[0])
    requires !t.rest[0].CCall? && !t.rest[0].CReturn? && !t.rest[0].CRaise?
    ensures Inv(StepTop(q, below, t, chain, mem, next))
  {
    hide StackOk, FunctionShape, Active;
    if t.rest[0].CAssign? || t.rest[0].CStore? {
      InvData(q, below, t, chain, mem, next);
    } else if t.rest[0].CGoto? || t.rest[0].CCondGoto? {
      InvJump(q, below, t, chain, mem, next);
    }
  }

  lemma InvData(q: CProgram, below: seq<Frame>, t: Frame, chain: Option<nat>, mem: Mem, next: nat)
    requires TopOk(below, t, chain, next) && (t.rest[0].CAssign? || t.rest[0].CStore?)
    ensures Inv(StepTop(q, below, t, chain, mem, next))
  {
    hide StackOk, FunctionShape;
    Extend(below, t);
    var s := StepTop(q, below, t, chain, mem, next);
    var u := s.stack[|below|];
    assert s.stack == below + [u];
    Extend(below, u);
    InvRunning(below, u, s.chain, s.mem, s.next);
  }

  lemma InvJump(q: CProgram, below: seq<Frame>, t: Frame, chain: Option<nat>, mem: Mem, next: nat)
    requires TopOk(below, t, chain, next) && (t.rest[0].CGoto? || t.rest[0].CCondGoto?)
    ensures Inv(StepTop(q, below, t, chain, mem, next))
  {
    hide StackOk;
    Extend(below, t);
    var s := StepTop(q, below, t, chain, mem, next);
    if s.Running? {
      var u := s.stack[|below|];
      assert s.stack == below + [u];
      Extend(below, u);
      InvRunning(below, u, s.chain, s.mem, s.next);
    }
  }

  lemma InvCall(q: CProgram, below: seq<Frame>, t: Frame, chain: Option<nat>, mem: Mem, next: nat)
    requires ProgramShape(q) && TopOk(below, t, chain, next) && t.rest[0].CCall?
    ensures Inv(StepTop(q, below, t, chain, mem, next))
  {
    hide FunctionShape, ProgramShape, Enter, StackOk, Active, StepTop;
    CallerWaits(below, t, chain, next);
    var call := t.rest[0];
    var args := EvalArgs(call.args, t.env, mem);
    var entry := Enter(q, Eval(call.f, t.env, mem), args);
    CallStep(q, below, t, chain, mem, next);
    if entry.Some? {
      EnterShape(q, Eval(call.f, t.env, mem), args);
      var u := t.(rest := t.rest[1..]);
      var callee := Frame(next, entry.value.0, entry.value.1, Params(args), FRESH_CTX, call.x);
      Extend(below + [u], callee);
      InvRunning(below + [u], callee, chain, mem, next + 1);
    }
  }

  lemma CallStep(q: CProgram, below: seq<Frame>, t: Frame, chain: Option<nat>, mem: Mem, next: nat)
    requires t.rest != [] && t.rest[0].CCall?
    ensures var args := EvalArgs(t.rest[0].args, t.env, mem);
            StepTop(q, below, t, chain, mem, next) ==
            (match Enter(q, Eval(t.rest[0].f, t.env, mem), args)
             case None => Faulted
             case Some(c) =>
               Running((below + [t.(rest := t.rest[1..])])
                       + [Frame(next, c.0, c.1, Params(args), FRESH_CTX, t.rest[0].x)], chain, mem, next + 1))
  {
    hide Enter;
  }

  /** A frame that calls becomes a waiting frame; the chain still heads the active
      contexts. */
  lemma CallerWaits(below: seq<Frame>, t: Frame, chain: Option<nat>, next: nat)
    requires TopOk(below, t, chain, next) && t.rest[0].CCall?
    ensures var u := t.(rest := t.rest[1..]);
            && StackOk(below + [u]) && chain == Active(below + [u])
            && (forall j | 0 <= j < |below + [u]| :: (below + [u])[j].id < next)
  {
    hide FunctionShape;
    var u := t.(rest := t.rest[1..]);
    Extend(below, t);
    Extend(below, u);
  }

  lemma InvReturn(q: CProgram, below: seq<Frame>, t: Frame, chain: Option<nat>, mem: Mem, next: nat)
    requires TopOk(below, t, chain, next) && t.rest[0].CReturn?
    ensures Inv(StepTop(q, below, t, chain, mem, next))
  {
    hide FunctionShape;
    Extend(below, t);
    if below != [] {
      var k := |below| - 1;
      var caller := below[k].(env := Bind(below[k].env, t.dst, Eval(t.rest[0].e, t.env, mem)));
      assert FrameOk(below[..k], caller);
      Extend(below[..k], caller);
      InvRunning(below[..k], caller, chain, mem, next);
    }
  }

  /** Where a raise goes: abort with no active context, and otherwise the handler
      of the innermost one, in a function that has not returned. */
  lemma RaiseLands(q: CProgram, below: seq<Frame>, t: Frame, chain: Option<nat>, mem: Mem, next: nat)
    requires TopOk(below, t, chain, next) && t.rest[0].CRaise?
    ensures var s := StepTop(q, below, t, chain, mem, next);
            var e := Eval(t.rest[0].exn, t.env, mem);
            match Active(below)
            case None => s == Dead(mem)
            case Some(c) =>
              Landing(below[..c], below[c]) &&
              s == Running(below[..c]
                           + [below[c].(rest := below[c].ctx.buf.value.handler, ctx := below[c].ctx.(exn := e))],
                           chain, mem, next)
  {
    Extend(below, t);
    if chain.Some? {
      ActiveWaits(below);
      var c := chain.value;
      var u := t.(rest := t.rest[1..]);
      assert (below + [u])[..c] == below[..c];
    }
  }

  lemma InvRaise(q: CProgram, below: seq<Frame>, t: Frame, chain: Option<nat>, mem: Mem, next: nat)
    requires TopOk(below, t, chain, next) && t.rest[0].CRaise?
    ensures Inv(StepTop(q, below, t, chain, mem, next))
  {
    hide StepTop, FunctionShape;
    RaiseLands(q, below, t, chain, mem, next);
    Extend(below, t);
    if chain.Some? {
      ActiveWaits(below);
      var c := chain.value;
      var s := StepTop(q, below, t, chain, mem, next);
      var u := s.stack[c];
      Extend(below[..c], u);
      InvRunning(below[..c], u, chain, mem, next);
    }
  }

  lemma InvStep(q: CProgram, s: Machine)
    requires ProgramShape(q) && Inv(s)
    ensures Inv(Step(q, s))
  {
    hide StepTop, StackOk, FunctionShape, ProgramShape, Active;
    if s.Running? {
      var k := |s.stack| - 1;
      var below, t := s.stack[..k], s.stack[k];
      if Protocol(t.rest[0]) {
        InvProtocol(q, below, t, s.chain, s.mem, s.next);
      } else if t.rest[0].CCall? {
        InvCall(q, below, t, s.chain, s.mem, s.next);
      } else if t.rest[0].CReturn? {
        InvReturn(q, below, t, s.chain, s.mem, s.next);
      } else if t.rest[0].CRaise? {
        InvRaise(q, below, t, s.chain, s.mem, s.next);
      } else {
        InvPlain(q, below, t, s.chain, s.mem, s.next);
      }
    }
  }

  lemma {:induction false} InvSteps(q: CProgram, s: Machine, n: nat)
    requires ProgramShape(q) && Inv(s)
    ensures Inv(Steps(q, s, n))
    decreases n
  {
    hide Step, Inv, ProgramShape;
    if n != 0 {
      InvStep(q, s);
      InvSteps(q, Step(q, s), n - 1);
    }
  }

  lemma InvReachable(p: Program, f: int, args: seq<int>, mem: Mem, n: nat)
    ensures Inv(Steps(LowerProgram(p), Boot(LowerProgram(p), f, args, mem), n))
  {
    var q := LowerProgram(p);
    LoweredShape(p);
    if Enter(q, f, args).Some? {
      EnterShape(q, f, args);
      var e := Enter(q, f, args).value;
      var t := Frame(0, e.0, e.1, Params(args), FRESH_CTX, 0);
      assert [t] == [] + [t];
      Extend([], t);
      InvRunning([], t, None, mem, 1);
    }
    InvSteps(q, Boot(q, f, args, mem), n);
  }

  // ----- what the invariant says -----

  /** The chain as a debugger would walk it: follow `prev` from the head; a link
      that does not lead outwards ends the walk. */
  function Walk(stack: seq<Frame>, chain: Option<nat>): seq<nat>
    decreases if chain.Some? then chain.value + 1 else 0
  {
    if chain.None? || chain.value >= |stack| then []
    else
      var prev := stack[chain.value].ctx.prev;
      [chain.value] + if prev.Some? && prev.value >= chain.value then [] else Walk(stack, prev)
  }

  lemma {:induction false} WalkIsActive(stack: seq<Frame>, k: nat)
    requires k <= |stack|
    requires forall i | 0 <= i < k && OnChain(stack[i].rest) :: stack[i].ctx.prev == Active(stack[..i])
    ensures Walk(stack, Active(stack[..k])) == ActiveList(stack[..k])
  {
    if k != 0 {
      assert stack[..k][..k - 1] == stack[..k - 1];
      WalkIsActive(stack, k - 1);
    }
  }

  lemma {:induction false} ActiveListExact(stack: seq<Frame>)
    ensures forall i: nat :: i in ActiveList(stack) <==> i < |stack| && OnChain(stack[i].rest)
    ensures forall a, b | 0 <= a < b < |ActiveList(stack)| :: ActiveList(stack)[a] > ActiveList(stack)[b]
  {
    if stack != [] {
      var k := |stack| - 1;
      ActiveListExact(stack[..k]);
      var rest := ActiveList(stack[..k]);
      assert forall a | 0 <= a < |rest| :: rest[a] in rest;
    }
  }

  lemma {:induction false} StackPrev(stack: seq<Frame>)
    requires StackOk(stack)
    ensures forall i | 0 <= i < |stack| && OnChain(stack[i].rest) :: stack[i].ctx.prev == Active(stack[..i])
  {
    if stack != [] {
      var k := |stack| - 1;
      StackPrev(stack[..k]);
      forall i | 0 <= i < |stack| && OnChain(stack[i].rest)
        ensures stack[i].ctx.prev == Active(stack[..i])
      {
        if i < k { assert stack[..k][..i] == stack[..i]; }
      }
    }
  }

  /** In every reachable state the chain is exactly the active contexts, innermost
      first, none twice, each in a live frame; and no longjmp is ever undefined. */
  lemma ChainListsActiveContexts(p: Program, f: int, args: seq<int>, mem: Mem, n: nat)
    ensures var s := Steps(LowerProgram(p), Boot(LowerProgram(p), f, args, mem), n);
            && s != BadJump
            && (s.Running? ==>
                  var list := Walk(s.stack, s.chain);
                  && (forall i: nat :: i in list <==> i < |s.stack| && OnChain(s.stack[i].rest))
                  && (forall a, b | 0 <= a < b < |list| :: list[a] > list[b]))
  {
    InvReachable(p, f, args, mem, n);
    var s := Steps(LowerProgram(p), Boot(LowerProgram(p), f, args, mem), n);
    if s.Running? {
      var k := |s.stack| - 1;
      StackPrev(s.stack[..k]);
      forall i | 0 <= i < |s.stack| && OnChain(s.stack[i].rest)
        ensures s.stack[i].ctx.prev == Active(s.stack[..i])
      {
        if i < k { assert s.stack[..k][..i] == s.stack[..i]; }
      }
      assert s.stack[..|s.stack|] == s.stack == s.stack[..k] + [s.stack[k]];
      WalkIsActive(s.stack, |s.stack|);
      ActiveListExact(s.stack);
    }
  }

  /** The longjmp of every reachable raise lands in the innermost active frame,
      with the raised pointer in its context; with no active frame it aborts. */
  lemma LongjmpTargetsInnermostActive(p: Program, f: int, args: seq<int>, mem: Mem, n: nat)
    ensures var q := LowerProgram(p);
            var s := Steps(q, Boot(q, f, args, mem), n);
            s.Running? && s.stack != [] && s.stack[|s.stack| - 1].rest != []
              && s.stack[|s.stack| - 1].rest[0].CRaise? ==>
              var t := s.stack[|s.stack| - 1];
              var e := Eval(t.rest[0].exn, t.env, s.mem);
              var list := ActiveList(s.stack);
              if list == [] then Step(q, s) == Dead(s.mem)
              else
                && list[0] < |s.stack|
                && var c := s.stack[list[0]];
                   && c.ctx.buf.Some? && c.ctx.buf.value.id == c.id
                   && Step(q, s) == Running(s.stack[..list[0]]
                                            + [c.(rest := c.ctx.buf.value.handler, ctx := c.ctx.(exn := e))],
                                            s.chain, s.mem, s.next)
  {
    InvReachable(p, f, args, mem, n);
    var q := LowerProgram(p);
    var s := Steps(q, Boot(q, f, args, mem), n);
    if s.Running? && s.stack[|s.stack| - 1].rest != [] && s.stack[|s.stack| - 1].rest[0].CRaise? {
      var k := |s.stack| - 1;
      var below := s.stack[..k];
      RaiseLands(q, below, s.stack[k], s.chain, s.mem, s.next);
      HeadIsActive(below);
      if Active(below).Some? { assert below[..Active(below).value] == s.stack[..Active(below).value]; }
    }
  }

  lemma {:induction false} HeadIsActive(stack: seq<Frame>)
    ensures Active(stack) == if ActiveList(stack) == [] then None else Some(ActiveList(stack)[0])
  {
    if stack != [] { HeadIsActive(stack[..|stack| - 1]); }
  }
}
