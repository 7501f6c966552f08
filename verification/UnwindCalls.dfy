/** How arguments, results and stores cross activations of the emitted C, stated on
    the machine alone: what a callee, a handler and the code after a call find. */
module UnwindCalls {
  import opened Wrappers
  import opened UnwindSource
  import opened UnwindMachine
  import opened UnwindSimulation

  /** A function whose first block is this. */
  predicate StartsWith(p: Program, f: int, body: seq<Instr>, term: Terminator) {
    f != RAISE && f != TRY && f in p && 0 in p[f] && p[f][0] == Block(body, term)
  }

  lemma BootedAt(p: Program, f: int, body: seq<Instr>, term: Terminator, args: seq<int>, mem: Mem)
    requires StartsWith(p, f, body, term)
    ensures Boot(LowerProgram(p), f, args, mem)
            == Running([Frame(0, LowerFunction(p[f]), LowerCode(body, term), Params(args), FRESH_CTX, 0)], None, mem, 1)
  {
  }

  /** A function that returns its parameter i ends with argument i. */
  lemma ArgumentArrives(p: Program, f: int, args: seq<int>, i: nat, mem: Mem)
    requires StartsWith(p, f, [], Ret(Var(i))) && i < |args|
    ensures Steps(LowerProgram(p), Boot(LowerProgram(p), f, args, mem), 1) == Done(args[i], mem)
    ensures MachineEnds(p, f, args, mem, Done(args[i], mem))
  {
    var q := LowerProgram(p);
    BootedAt(p, f, [], Ret(Var(i)), args, mem);
    var t := Frame(0, LowerFunction(p[f]), [CReturn(Var(i))], Params(args), FRESH_CTX, 0);
    StepsOne(q, [], t, None, mem, 1);
    assert [] + [t] == [t];
  }

  /** A callee starts with exactly its arguments, in order, as its locals. */
  lemma CalleeStarts(p: Program, below: seq<Frame>, t: Frame, g: int, chain: Option<nat>, mem: Mem, next: nat)
    requires t.rest != [] && t.rest[0].CCall? && Eval(t.rest[0].f, t.env, mem) == g
    requires g != RAISE && g != TRY && g in p && 0 in p[g]
    ensures var m := Steps(LowerProgram(p), Running(below + [t], chain, mem, next), 1);
            && m.Running? && m.stack == below + [t.(rest := t.rest[1..])] + [m.stack[|below| + 1]]
            && m.chain == chain && m.mem == mem
            && var top, args := m.stack[|below| + 1], t.rest[0].args;
               && top.rest == LowerCode(p[g][0].body, p[g][0].term) && top.dst == t.rest[0].x
               && (forall k: nat :: k in top.env.locals <==> k < |args|)
               && forall k: nat | k < |args| :: top.env.locals[k] == Eval(args[k], t.env, mem)
  {
    hide LowerCode;
    StepCall(LowerProgram(p), below, t, chain, mem, next);
  }

  /** One machine step, with the frames below written out. */
  lemma Top(q: CProgram, below: seq<Frame>, t: Frame, chain: Option<nat>, mem: Mem, next: nat, s: Machine, n: nat)
    requires Steps(q, s, n) == Running(below + [t], chain, mem, next)
    ensures Steps(q, s, n + 1) == StepTop(q, below, t, chain, mem, next)
  {
    hide Steps;
    StepsOne(q, below, t, chain, mem, next);
    StepsAdd(q, s, n, 1);
  }

  /** After a raise of e under `__rust_try(f, data, catch)` the handler's local 0 is
      `data` and its local 1 is e: a handler that stores local i leaves that value,
      and the whole returns 1. */
  lemma HandlerSees(p: Program, fuel: nat, f: int, data: int, catch: int, i: nat, at: int, e: int, mem: Mem,
                    raised: Mem)
    returns (n: nat)
    requires RunCall(p, fuel, f, [data], mem) == Raised(e, raised)
    requires StartsWith(p, catch, [Store(Const(at), Var(i))], Ret(Const(0))) && i < 2
    ensures Steps(LowerProgram(p), Boot(LowerProgram(p), TRY, [f, data, catch], mem), n)
            == Done(1, raised[at := if i == 0 then data else e])
  {
    hide Steps, RunCall;
    var q := LowerProgram(p);
    var args := [f, data, catch];
    var t := Frame(0, map[], RUST_TRY, Params(args), FRESH_CTX, 0);
    var s := Running([] + [t], None, mem, 1);
    assert Boot(q, TRY, args, mem) == s;
    var handler := [CCall(3, Var(2), [Var(1), ExnPtr]), CReturn(Const(1))];
    assert EvalArgs([Var(1)], t.env, mem) == [data];
    var m;
    n, m := SimGuard(p, fuel, 3, Var(0), [Var(1)], handler, [CReturn(Const(0))], [], t, None, mem, 1);
    var u := m.stack[0];
    assert m == Running([] + [u], None, raised, m.next) && u.rest == handler;
    assert u.env.exn == e && u.env.locals == t.env.locals;
    n := HandlerRuns(p, s, n, u, catch, i, at, raised, m.next);
  }

  /** From the handler of `__rust_try` on: four more statements. */
  lemma HandlerRuns(p: Program, s: Machine, n0: nat, u: Frame, catch: int, i: nat, at: int, mem: Mem, next: nat)
    returns (n: nat)
    requires Steps(LowerProgram(p), s, n0) == Running([] + [u], None, mem, next)
    requires u.rest == [CCall(3, Var(2), [Var(1), ExnPtr]), CReturn(Const(1))]
    requires StartsWith(p, catch, [Store(Const(at), Var(i))], Ret(Const(0))) && i < 2
    requires 2 in u.env.locals && u.env.locals[2] == catch && 1 in u.env.locals
    ensures Steps(LowerProgram(p), s, n) == Done(1, mem[at := if i == 0 then u.env.locals[1] else u.env.exn])
  {
    hide Steps, LowerProgram;
    var q := LowerProgram(p);
    CalleeStarts(p, [], u, catch, None, mem, next);
    StepsAdd(q, s, n0, 1);
    var m := Steps(q, s, n0 + 1);
    var c, callee := u.(rest := u.rest[1..]), m.stack[1];
    assert callee.rest == [CStore(Const(at), Var(i)), CReturn(Const(0))];
    assert [] + [c] + [callee] == [c] + [callee];
    var mem' := mem[at := if i == 0 then u.env.locals[1] else u.env.exn];
    Top(q, [c], callee, None, mem, m.next, s, n0 + 1);
    var callee' := callee.(rest := callee.rest[1..]);
    assert Steps(q, s, n0 + 2) == Running([c] + [callee'], None, mem', m.next);
    Top(q, [c], callee', None, mem', m.next, s, n0 + 2);
    var c' := c.(env := Bind(c.env, 3, 0));
    assert [c][..0] + [c'] == [] + [c'];
    Top(q, [], c', None, mem', m.next, s, n0 + 3);
    n := n0 + 4;
  }

  /** A function that adds two parameters, stores the sum where a third one points
      and returns what it reads back there. */
  lemma SumIsStored(p: Program, f: int, args: seq<int>, i: nat, j: nat, k: nat, x: nat, mem: Mem)
    requires i < |args| && j < |args| && k < |args| && x >= |args|
    requires StartsWith(p, f, [Assign(x, Plus(Var(i), Var(j))), Store(Var(k), Var(x))], Ret(Load(Var(k))))
    ensures MachineEnds(p, f, args, mem, Done(args[i] + args[j], mem[args[k] := args[i] + args[j]]))
  {
    hide Steps, LowerFunction;
    var q := LowerProgram(p);
    var body, term := [Assign(x, Plus(Var(i), Var(j))), Store(Var(k), Var(x))], Ret(Load(Var(k)));
    BootedAt(p, f, body, term, args, mem);
    assert body[1..] == [body[1]] && body[1..][1..] == [];
    assert LowerCode(body[1..], term) == [CStore(Var(k), Var(x)), CReturn(Load(Var(k)))];
    var t := Frame(0, LowerFunction(p[f]), LowerCode(body, term), Params(args), FRESH_CTX, 0);
    var s := Running([t], None, mem, 1);
    assert [] + [t] == [t];
    StepsNone(q, s);
    Top(q, [], t, None, mem, 1, s, 0);
    var sum := args[i] + args[j];
    assert Eval(Var(i), t.env, mem) == args[i] && Eval(Var(j), t.env, mem) == args[j];
    assert Eval(Plus(Var(i), Var(j)), t.env, mem) == sum;
    var t1 := t.(rest := t.rest[1..], env := Bind(t.env, x, sum));
    assert Eval(Var(k), t1.env, mem) == args[k] && Eval(Var(x), t1.env, mem) == sum;
    Top(q, [], t1, None, mem, 1, s, 1);
    var t2 := t1.(rest := t1.rest[1..]);
    var mem' := mem[args[k] := sum];
    assert Eval(Var(k), t2.env, mem') == args[k];
    assert Eval(Load(Var(k)), t2.env, mem') == sum;
    Top(q, [], t2, None, mem', 1, s, 2);
  }

  lemma StepsNone(q: CProgram, s: Machine)
    ensures Steps(q, s, 0) == s
  {
  }

  /** A function that calls g on its first two parameters, exchanged, and returns the
      result, when g returns its parameter i. */
  lemma ResultReturns(p: Program, f: int, g: int, a: int, b: int, x: nat, i: nat, mem: Mem)
    requires StartsWith(p, f, [Call(x, Const(g), [Var(1), Var(0)])], Ret(Var(x)))
    requires StartsWith(p, g, [], Ret(Var(i))) && i < 2
    ensures MachineEnds(p, f, [a, b], mem, Done(if i == 0 then b else a, mem))
  {
    hide Steps, LowerFunction;
    var q := LowerProgram(p);
    var body, term := [Call(x, Const(g), [Var(1), Var(0)])], Ret(Var(x));
    BootedAt(p, f, body, term, [a, b], mem);
    assert body[1..] == [];
    var t := Frame(0, LowerFunction(p[f]), LowerCode(body, term), Params([a, b]), FRESH_CTX, 0);
    assert t.rest == [CCall(x, Const(g), [Var(1), Var(0)]), CReturn(Var(x))];
    var s := Running([t], None, mem, 1);
    assert [] + [t] == [t];
    StepsNone(q, s);
    CalleeStarts(p, [], t, g, None, mem, 1);
    var m := Steps(q, s, 1);
    var c, callee := t.(rest := t.rest[1..]), m.stack[1];
    assert [] + [c] + [callee] == [c] + [callee];
    Top(q, [c], callee, None, mem, m.next, s, 1);
    var c' := c.(env := Bind(c.env, x, if i == 0 then b else a));
    assert [c][..0] + [c'] == [] + [c'];
    Top(q, [], c', None, mem, m.next, s, 2);
  }
}
