/** The compare-and-swap loops the backend emits, as threads interleaving on one
    cell. Every step is one access to the cell. */
module CasLoops {
  import opened Wrappers

  /** One emitted operation. */
  datatype Op =
    | Rmw(f: int -> int)              // atomic_load, then a weak compare-exchange loop writing f(expected)
    | StoreLoop(v: int)               // plain read, then a __sync_bool_compare_and_swap loop
    | SwapLoop(v: int)                // the same loop, returning the value read
    | LoadByCas                       // __sync_val_compare_and_swap(p, 0, 0)
    | CompareExchange(c: int, n: int) // atomic_compare_exchange_strong
    | Fetch(f: int -> int)            // a single fetch-and-modify builtin

  datatype Pc = Start | Loop | Finished

  datatype Thread = Thread(op: Op, pc: Pc, expected: int, ret: Option<int>)

  /** The cell held `before` when thread `tid` took effect on it. */
  datatype Event = Event(tid: nat, before: int)

  datatype State = State(cell: int, threads: seq<Thread>, log: seq<Event>)

  /** A scheduler choice: which thread moves, what a plain read returns (stale or
      torn, so any value), and whether a weak compare-exchange fails spuriously. */
  datatype Action = Action(tid: nat, plain: int, spurious: bool)

  // ----- what each operation is meant to be: one atomic step -----

  function After(op: Op, cell: int): int {
    match op
    case Rmw(f) => f(cell)
    case StoreLoop(v) => v
    case SwapLoop(v) => v
    case LoadByCas => cell
    case CompareExchange(c, n) => if cell == c then n else cell
    case Fetch(f) => f(cell)
  }

  /** The value returned; a store returns none. */
  function Returned(op: Op, cell: int): Option<int> {
    if op.StoreLoop? then None else Some(cell)
  }

  // ----- the emitted code -----

  /** Thread t finishes, having found `seen` in the cell and written `written`. */
  function Finish(s: State, tid: nat, seen: int, written: int, ret: Option<int>): State
    requires tid < |s.threads|
  {
    State(written, s.threads[tid := s.threads[tid].(pc := Finished, ret := ret)], s.log + [Event(tid, seen)])
  }

  function Continue(s: State, tid: nat, pc: Pc, expected: int): State
    requires tid < |s.threads|
  {
    s.(threads := s.threads[tid := s.threads[tid].(pc := pc, expected := expected)])
  }

  function Step(s: State, a: Action): State {
    if a.tid >= |s.threads| || s.threads[a.tid].pc.Finished? then s
    else
      var t := s.threads[a.tid];
      match t.op
      case Rmw(f) =>
        if t.pc.Start? then Continue(s, a.tid, Loop, s.cell)
        else if s.cell == t.expected && !a.spurious then Finish(s, a.tid, s.cell, f(t.expected), Some(t.expected))
        else Continue(s, a.tid, Loop, s.cell)
      case StoreLoop(v) =>
        if t.pc.Start? then Continue(s, a.tid, Loop, a.plain)
        else if s.cell == t.expected then Finish(s, a.tid, s.cell, v, None)
        else Continue(s, a.tid, Start, t.expected)
      case SwapLoop(v) =>
        if t.pc.Start? then Continue(s, a.tid, Loop, a.plain)
        else if s.cell == t.expected then Finish(s, a.tid, s.cell, v, Some(t.expected))
        else Continue(s, a.tid, Start, t.expected)
      case LoadByCas => Finish(s, a.tid, s.cell, if s.cell == 0 then 0 else s.cell, Some(s.cell))
      case CompareExchange(c, n) =>
        if s.cell == c then Finish(s, a.tid, s.cell, n, Some(c)) else Finish(s, a.tid, s.cell, s.cell, Some(s.cell))
      case Fetch(f) => Finish(s, a.tid, s.cell, f(s.cell), Some(s.cell))
  }

  function Run(s: State, actions: seq<Action>): State
    decreases actions
  {
    if actions == [] then s else Run(Step(s, actions[0]), actions[1..])
  }

  function Launch(cell: int, ops: seq<Op>): State {
    State(cell, seq(|ops|, i requires 0 <= i < |ops| => Thread(ops[i], Start, 0, None)), [])
  }

  // ----- the atomic reference: operations one after the other -----

  /** Running the operations of `order` one at a time, each atomically. */
  function Sequential(cell: int, ops: seq<Op>, order: seq<Event>): int
    requires forall e | e in order :: e.tid < |ops|
  {
    if order == [] then cell
    else
      var before := Sequential(cell, ops, order[..|order| - 1]);
      After(ops[order[|order| - 1].tid], before)
  }

  /** `before` is what the sequential run has in the cell at each event. */
  ghost predicate Linear(cell: int, ops: seq<Op>, order: seq<Event>) {
    && (forall e | e in order :: e.tid < |ops|)
    && (forall k | 0 <= k < |order| :: order[k].before == Sequential(cell, ops, order[..k]))
  }

  ghost predicate Once(order: seq<Event>) {
    forall j, k | 0 <= j < k < |order| :: order[j].tid != order[k].tid
  }

  ghost predicate Logged(log: seq<Event>, i: nat) {
    exists k :: 0 <= k < |log| && log[k].tid == i
  }

  /** The threads, seen beside the log. */
  ghost predicate ThreadsOk(threads: seq<Thread>, log: seq<Event>, ops: seq<Op>)
    requires forall e | e in log :: e.tid < |ops|
  {
    && |threads| == |ops|
    && (forall i | 0 <= i < |ops| :: threads[i].op == ops[i])
    && (forall i: nat | i < |ops| :: threads[i].pc.Finished? <==> Logged(log, i))
    && (forall k | 0 <= k < |log| :: threads[log[k].tid].ret == Returned(ops[log[k].tid], log[k].before))
  }

  ghost predicate Inv(s: State, cell: int, ops: seq<Op>) {
    && Linear(cell, ops, s.log) && Once(s.log) && s.cell == Sequential(cell, ops, s.log)
    && ThreadsOk(s.threads, s.log, ops)
  }

  lemma AppendLinear(cell: int, ops: seq<Op>, log: seq<Event>, tid: nat)
    requires Linear(cell, ops, log) && tid < |ops|
    ensures var log' := log + [Event(tid, Sequential(cell, ops, log))];
            Linear(cell, ops, log') && Sequential(cell, ops, log') == After(ops[tid], Sequential(cell, ops, log))
  {
    var log' := log + [Event(tid, Sequential(cell, ops, log))];
    assert log'[..|log|] == log;
    forall k | 0 <= k < |log'| ensures log'[k].before == Sequential(cell, ops, log'[..k]) {
      if k < |log| { assert log'[..k] == log[..k]; }
    }
  }

  lemma AppendThreads(threads: seq<Thread>, log: seq<Event>, ops: seq<Op>, tid: nat, t: Thread, seen: int)
    requires (forall e | e in log :: e.tid < |ops|) && ThreadsOk(threads, log, ops)
    requires tid < |ops| && !threads[tid].pc.Finished?
    requires t.op == ops[tid] && t.pc.Finished? && t.ret == Returned(ops[tid], seen)
    ensures ThreadsOk(threads[tid := t], log + [Event(tid, seen)], ops)
    ensures forall k | 0 <= k < |log| :: log[k].tid != tid
  {
    var log' := log + [Event(tid, seen)];
    forall i: nat | i < |ops| ensures Logged(log', i) <==> i == tid || Logged(log, i) {
      assert log'[|log|].tid == tid;
      if Logged(log, i) {
        var k :| 0 <= k < |log| && log[k].tid == i;
        assert log'[k].tid == i;
      }
    }
    assert forall k | 0 <= k < |log| :: Logged(log, log[k].tid);
  }

  lemma FinishInv(s: State, tid: nat, written: int, ret: Option<int>, cell: int, ops: seq<Op>)
    requires Inv(s, cell, ops) && tid < |ops| && !s.threads[tid].pc.Finished?
    requires written == After(ops[tid], s.cell) && ret == Returned(ops[tid], s.cell)
    ensures Inv(Finish(s, tid, s.cell, written, ret), cell, ops)
  {
    hide Sequential, ThreadsOk, Linear;
    assert |s.threads| == |ops| && s.threads[tid].op == ops[tid]
           && (forall e | e in s.log :: e.tid < |ops|) by { Sizes(s, cell, ops, tid); }
    AppendLinear(cell, ops, s.log, tid);
    AppendThreads(s.threads, s.log, ops, tid, s.threads[tid].(pc := Finished, ret := ret), s.cell);
  }

  lemma Sizes(s: State, cell: int, ops: seq<Op>, tid: nat)
    requires Inv(s, cell, ops) && tid < |ops|
    ensures |s.threads| == |ops| && s.threads[tid].op == ops[tid] && (forall e | e in s.log :: e.tid < |ops|)
  {
  }

  lemma ContinueInv(s: State, tid: nat, pc: Pc, expected: int, cell: int, ops: seq<Op>)
    requires Inv(s, cell, ops) && tid < |ops| && !s.threads[tid].pc.Finished? && !pc.Finished?
    ensures Inv(Continue(s, tid, pc, expected), cell, ops)
  {
    hide Sequential;
    assert forall k | 0 <= k < |s.log| :: Logged(s.log, s.log[k].tid);
  }

  /** Every step either only moves its own thread or performs the operation. */
  lemma StepForm(s: State, a: Action)
    requires a.tid < |s.threads| && !s.threads[a.tid].pc.Finished?
    ensures var op := s.threads[a.tid].op;
            || Step(s, a) == Finish(s, a.tid, s.cell, After(op, s.cell), Returned(op, s.cell))
            || (exists pc, e :: pc != Finished && Step(s, a) == Continue(s, a.tid, pc, e))
  {
    var t := s.threads[a.tid];
    if t.pc.Start? {
      assert t.op.Rmw? ==> Step(s, a) == Continue(s, a.tid, Loop, s.cell);
      assert t.op.StoreLoop? || t.op.SwapLoop? ==> Step(s, a) == Continue(s, a.tid, Loop, a.plain);
    } else {
      assert t.op.Rmw? && (s.cell != t.expected || a.spurious) ==> Step(s, a) == Continue(s, a.tid, Loop, s.cell);
      assert (t.op.StoreLoop? || t.op.SwapLoop?) && s.cell != t.expected
             ==> Step(s, a) == Continue(s, a.tid, Start, t.expected);
    }
  }

  lemma StepInv(s: State, a: Action, cell: int, ops: seq<Op>)
    requires Inv(s, cell, ops)
    ensures Inv(Step(s, a), cell, ops)
  {
    if a.tid < |ops| && !s.threads[a.tid].pc.Finished? {
      StepForm(s, a);
      var op := ops[a.tid];
      hide Step, Finish, Continue, Sequential, Linear, Logged, Once;
      if Step(s, a) == Finish(s, a.tid, s.cell, After(op, s.cell), Returned(op, s.cell)) {
        FinishInv(s, a.tid, After(op, s.cell), Returned(op, s.cell), cell, ops);
      } else {
        var pc, e :| pc != Finished && Step(s, a) == Continue(s, a.tid, pc, e);
        ContinueInv(s, a.tid, pc, e, cell, ops);
      }
    }
  }

  lemma {:induction false} RunInv(s: State, actions: seq<Action>, cell: int, ops: seq<Op>)
    requires Inv(s, cell, ops)
    ensures Inv(Run(s, actions), cell, ops)
    decreases actions
  {
    hide Inv, Step;
    if actions != [] {
      StepInv(s, actions[0], cell, ops);
      RunInv(Step(s, actions[0]), actions[1..], cell, ops);
    }
  }

  /** Main result: after any interleaving, the finished threads can be put in one
      order, each thread once, such that running the operations atomically in that
      order gives the cell and every returned value. */
  lemma CasLoopsAreAtomic(cell: int, ops: seq<Op>, actions: seq<Action>)
    ensures var s := Run(Launch(cell, ops), actions);
            && |s.threads| == |ops| && Linear(cell, ops, s.log) && Once(s.log)
            && s.cell == Sequential(cell, ops, s.log)
            && (forall i: nat | i < |ops| :: s.threads[i].pc.Finished? <==> Logged(s.log, i))
            && (forall k | 0 <= k < |s.log| ::
                  s.threads[s.log[k].tid].ret == Returned(ops[s.log[k].tid], Sequential(cell, ops, s.log[..k])))
  {
    LaunchInv(cell, ops);
    RunInv(Launch(cell, ops), actions, cell, ops);
  }

  lemma LaunchInv(cell: int, ops: seq<Op>)
    ensures Inv(Launch(cell, ops), cell, ops)
  {
  }

  lemma {:induction false} RunSplit(s: State, first: seq<Action>, rest: seq<Action>)
    ensures Run(s, first + rest) == Run(Run(s, first), rest)
    decreases first
  {
    if first == [] {
      assert first + rest == rest;
    } else {
      assert (first + rest)[1..] == first[1..] + rest;
      RunSplit(Step(s, first[0]), first[1..], rest);
    }
  }

  /** A step only appends to the order, and leaves the cell unless it appends. */
  lemma StepAppends(s: State, a: Action)
    ensures s.log <= Step(s, a).log && |Step(s, a).threads| == |s.threads|
    ensures Step(s, a).log == s.log ==> Step(s, a).cell == s.cell
  {
    assert s.log != s.log + [Event(a.tid, s.cell)];
  }

  lemma {:induction false} RunAppends(s: State, actions: seq<Action>)
    ensures s.log <= Run(s, actions).log
    ensures Run(s, actions).log == s.log ==> Run(s, actions).cell == s.cell
    decreases actions
  {
    hide Step;
    if actions != [] {
      StepAppends(s, actions[0]);
      RunAppends(Step(s, actions[0]), actions[1..]);
    }
  }

  /** The order respects real time: what finished in the first part of a run comes
      before everything that finishes later, and while no thread finishes the cell
      does not change, so each operation takes effect between its first and its last
      step. */
  lemma OrderRespectsTime(cell: int, ops: seq<Op>, first: seq<Action>, rest: seq<Action>)
    ensures var s, t := Run(Launch(cell, ops), first), Run(Launch(cell, ops), first + rest);
            && |s.threads| == |t.threads| == |ops| && s.log <= t.log
            && (forall i: nat | i < |ops| :: Logged(s.log, i) <==> s.threads[i].pc.Finished?)
            && (forall k | |s.log| <= k < |t.log| :: t.log[k].tid < |ops| && !s.threads[t.log[k].tid].pc.Finished?)
            && (t.log == s.log ==> t.cell == s.cell)
  {
    hide Run, Launch, Sequential;
    var s, t := Run(Launch(cell, ops), first), Run(Launch(cell, ops), first + rest);
    RunSplit(Launch(cell, ops), first, rest);
    RunAppends(s, rest);
    CasLoopsAreAtomic(cell, ops, first);
    CasLoopsAreAtomic(cell, ops, first + rest);
    forall k | |s.log| <= k < |t.log| ensures t.log[k].tid < |ops| && !s.threads[t.log[k].tid].pc.Finished? {
      assert t.log[k] in t.log;
      NotEarlier(s.log, t.log, k);
    }
  }

  lemma NotEarlier(before: seq<Event>, all: seq<Event>, k: nat)
    requires before <= all && Once(all) && |before| <= k < |all|
    ensures !Logged(before, all[k].tid)
  {
    forall j | 0 <= j < |before| ensures before[j].tid != all[k].tid {
      assert before[j] == all[j];
    }
  }

  /** Among any other threads, no step of a 128-bit load changes the cell, though it
      is a compare-and-swap. */
  lemma LoadStepKeepsCell(s: State, a: Action)
    requires a.tid < |s.threads| && s.threads[a.tid].op.LoadByCas?
    ensures Step(s, a).cell == s.cell
  {
  }

  /** The events of the other operations. */
  function Writers(ops: seq<Op>, order: seq<Event>): seq<Event>
    requires forall e | e in order :: e.tid < |ops|
  {
    if order == [] then []
    else
      var last := order[|order| - 1];
      Writers(ops, order[..|order| - 1]) + if ops[last.tid].LoadByCas? then [] else [last]
  }

  lemma {:induction false} WritersDecide(cell: int, ops: seq<Op>, order: seq<Event>)
    requires forall e | e in order :: e.tid < |ops|
    ensures (forall e | e in Writers(ops, order) :: e in order && !ops[e.tid].LoadByCas?)
    ensures Sequential(cell, ops, Writers(ops, order)) == Sequential(cell, ops, order)
    decreases order
  {
    hide After, Sequential;
    if order != [] {
      var before, last := order[..|order| - 1], order[|order| - 1];
      WritersDecide(cell, ops, before);
      assert order == before + [last];
      LastEvent(cell, ops, before, last);
      if ops[last.tid].LoadByCas? {
        LoadKeeps(ops[last.tid], Sequential(cell, ops, before));
        assert Writers(ops, order) == Writers(ops, before);
      } else {
        LastEvent(cell, ops, Writers(ops, before), last);
      }
    }
  }

  lemma LastEvent(cell: int, ops: seq<Op>, before: seq<Event>, last: Event)
    requires (forall e | e in before :: e.tid < |ops|) && last.tid < |ops|
    ensures (forall e | e in before + [last] :: e.tid < |ops|)
    ensures Sequential(cell, ops, before + [last]) == After(ops[last.tid], Sequential(cell, ops, before))
  {
    hide After;
    assert (before + [last])[..|before|] == before;
  }

  lemma LoadKeeps(op: Op, cell: int)
    requires op.LoadByCas?
    ensures After(op, cell) == cell
  {
  }

  /** In any run of any mix of operations the loads are invisible: no step of one
      changes the cell, and the final cell is that of the other operations alone. */
  lemma LoadsNeverWrite(cell: int, ops: seq<Op>, actions: seq<Action>)
    ensures var s := Run(Launch(cell, ops), actions);
            && (forall e | e in s.log :: e.tid < |ops|)
            && (forall e | e in Writers(ops, s.log) :: e.tid < |ops| && !ops[e.tid].LoadByCas?)
            && s.cell == Sequential(cell, ops, Writers(ops, s.log))
    ensures forall k | 0 <= k < |actions| && actions[k].tid < |ops| && ops[actions[k].tid].LoadByCas? ::
              Run(Launch(cell, ops), actions[..k + 1]).cell == Run(Launch(cell, ops), actions[..k]).cell
  {
    hide Run, Step, Launch, Sequential, Writers;
    CasLoopsAreAtomic(cell, ops, actions);
    WritersDecide(cell, ops, Run(Launch(cell, ops), actions).log);
    forall k | 0 <= k < |actions| && actions[k].tid < |ops| && ops[actions[k].tid].LoadByCas?
      ensures Run(Launch(cell, ops), actions[..k + 1]).cell == Run(Launch(cell, ops), actions[..k]).cell
    {
      assert actions[..k + 1] == actions[..k] + [actions[k]];
      RunSplit(Launch(cell, ops), actions[..k], [actions[k]]);
      RunOne(Run(Launch(cell, ops), actions[..k]), actions[k]);
      OpsKept(cell, ops, actions[..k]);
      LoadStepKeepsCell(Run(Launch(cell, ops), actions[..k]), actions[k]);
    }
  }

  lemma RunOne(s: State, a: Action)
    ensures Run(s, [a]) == Step(s, a)
  {
    hide Step;
    assert [a][1..] == [];
  }

  lemma OpsKept(cell: int, ops: seq<Op>, actions: seq<Action>)
    ensures var s := Run(Launch(cell, ops), actions);
            |s.threads| == |ops| && forall i | 0 <= i < |ops| :: s.threads[i].op == ops[i]
  {
    hide Run, Launch, Sequential;
    LaunchInv(cell, ops);
    RunInv(Launch(cell, ops), actions, cell, ops);
  }

  /** A thread left alone finishes in at most three of its own steps when its
      compare-exchange does not fail spuriously and its plain read is not stale. */
  lemma SoloProgress(s: State, tid: nat)
    requires tid < |s.threads|
    ensures var a := Action(tid, s.cell, false);
            Step(Step(Step(s, a), a), a).threads[tid].pc.Finished?
  {
    var a := Action(tid, s.cell, false);
    var s1 := Step(s, a);
    var s2 := Step(s1, a);
    var s3 := Step(s2, a);
    if !s1.threads[tid].pc.Finished? {
      assert s1.cell == s.cell && s1.threads[tid].op == s.threads[tid].op;
      if !s2.threads[tid].pc.Finished? {
        assert s2.cell == s.cell && s2.threads[tid].op == s.threads[tid].op;
        assert s3.threads[tid].pc.Finished?;
      }
    }
  }
}
