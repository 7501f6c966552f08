/** A function under construction: blocks that statements are appended to, and the
    builder's terminators, `invoke` above all. */
module FunctionBuilder {
  import opened Wrappers
  import opened UnwindSource
  import opened UnwindMachine

  datatype BlockData = BlockData(statements: seq<CStmt>, terminated: bool)

  /** Declarations `invoke` adds to the function. */
  datatype Decl = ExnPtrDecl | UnwindCtxDecl

  /** The blocks after appending statements to block bb; an unknown block is left. */
  function Extend(blocks: map<nat, BlockData>, bb: nat, ss: seq<CStmt>): map<nat, BlockData> {
    if bb in blocks then blocks[bb := BlockData(blocks[bb].statements + ss, blocks[bb].terminated)] else blocks
  }

  lemma ExtendMore(blocks: map<nat, BlockData>, bb: nat, ss: seq<CStmt>, ts: seq<CStmt>)
    ensures Extend(Extend(blocks, bb, ss), bb, ts) == Extend(blocks, bb, ss + ts)
  {
    if bb in blocks { assert blocks[bb].statements + ss + ts == blocks[bb].statements + (ss + ts); }
  }

  lemma ExtendNone(blocks: map<nat, BlockData>, bb: nat)
    ensures Extend(blocks, bb, []) == blocks
  {
    if bb in blocks { assert blocks[bb].statements + [] == blocks[bb].statements; }
  }

  function Close(blocks: map<nat, BlockData>, bb: nat): map<nat, BlockData> {
    if bb in blocks then blocks[bb := blocks[bb].(terminated := true)] else blocks
  }

  class FunctionDef {
    var blocks: map<nat, BlockData>
    var blockCounter: nat
    var localDecls: seq<Decl>
    var invokeCounter: nat

    ghost predicate Valid()
      reads this
    {
      && (forall k: nat :: k in blocks <==> k < blockCounter)
      && localDecls == (if invokeCounter == 0 then [] else [ExnPtrDecl, UnwindCtxDecl])
    }

    constructor ()
      ensures Valid() && blockCounter == 0 && invokeCounter == 0
    {
      blocks, blockCounter, localDecls, invokeCounter := map[], 0, [], 0;
    }

    /** Blocks are numbered in order of creation. */
    method NewBlock() returns (bb: nat)
      requires Valid()
      modifies this
      ensures Valid() && bb == old(blockCounter) && blockCounter == bb + 1
      ensures blocks == old(blocks)[bb := BlockData([], false)]
      ensures localDecls == old(localDecls) && invokeCounter == old(invokeCounter)
    {
      bb := blockCounter;
      blockCounter := blockCounter + 1;
      blocks := blocks[bb := BlockData([], false)];
    }

    /** Statements for an unknown block are dropped. */
    method Emit(bb: nat, stmt: CStmt)
      requires Valid()
      modifies this`blocks
      ensures Valid()
      ensures blocks == Extend(old(blocks), bb, [stmt])
    {
      if bb in blocks {
        blocks := blocks[bb := blocks[bb].(statements := blocks[bb].statements + [stmt])];
      }
    }

    method SetTerminated(bb: nat)
      requires Valid()
      modifies this`blocks
      ensures Valid()
      ensures blocks == Close(old(blocks), bb)
    {
      if bb in blocks {
        blocks := blocks[bb := blocks[bb].(terminated := true)];
      }
    }

    /** `invoke`: the shared context is declared by the first invoke of the function
        only, and the block receives the guarded call. */
    method Invoke(bb: nat, x: nat, f: Expr, args: seq<Expr>, normal: nat, catch: nat)
      requires Valid() && bb in blocks
      modifies this
      ensures Valid() && blockCounter == old(blockCounter) && invokeCounter == old(invokeCounter) + 1
      ensures blocks == Close(Extend(old(blocks), bb, LowerTerm(Terminator.Invoke(x, f, args, normal, catch))), bb)
    {
      hide Extend, Close, LowerTerm;
      if invokeCounter == 0 {
        localDecls := localDecls + [ExnPtrDecl];
        localDecls := localDecls + [UnwindCtxDecl];
      }
      invokeCounter := invokeCounter + 1;
      ghost var b := blocks;
      Emit(bb, CtxSavePrev);
      ghost var done := [CtxSavePrev];
      Emit(bb, CtxClearExn);
      ExtendMore(b, bb, done, [CtxClearExn]);
      done := done + [CtxClearExn];
      Emit(bb, ChainPush);
      ExtendMore(b, bb, done, [ChainPush]);
      done := done + [ChainPush];
      Emit(bb, Setjmp([LoadExn, ChainPop, CGoto(catch)]));
      ExtendMore(b, bb, done, [Setjmp([LoadExn, ChainPop, CGoto(catch)])]);
      done := done + [Setjmp([LoadExn, ChainPop, CGoto(catch)])];
      Emit(bb, CCall(x, f, args));
      ExtendMore(b, bb, done, [CCall(x, f, args)]);
      done := done + [CCall(x, f, args)];
      Emit(bb, ChainPop);
      ExtendMore(b, bb, done, [ChainPop]);
      done := done + [ChainPop];
      Emit(bb, CGoto(normal));
      ExtendMore(b, bb, done, [CGoto(normal)]);
      done := done + [CGoto(normal)];
      SetTerminated(bb);
      GuardedCall(x, f, args, normal, catch);
      assert done == [CtxSavePrev, CtxClearExn, ChainPush, Setjmp([LoadExn, ChainPop, CGoto(catch)]),
                      CCall(x, f, args), ChainPop, CGoto(normal)];
    }

    /** Any terminator: one statement, then the block is closed. */
    method Terminate(bb: nat, t: Terminator)
      requires Valid() && bb in blocks
      modifies this
      ensures Valid() && blockCounter == old(blockCounter)
      ensures invokeCounter == old(invokeCounter) + (if t.Invoke? then 1 else 0)
      ensures blocks == Close(Extend(old(blocks), bb, LowerTerm(t)), bb)
    {
      match t
      case Invoke(x, f, args, normal, catch) => Invoke(bb, x, f, args, normal, catch);
      case Ret(e) => Emit(bb, CReturn(e)); SetTerminated(bb);
      case Br(l) => Emit(bb, CGoto(l)); SetTerminated(bb);
      case CondBr(c, l, m) => Emit(bb, CCondGoto(c, l, m)); SetTerminated(bb);
      case Resume(e) => Emit(bb, CRaise(e)); SetTerminated(bb);
      case CleanupRet(unwind) =>
        if unwind.Some? { Emit(bb, CGoto(unwind.value)); } else { Emit(bb, CRaise(ExnPtr)); }
        SetTerminated(bb);
      case Unreachable => Emit(bb, CAbort); SetTerminated(bb);
    }

    /** The body of one block, in order. */
    method EmitBody(bb: nat, body: seq<Instr>)
      requires Valid() && bb in blocks
      modifies this`blocks
      ensures Valid()
      ensures blocks == Extend(old(blocks), bb, Lowered(body))
    {
      var i := 0;
      assert Lowered(body[..0]) == [];
      ExtendNone(blocks, bb);
      while i < |body|
        invariant 0 <= i <= |body| && Valid()
        invariant blocks == Extend(old(blocks), bb, Lowered(body[..i]))
      {
        Emit(bb, LowerInstr(body[i]));
        ExtendMore(old(blocks), bb, Lowered(body[..i]), [LowerInstr(body[i])]);
        LoweredAppend(body[..i], body[i]);
        assert body[..i] + [body[i]] == body[..i + 1];
        i := i + 1;
      }
      assert body[..|body|] == body;
    }
  }

  lemma GuardedCall(x: nat, f: Expr, args: seq<Expr>, normal: nat, catch: nat)
    ensures LowerTerm(Terminator.Invoke(x, f, args, normal, catch)) ==
            [CtxSavePrev, CtxClearExn, ChainPush, Setjmp([LoadExn, ChainPop, CGoto(catch)]),
             CCall(x, f, args), ChainPop, CGoto(normal)]
  {
    assert [LoadExn, ChainPop] + [CGoto(catch)] == [LoadExn, ChainPop, CGoto(catch)];
  }

  function Lowered(body: seq<Instr>): seq<CStmt> {
    if body == [] then [] else [LowerInstr(body[0])] + Lowered(body[1..])
  }

  lemma {:induction false} LoweredAppend(body: seq<Instr>, i: Instr)
    ensures Lowered(body + [i]) == Lowered(body) + [LowerInstr(i)]
    decreases body
  {
    if body != [] {
      assert (body + [i])[1..] == body[1..] + [i];
      LoweredAppend(body[1..], i);
    } else {
      assert ([i])[1..] == [];
    }
  }

  lemma {:induction false} LoweredCode(body: seq<Instr>, term: Terminator)
    ensures LowerCode(body, term) == Lowered(body) + LowerTerm(term)
  {
    if body != [] { LoweredCode(body[1..], term); }
  }

  /** A function given by its numbered blocks. */
  function AsFunction(bs: seq<Block>): Function {
    map l: nat | l < |bs| :: bs[l]
  }

  function Invokes(bs: seq<Block>): nat {
    if bs == [] then 0 else Invokes(bs[..|bs| - 1]) + if bs[|bs| - 1].term.Invoke? then 1 else 0
  }

  /** Creating the blocks and then filling each one yields exactly the lowered
      function, every block closed, with the context declared once if and only if
      the function has an invoke. */
  method BuildFunction(bs: seq<Block>) returns (func: FunctionDef)
    ensures fresh(func) && func.Valid()
    ensures func.blocks.Keys == AsFunction(bs).Keys
    ensures forall l | l in func.blocks :: func.blocks[l] == BlockData(LowerFunction(AsFunction(bs))[l], true)
    ensures func.localDecls == if exists b :: b in bs && b.term.Invoke? then [ExnPtrDecl, UnwindCtxDecl] else []
  {
    hide LowerCode, Invokes, LowerFunction;
    func := new FunctionDef();
    CreateBlocks(func, |bs|);
    assert Invokes(bs[..0]) == 0 by { NoInvokes(); assert bs[..0] == []; }
    var k := 0;
    while k < |bs|
      invariant 0 <= k <= |bs| && fresh(func) && func.Valid() && func.blockCounter == |bs|
      invariant func.invokeCounter == Invokes(bs[..k])
      invariant FilledUpTo(func.blocks, bs, k)
    {
      FillBlock(func, bs, k);
      InvokesNext(bs, k);
      k := k + 1;
    }
    assert bs[..|bs|] == bs;
    InvokesCounts(bs);
    AllFilled(func.blocks, bs);
  }

  lemma NoInvokes()
    ensures Invokes([]) == 0
  {
  }

  lemma InvokesNext(bs: seq<Block>, k: nat)
    requires k < |bs|
    ensures Invokes(bs[..k + 1]) == Invokes(bs[..k]) + if bs[k].term.Invoke? then 1 else 0
  {
    assert bs[..k + 1][..k] == bs[..k];
  }

  lemma AllFilled(blocks: map<nat, BlockData>, bs: seq<Block>)
    requires FilledUpTo(blocks, bs, |bs|)
    ensures blocks.Keys == AsFunction(bs).Keys
    ensures forall l | l in blocks :: blocks[l] == BlockData(LowerFunction(AsFunction(bs))[l], true)
  {
    hide LowerCode;
  }

  method CreateBlocks(func: FunctionDef, n: nat)
    requires func.Valid() && func.blockCounter == 0 && func.invokeCounter == 0
    modifies func
    ensures func.Valid() && func.blockCounter == n && func.invokeCounter == 0
    ensures forall l | l in func.blocks :: func.blocks[l] == BlockData([], false)
  {
    var k := 0;
    while k < n
      invariant 0 <= k <= n && func.Valid() && func.blockCounter == k && func.invokeCounter == 0
      invariant forall l | l in func.blocks :: func.blocks[l] == BlockData([], false)
    {
      var _ := func.NewBlock();
      k := k + 1;
    }
  }

  /** Blocks below k are complete, the others untouched. */
  ghost predicate FilledUpTo(blocks: map<nat, BlockData>, bs: seq<Block>, k: nat) {
    && (forall l: nat :: l in blocks <==> l < |bs|)
    && (forall l: nat | l < |bs| ::
          blocks[l] == if l < k then BlockData(LowerCode(bs[l].body, bs[l].term), true) else BlockData([], false))
  }

  method FillBlock(func: FunctionDef, bs: seq<Block>, k: nat)
    requires func.Valid() && func.blockCounter == |bs| && k < |bs| && FilledUpTo(func.blocks, bs, k)
    modifies func
    ensures func.Valid() && func.blockCounter == |bs| && FilledUpTo(func.blocks, bs, k + 1)
    ensures func.invokeCounter == old(func.invokeCounter) + if bs[k].term.Invoke? then 1 else 0
  {
    hide Extend, Close, LowerTerm, Lowered, LowerCode;
    Filled(func.blocks, k, bs[k].body, bs[k].term);
    ghost var b := func.blocks;
    KeepsKey(b, k, Lowered(bs[k].body));
    func.EmitBody(k, bs[k].body);
    func.Terminate(k, bs[k].term);
  }

  lemma KeepsKey(blocks: map<nat, BlockData>, k: nat, ss: seq<CStmt>)
    requires k in blocks
    ensures k in Extend(blocks, k, ss)
  {
  }

  lemma Filled(blocks: map<nat, BlockData>, k: nat, body: seq<Instr>, term: Terminator)
    requires k in blocks && blocks[k] == BlockData([], false)
    ensures Close(Extend(Extend(blocks, k, Lowered(body)), k, LowerTerm(term)), k)
            == blocks[k := BlockData(LowerCode(body, term), true)]
  {
    LoweredCode(body, term);
    ExtendMore(blocks, k, Lowered(body), LowerTerm(term));
    assert [] + LowerCode(body, term) == LowerCode(body, term);
  }

  lemma {:induction false} InvokesCounts(bs: seq<Block>)
    ensures Invokes(bs) == 0 <==> !exists b :: b in bs && b.term.Invoke?
  {
    if bs != [] {
      InvokesCounts(bs[..|bs| - 1]);
      assert bs == bs[..|bs| - 1] + [bs[|bs| - 1]];
    }
  }
}
