# Verified model of the C backend

The backend lowers rustc's codegen interface to C text and ships a small C
runtime. This project models the parts of it whose correctness is not visible
from any single function and proves them in Dafny. `dafny verify dfyconfig.toml`
checks everything.

## What is modelled

**Unwinding** (`Unwind.dfy`, `UnwindCalls.dfy`, `LandingPads.dfy`,
`FunctionBuilder.dfy`). A small language of blocks
with assignments, memory, calls, invokes, raises, resumes, cleanup returns and
`__rust_try`, with arbitrary recursion, is given two meanings: an interpreter
with structured exceptions that go to the nearest enclosing handler, and the
emitted C, a machine with a frame stack, one `__unwind_ctx` per frame, a
thread-local chain, setjmp and longjmp. The two end in the same states, on every
program and input. In every state the machine can reach, the chain is exactly the
active contexts. Landing pads are values bound where an exception lands, though the
text of every use is `__exn_ptr`. The builder's imperative side (blocks, local declarations, the
shared context declared by the first invoke) is a class proved to produce that
lowering.

**Expressions and integers** (`CSyntax.dfy`, `CLexing.dfy`, `CSemantics.dfy`,
`COperators.dfy`, `IntLowering.dfy`, `StandardTypes.dfy`, `IntConstants.dfy`, `Literals.dfy`,
`UnsignedLiterals.dfy`, `NegativeLiterals.dfy`, `BuilderShapes.dfy`,
`BuilderValues.dfy`, `FloatSaturation.dfy`). Printing is a function to tokens, which
a C lexer finds again in the printed characters; a reader for the expression grammar of section
6.5 of C11 reads them back. The reader's trees are evaluated under integer
promotion, the usual arithmetic conversions and `-fwrapv`. The builder's integer
operations on parameters, temporaries and constants are then proved against the
typeless operations on bit patterns: every block of them, from its printed text,
keeps each variable at the canonical integer of its pattern. Address arithmetic and
floating-point expressions are evaluated with sizes, NaN, infinities and reals.

**Arithmetic runtime** (`Int128.dfy`, `Overflow.dfy`, `ClampTexts.dfy`,
`BitIntrinsics.dfy`, `BitPermutations.dfy`). Long division, overflow detection, saturation, the
256-bit multiply-add, bit counting, byte swap, bit reversal, rotation and funnel
shift, on mathematical integers with the C width written out.

**Atomics** (`CasLoops.dfy`, `AtomicOps.dfy`). Threads interleaving on one cell,
with spurious compare-exchange failures and arbitrary plain reads. Every run of
emitted operations is tied to the typeless operations on bit patterns.

**Static data** (`StaticData.dfy`). Allocations with relocations become packed
structs; nested constants are emitted and named on the way. The model keeps both
sides: the graph of allocations, and the sections with the names they mention.

**Types and calls** (`TypeStore.dfy`, `CallAbi.dfy`, `RepeatedStore.dfy`). The
hash-consed type store, its struct definitions and alignments; the parameter
lists of declarations and types, the caller's argument code and the callee's
`get_param`; array initialization in its three forms.

**BLAKE3 fallback** (`Blake3.dfy`). Compression and many-input hashing on arrays
against a chained fold over the compression of section 2.2 of the BLAKE3 paper.

`IntMath.dfy` holds the arithmetic the rest shares, `Wrappers.dfy` the optional type.

## Where the code does not meet the reference

Each of these has its exact condition in the project, and where the condition is
not already one input, a failing input.

- i128 saturation stores 0 for both limits (`Overflow.SaturatingI128`; the largest
  value plus one, `Overflow.SaturatingI128Fails`).
- i128 multiplication misses the overflow at a = -1, b = MIN, and only there
  (`Overflow.OverflowI128Mul`).
- The signed 128-bit multiply-add multiplies patterns; its high half is right
  exactly when the sign corrections cancel (`CarryingMulAdd.WideSigned`); it is
  wrong for -1 * 1 (`CarryingMulAdd.WideSignedFails`).
- Saturating conversion from floating point to a 64-bit integer is undefined exactly
  from the upper limit plus one on, infinity included, because that limit rounds up
  as a double; narrower ones saturate everything
  (`FloatSaturation.SaturatingUnsignedMeans`, `SaturatingSignedMeans`; infinity,
  `FloatSaturation.InfinityFails`). To 128 bits it does not saturate at all
  (`FloatSaturation.WideConversion`).
- The unordered comparisons and ONE share the operator of their counterparts and are
  wrong exactly on NaN (`BuilderValues.FCmpMeans`).
- A pointer into a weak static loses its addend: a constant has the value meant
  exactly when no such pointer in it, at any depth, has one
  (`StaticEmission.AddendsLost`, `WeakAddendFails`).
- A landing pad used after a later exception landed in the same activation reads
  the later pointer (`LandingPads.LoweringPreservesPads`, `LandingPads.UseReads`; a
  failing program is `LandingPads.LatePadFails`). Pads used only in the block that
  binds them are never affected (`LandingPads.LocalPadsPreserved`).
- A signed value divided by an unsigned literal of its type is divided as
  unsigned, at the literal's width. When quotient and remainder are right
  nevertheless is `UnsignedLiterals.SignedDivisionByUnsignedLiteral`; for a divisor
  u below half the range, a remainder is right exactly for nonnegative dividends
  or when u divides both the dividend and 2^64 (2^128 for a 128-bit literal). At
  64 bits, and by a 128-bit literal at 128, the quotient's condition has the closed
  form `UnsignedLiterals.QuotientAtOwnWidth`; below 64 bits none is given.
  A literal dividend has its own condition (`UnsignedLiterals.UnsignedLiteralBySigned`),
  and so have two such literals (`UnsignedLiterals.TwoUnsignedLiterals`).
  -6 / 3 and -6 % 3 fail (`IntConstants.UnsignedLiteralBreaksSignedDivision`,
  `UnsignedLiterals.RemainderFails`). Sign extension of such a literal extends by
  zeros (`IntConstants.UnsignedLiteralExtends`).
- Operations on two 64-bit literals of a 128-bit type are done at 64 bits: sums,
  differences, products and negations are right exactly when the result fits,
  bitwise operations and selections unless an unsigned partner forces a negative
  literal to 64 unsigned bits, division unless it is the smallest value by -1
  (`IntConstants.NarrowLiteralsAt128`, `NarrowUnaryAt128`, `NarrowSelectAt128`,
  `NarrowDivisionAt128`; a failing sum is `NarrowSumWraps`).
- A negative literal of an unsigned type is divided, or extended, as it is written:
  right as divisor under `NegativeLiterals.ByNegativeLiteral`, as dividend under
  `NegativeLiterals.NegativeLiteralBy`, with another one only if they are equal
  (`NegativeLiterals.TwoNegativeLiterals`), in zero extension only if nothing widens
  (`NegativeLiterals.NegativeLiteralExtends`). 200 / 255 and 255 / 2 at eight bits
  with 255 written -1 fail (`NegativeLiterals.NegativeLiteralFails`).
- A switch on a literal of unsigned type compares at the width of the literal's text
  (`IntConstants.SwitchGoesToPattern`); with 1 as a 128-bit value and the label
  2^64 + 1, or a byte written -1 and the label 255, it goes elsewhere
  (`IntConstants.SwitchFails`).
- Minimum and maximum with an unsigned literal of a signed type compare as unsigned
  (`AtomicOps.MinMaxByUnsignedLiteral`; -1 and 3, `AtomicOps.MinMaxFails`).
- `ashr` on an unsigned type is a logical shift (`IntConstants.AShrOnUnsigned`,
  `AShrFails`), and truncation to `_Bool` tests for zero
  (`IntConstants.TruncToBool`, `TruncToBoolFails`).
- Funnel shifts by 0 are undefined at 32 bits and above (`Rotation.FunnelMeans`);
  the right funnel shift takes its operands in the opposite order
  (`Rotation.FunnelRightExchangesOperands`, `FunnelRightFails`).
- `__rustc_clz32` and `__rustc_ctz32` return 31 for 0; their callers never pass it
  (`BitCounting.Clz32`, `BitCounting.Ctz32`).
- An argument passed by value on the stack arrives only if its layout is a struct
  (`CallAbi.ArgumentDelivered`, `VectorNotDelivered`); `store_fn_arg` loses the
  position after an unsized argument (`CallAbi.WalkMatchesPositions`,
  `UnsizedWalkFails`).
- A vector of length 0 gets alignment 1 whatever its element, so `_Alignas` is
  refused exactly when some zero-length vector inside the type has elements that C
  aligns to more than the computed alignment (`TypeStore.AlignasAccepts`,
  `TypeStore.EmptyVectorAlign`; `TypeStore.EmptyVectorRefused` is such a store).

## Model

| member | source | states |
|---|---|---|
| UnwindSimulation.LoweringPreservesMeaning | src/builder.rs:434-505 | for every program, function, arguments and memory, the emitted C ends in a state exactly when the structured interpreter ends in it: value and memory, abort of an uncaught exception, or fault; so also one terminates exactly when the other does |
| UnwindSimulation.SimCall | src/c/preamble.c:26-33 | a call made by any frame, on any stack and chain, behaves as the structured call: on return the frames below and the chain are as they were, a raise arrives with its pointer and the caller's chain |
| UnwindSimulation.SimGuard | src/builder.rs:468-497 | the push, setjmp, call, pop sequence continues after the call on return, and in the handler with the raised pointer and the chain popped on a raise |
| UnwindSimulation.SimTry | src/c/preamble.c:35-50 | `__rust_try` returns 0 with the callee's effects, or pops and runs `catch_fn` with the same pointer and returns 1; what `catch_fn` raises leaves outwards |
| UnwindSimulation.SimTerm | src/builder.rs:1825-1865 | invoke, resume, cleanup return, branch and return each take the machine where the interpreter goes |
| UnwindSimulation.Land | src/c/preamble.c:26-33 | with a frame's context on top, a raise from any depth discards the frames above, stores the pointer, restores the chain and enters the handler |
| UnwindCalls.ArgumentArrives | src/builder.rs:2127-2181 | on the machine, a function that returns its parameter i ends with argument i, for all arguments and every i |
| UnwindCalls.CalleeStarts | src/builder.rs:2127-2181 | a callee starts with exactly its arguments, in order, as its locals |
| UnwindCalls.HandlerSees | src/c/preamble.c:36-51 | after a raise under `__rust_try(f, data, catch)` the handler's first argument is `data`, its second the raised pointer, and the whole returns 1 |
| UnwindCalls.SumIsStored | src/builder.rs:1085-1139 | a function that stores the sum of two parameters where a third points and reads it back ends with that sum and that memory |
| UnwindCalls.ResultReturns | src/builder.rs:2127-2181 | the result of a call on exchanged arguments is what the callee returned |
| LandingPads.LoweringPreservesPads | src/builder.rs:1811-1865 | with each landing pad a value bound where its exception landed, the emitted C, whose every use of a pad is `__exn_ptr`, ends as the program does whenever each use comes before another pointer lands in the activation |
| LandingPads.UseReads | src/builder.rs:1811-1819 | one use reads the bound pointer if and only if that is the pointer that landed last |
| LandingPads.LocalPadsPreserved | src/builder.rs:1811-1865 | in every program that uses each pad only in the block that binds it, emitted C and bound pads agree on every input |
| LandingPads.SavedPadIsLocal | src/builder.rs:1811-1835 | saving the pad in a local where it lands meets the condition, using it in another block does not |
| LandingPads.LatePadFails | src/builder.rs:1811-1819 | a function in which 7 lands while 5 is handled and the first pad is returned gives 7 on the machine and means 5 |
| UnwindChain.InvReachable | src/builder.rs:451-497 | in every state reachable by any lowered program, saved links and jump buffers of all frames are consistent with the chain |
| UnwindChain.ChainListsActiveContexts | src/builder.rs:451-497 | walking the chain visits exactly the frames between push and pop, innermost first, none twice, all live; no longjmp is ever undefined |
| UnwindChain.LongjmpTargetsInnermostActive | src/builder.rs:1825-1841 | every reachable raise jumps to the innermost active frame, by a buffer that same activation set, with the pointer in its context; with none active it aborts |
| UnwindChain.LoweredShape | src/builder.rs:468-497 | every emitted function keeps the push, setjmp, call, pop discipline at every position, handlers included |
| FunctionBuilder.FunctionDef.NewBlock | src/module.rs:84-96 | blocks are numbered in order of creation, start empty, and the others stay |
| FunctionBuilder.FunctionDef.Invoke | src/builder.rs:434-505 | the block receives exactly the guarded call and is closed; the context is declared only by the first invoke |
| FunctionBuilder.BuildFunction | src/builder.rs:455-503 | creating and filling all blocks gives exactly the lowered function, every block closed, with the two declarations present if and only if some block ends in an invoke |
| CSyntax.PrintThenRead | src/c_ast.rs:178-219 | any expression whose operands bind as tightly as their place demands, and whose tokens do not merge with their neighbours, prints to tokens that the C grammar reads as the same tree, leaving nothing over |
| CLexing.TextThenRead | src/c_ast.rs:178-219 | the characters of every well-shaped expression, with the spaces written, lex to exactly its tokens, which then read as the same tree |
| CLexing.LongerSymbols | src/c_ast.rs:31-54 | the lexer takes a symbol and the next character together exactly when they begin a longer punctuator of C11, a comment or a number |
| CLexing.MergesOtherwise | src/c_ast.rs:187-201 | the address of an address and a field of a number, which the shape excludes, do not lex to their tokens |
| CSyntax.ReadsBin | src/c_ast.rs:178-219 | a binary operand read at any admissible precedence level continues with what follows it, so chains associate as built |
| COperators.Groups | src/c_ast.rs:31-54 | of any two operators in a row the first takes the middle operand exactly when C11 lists it no later than the second |
| COperators.ArithmeticText | src/c_ast.rs:34-38 | the five arithmetic symbols between unsigned variables compute modulo 2^w, and nothing for a zero divisor |
| COperators.ComparisonText | src/c_ast.rs:44-51 | comparisons and logical operators give 0 or 1 of type int, decided by the values |
| COperators.ShiftText | src/c_ast.rs:39-40 | the shifts multiply and divide by a power of two and are undefined from the width on |
| COperators.BitText | src/c_ast.rs:41-43 | each bit of and, or and exclusive or is the product, the sum less the product and the sum modulo 2 of the operands' bits |
| COperators.UnaryText | src/c_ast.rs:58-76 | minus, tilde and bang before a parenthesized variable negate, complement and test for zero |
| BuilderShapes.GepReads | src/builder.rs:1200-1232 | the address arithmetic reads back as built for one, two or more indices and any operand texts |
| BuilderValues.GepMeans | src/builder.rs:1200-1232 | the text, read and evaluated, is p + i*s modulo the pointer width for one index or more than two, and p + i*s + j for two, for all addresses, indices and element sizes |
| BuilderShapes.SaturatingReads | src/builder.rs:1244-1335 | the nested conditionals of the saturating float conversions read back as built |
| FloatSaturation.SaturatingUnsignedMeans | src/builder.rs:1244-1288 | for every float, NaN and infinities included, the conversion to an unsigned type gives the saturated truncation, except that at 64 bits it is undefined exactly from 2^64 up (128 bits: WideConversion) |
| FloatSaturation.SaturatingSignedMeans | src/builder.rs:1289-1335 | the same for signed types, undefined at 64 bits exactly from 2^63 up |
| FloatSaturation.InfinityFails | src/builder.rs:1244-1288 | infinity is such a value: the upper limit of 64 bits is 2^64 as a double |
| FloatSaturation.WideConversion | src/builder.rs:1244-1335 | to 128 bits the conversion is defined, and then saturated, exactly for finite floats whose truncation the type holds |
| FloatSaturation.SaturableTypes | src/builder.rs:1249-1267 | the two saturation theorems cover every standard integer type wider than one bit and narrower than 128 |
| BuilderValues.NearestRounds | src/builder.rs:1249-1262 | a limit as a double is a multiple of the spacing of doubles within half of it, the even one in a tie |
| BuilderShapes.FCmpReads | src/builder.rs:1603-1641 | float comparisons, ordered and unordered tests read back as built |
| BuilderValues.FCmpMeans | src/builder.rs:1603-1641 | every comparison evaluates to 0 or 1, and to what its predicate means if and only if neither operand is NaN or the predicate is not ONE or an unordered inequality or equality |
| BuilderShapes.MemberAccess | src/builder.rs:1717-1752 | `v[i]` is well shaped exactly when the text of v may carry a postfix operator, `v.fK` exactly when it also is not a number; both then read back as built |
| BuilderShapes.MemoryOperands | src/builder.rs:1090-1139 | dereferences read back as built for every text, address operands and memcpy calls exactly for texts that do not begin with `&` or `=` |
| CSemantics.ExecutePrinted | src/c_ast.rs:178-219 | reading the printed text and evaluating the parse tree gives the value of the expression that was printed, or none where it has none; only the chosen arm of a conditional and the needed side of a logical operator are evaluated |
| CSemantics.TypeOfValue | src/builder.rs:1697-1706 | the type of an expression found without evaluating it, which an unchosen arm contributes, is the type of its value |
| CSemantics.BalanceExact | src/builder.rs:1494-1601 | the usual arithmetic conversions keep both values when both are nonnegative or both types signed |
| IntLowering.EmitShaped | src/builder.rs:75-160 | everything the builder emits for integers lexes to its tokens and reads back as built |
| IntLowering.LowerInstr | src/builder.rs:518-693 | each operation on parameters, temporaries and constants, as rustc's codegen passes them, evaluates, and storing the value gives the canonical integer of the typeless result |
| IntLowering.LoweringPreservesPatterns | src/builder.rs:56-160 | for every sequence of operations, from any parameters, reading and evaluating the printed assignments one after the other succeeds and keeps every variable the canonical integer of its typeless pattern |
| StandardTypes.StandardIsSized | src/types.rs:182-197 | `_Bool`, the integer types of 8 to 128 bits and the pointer-width ones have their own width and signedness in C |
| StandardTypes.WidthRoundsUp | src/types.rs:182-197 | every other width is rounded up to the least standard one, or to 128 |
| StandardTypes.TypedCovers | src/builder.rs:516-668 | VariableInstr and VariableBlock cover every operation on two variables, or a variable and a constant, of an integer type, but signed division and arithmetic shift of unsigned types and signed constant shift amounts |
| StandardTypes.VariableInstr | src/builder.rs:518-693 | every typed instruction on variables and constants of the standard types evaluates from its text and leaves the integer of the typeless result, with no condition on the model's width table |
| StandardTypes.TruncationKeepsLowBits | src/builder.rs:1238-1240 | truncation to n bits is the integer, in that type, of the pattern modulo 2^n |
| StandardTypes.VariableBlock | src/builder.rs:56-160 | the same for every sequence of such instructions |
| IntLowering.LowerICmp | src/builder.rs:1494-1601 | comparisons at any mix of signed and unsigned types, and of pointers, null included, decide the predicate on the patterns |
| IntLowering.LowerNarrowPointers | src/builder.rs:1553-1598 | 32-bit pointers compared as 64-bit integers keep equality and address order, whichever way the compiler widens them |
| IntLowering.LowerShift | src/builder.rs:597-659 | the three shifts, through promotion of narrow types, give the typeless shift |
| IntLowering.LowerIntCast | src/builder.rs:1444-1489 | widening extends by the requested signedness whatever the source type's own, narrowing truncates |
| IntLowering.LowerSelect | src/builder.rs:1697-1706 | the conditional keeps the chosen pattern through the arms' common type |
| IntLowering.LowerZExt | src/builder.rs:2324-2335 | zero extension from signed and unsigned types |
| IntConstants.SignExtendIsWrap | src/consts.rs:15-24 | the shift-up, shift-down form is the signed reading of the low bits at every width |
| IntConstants.ConstUintShows | src/consts.rs:75-113 | a constant has the given pattern; signed ones show the signed value, unsigned ones the unsigned value exactly when it fits the type |
| IntConstants.ConstUnsignedShows | src/consts.rs:55-74 | the fixed-width constructors give the pattern but never count as signed operands |
| IntConstants.UnsignedLiteralBreaksSignedDivision | src/consts.rs:59-62 | -6 / 3 with the literal `3ULL` yields 0x55555553 instead of -2 |
| UnsignedLiterals.SignedDivisionByUnsignedLiteral | src/consts.rs:55-70 | for every signed variable or signed literal of at most 128 bits and every nonzero unsigned literal of its type, the emitted quotient or remainder is the signed one if and only if a condition on the two values holds; a literal narrower than the dividend's text is always right |
| UnsignedLiterals.QuotientAtOwnWidth | src/consts.rs:63-70 | divided at its own width, the condition is: a divisor below half the range with a nonnegative dividend or equal to 1, or above it with a smaller nonnegative dividend or the dividend's own pattern |
| UnsignedLiterals.UnsignedLiteralBySigned | src/consts.rs:55-70 | for every unsigned literal divided by a signed variable or signed literal of its type, quotient and remainder are the signed ones if and only if a condition on the two values holds |
| UnsignedLiterals.TwoUnsignedLiterals | src/consts.rs:55-70 | two unsigned literals of a signed type divide as signed if and only if: divisor and dividend below half the range; or the divisor is 1 (for remainders, divides dividend and dividend - 2^w); or divisor and dividend sum below 2^w; or they are equal |
| NegativeLiterals.ByNegativeLiteral | src/consts.rs:52-54 | any value of an unsigned type divided by a negative literal of it is the unsigned result if and only if a closed condition on the two values holds; always when the value's unsigned type is the common one |
| NegativeLiterals.NegativeLiteralBy | src/consts.rs:52-54 | the same for a negative literal of an unsigned type as the dividend |
| NegativeLiterals.TwoNegativeLiterals | src/consts.rs:52-54 | two negative literals of an unsigned type divide right if and only if they are equal |
| NegativeLiterals.NegativeLiteralExtends | src/builder.rs:2324-2335 | zero extension, or an unsigned cast, of such a literal is right if and only if nothing widens |
| NegativeLiterals.NegativeLiteralFails | src/consts.rs:52-54 | at eight bits 200 / 255 and 255 / 2 with 255 written as -1 fail the conditions |
| UnsignedLiterals.RemainderFails | src/consts.rs:59-62 | -6 by `3ULL` fails the condition for both quotient and remainder, and so does -6 written as its pattern |
| IntConstants.UnsignedLiteralExtends | src/builder.rs:1241-1243 | sign extension of an unsigned literal is right exactly when its sign bit is clear or nothing widens |
| Literals.LiteralReads | src/values.rs:129-144 | the text of every integer constant reads as a minus sign and a literal, the split smallest 64-bit value, or two joined halves |
| Literals.LiteralValue | src/values.rs:129-144 | that text, read and evaluated, is the constant for every i128, at the width and signedness the model gives the operand |
| Literals.UintLiteralValue | src/values.rs:145-154 | the same for every u128 and its unsigned text |
| IntConstants.SwitchGoesToPattern | src/builder.rs:385-432 | a switch on a variable or a value of signed type selects the case whose constant is the bit pattern; on any literal of unsigned type it does if and only if every label up to that case agrees with the literal, in the bits of its text, exactly when it is the pattern |
| IntConstants.SwitchFails | src/builder.rs:409-421 | 1 as a 128-bit literal, signed or unsigned text, goes to the case for 2^64 + 1, and the byte -1 misses the case for 255 |
| IntConstants.AShrOnUnsigned | src/builder.rs:645-659 | the expression emitted for an arithmetic shift at an unsigned type stores the right result if and only if the sign bit is clear or nothing is shifted |
| IntConstants.AShrFails | src/builder.rs:645-659 | the emitted shift of the unsigned byte 128 by 1 stores 64, not 192 |
| IntConstants.TruncToBool | src/builder.rs:1238-1240 | truncation to `_Bool` keeps the low bit exactly for 0 and odd patterns |
| IntConstants.TruncToBoolFails | src/builder.rs:1238-1240 | the byte 2 is stored in a `_Bool` as 1 instead of 0 |
| IntConstants.NarrowLiteralsAt128 | src/values.rs:129-154 | add, sub, mul, and, or, xor of two 64-bit literals at a 128-bit type, signed, unsigned or mixed, are right exactly when 64 bits of their common signedness hold the result |
| IntConstants.NarrowDivisionAt128 | src/values.rs:129-144 | signed division and remainder of two such literals fail exactly for the smallest 64-bit value by -1 |
| IntConstants.NarrowUnaryAt128 | src/values.rs:129-154 | negation of such a literal is right exactly when the result fits its 64 bits, complement exactly when it is signed |
| IntConstants.NarrowSelectAt128 | src/builder.rs:1697-1706 | selection between two such literals is right exactly when both are signed or the chosen one is not negative |
| IntConstants.NarrowSumWraps | src/values.rs:129-144 | 2^63 - 1 plus 1 at i128 is stored wrapped |
| Int128Division.UDivTi3 | src/c/int128_division.c:6-15 | the exact quotient for every n and nonzero d; no bit of r is lost in the shift, even for d above 2^127 |
| Int128Division.UModTi3 | src/c/int128_division.c:18-27 | the exact remainder, on the fast path and in the loop |
| Int128Division.DivideStep | src/c/int128_division.c:10-13 | one round keeps the quotient bits and the remainder of the prefix read so far |
| CSemantics.TruncatingDivision | src/c/int128_division.c:30-45 | dividing magnitudes and restoring signs gives n = q*d + r with r smaller than d and of n's sign |
| Int128Division.TruncatingUnique | src/c/int128_division.c:30-45 | no other quotient and remainder satisfy that |
| Int128Division.DivTi3 | src/c/int128_division.c:30-36 | truncating division modulo 2^128 for all pairs; only MIN / -1 wraps, to MIN |
| Int128Division.ModTi3 | src/c/int128_division.c:39-45 | the truncating remainder for all pairs, MIN and -1 included |
| Overflow.OverflowWiden | src/c/preamble.c:148-172 | at every width below 128 and both signednesses the result is congruent to a + b, a - b or a * b and in range, and the report is true exactly when it differs from it |
| Overflow.OverflowU128AddSub | src/c/preamble.c:175-180 | the same for u128 addition and subtraction |
| Overflow.OverflowU128Mul | src/c/preamble.c:181-183 | the same for u128 multiplication, by the division test |
| Overflow.OverflowI128AddSub | src/c/preamble.c:184-193 | the same for i128, by the sign-bit tests |
| Overflow.OverflowI128Mul | src/c/preamble.c:194-198 | the same for i128 multiplication on all pairs but a = -1, b = MIN |
| Overflow.Saturating | src/intrinsic.rs:676-771 | saturating add and sub clamp the mathematical result at every width to 64 and for u128 |
| Overflow.SaturatingI128 | src/intrinsic.rs:736-737 | for i128 the emitted clamp agrees with clamping exactly when nothing overflows |
| Overflow.SaturatingI128Fails | src/intrinsic.rs:736-737 | 2^127 - 1 plus 1 saturates to 0 |
| ClampTexts.ClampValue | src/intrinsic.rs:731-768 | the clamp text, read and evaluated, stores the limit `Overflow.ClampLiteral` names, at every type and for either type the compiler gives the literal 2^63 |
| ClampTexts.OverflowStoresClamp | src/intrinsic.rs:731-768 | when the exact result overflows, the value of that text is the clamped result, at every width to 64 and for u128 |
| CarryingMulAdd.Narrow | src/intrinsic.rs:1164-1203 | low and high halves compose to a*b + c + d, signed and unsigned, at every width to 64 |
| CarryingMulAdd.Wide | src/intrinsic.rs:1204-1253 | high*2^128 + low = a*b + c + d for all unsigned 128-bit operands; no carry is lost |
| CarryingMulAdd.WideSigned | src/intrinsic.rs:1204-1252 | for i128 the low half is always right, the high half exactly when the sign corrections vanish modulo 2^128 |
| CarryingMulAdd.WideSignedFails | src/intrinsic.rs:1204-1252 | for -1 * 1 + 0 + 0 the high half is 0 where -1 is meant |
| BitCounting.Clz32 | src/c/preamble.c:85-93 | the binary search counts leading zeros bit by bit; 31 for zero |
| BitCounting.Ctz32 | src/c/preamble.c:101-109 | the binary search counts trailing zeros bit by bit; 31 for zero |
| BitCounting.Clz64 | src/c/preamble.c:95-99 | the split form counts leading zeros of 64 bits; 63 for zero |
| BitCounting.Ctz64 | src/c/preamble.c:111-115 | the split form counts trailing zeros of 64 bits; 63 for zero |
| BitCounting.CountLeadingZeros | src/intrinsic.rs:531-558 | at widths 8 to 128 and both signednesses the mask, width correction and split give the bit-by-bit count, zero included |
| BitCounting.CountTrailingZeros | src/intrinsic.rs:560-584 | the same for trailing zeros |
| PopCount.PopCount32 | src/c/preamble.c:117-122 | the parallel sum is the number of one bits |
| PopCount.PopCount64 | src/c/preamble.c:124-129 | the same for 64 bits |
| PopCount.Steps | src/c/preamble.c:118-120 | after the three masked steps every byte of a word of any length holds the count of its bits |
| PopCount.CountOnes | src/intrinsic.rs:586-611 | the emitted count is the number of one bits of the pattern at widths 8 to 128 |
| BitPermutations.Bswap16 | src/c/preamble.c:131-133 | byte i goes to the mirrored place, bits within a byte stay |
| BitPermutations.Bswap32 | src/c/preamble.c:135-138 | the same for four bytes |
| BitPermutations.Bswap64 | src/c/preamble.c:140-144 | the same for eight bytes |
| BitPermutations.SwapBytes | src/intrinsic.rs:613-636 | the intrinsic mirrors the bytes at widths 8 to 128 of signed and unsigned values |
| BitPermutations.SwapTwice | src/intrinsic.rs:613-636 | mirroring the bytes twice gives the value back |
| Rotation.IntegerTypes | src/types.rs:182-195 | the rotation, reversal and funnel theorems cover every fixed-width integer type and the pointer-width ones |
| Rotation.RotateMeans | src/intrinsic.rs:773-799 | the rotation text, read and evaluated as C, moves bit i to i plus or minus the amount modulo the width, for every unsigned amount and widths 8 to 128 |
| Rotation.RotateBack | src/intrinsic.rs:773-799 | rotating left and right by one amount undo each other |
| Rotation.BitReverse | src/intrinsic.rs:638-674 | the emitted loop, each iteration reading and evaluating its body text, puts bit i at width-1-i |
| Rotation.ReverseTwice | src/intrinsic.rs:638-674 | bit reversal is its own inverse |
| Rotation.FunnelMeans | src/intrinsic.rs:801-833 | the text of a funnel shift below the width has a value exactly when the amount is positive or the type narrower than int, and then joins the two operands' bits |
| Rotation.FunnelRightExchangesOperands | src/intrinsic.rs:821-825 | the emitted right shift takes the first operand's bits first; exchanging the operands gives the same result exactly when they are equal |
| Rotation.FunnelRightFails | src/intrinsic.rs:821-825 | no byte the emitted right funnel shift of 1 and 0 by 1 can store is the one meant |
| CasLoops.CasLoopsAreAtomic | src/builder.rs:1986-2095 | under any interleaving of any threads the finished ones have one order, each once, in which running the operations atomically gives the cell and every returned value |
| CasLoops.OrderRespectsTime | src/builder.rs:1162-1188 | for every split of every run, what finished in the first part comes before everything that finishes later, and a stretch in which nothing finishes leaves the cell alone |
| CasLoops.LoadsNeverWrite | src/builder.rs:956-971 | in every run of any mix of operations, no step of a 128-bit load by compare-and-swap changes the cell, and the final cell is that of the other operations alone |
| CasLoops.SoloProgress | src/builtins.rs:64-74 | a thread left alone with fresh reads finishes within three steps |
| AtomicOps.DesiredIsMeaning | src/builder.rs:1999-2072 | the text assigned to the new value, read and evaluated, is NAND, min, max, umin or umax of the patterns |
| AtomicOps.MinMaxByUnsignedLiteral | src/builder.rs:2048-2051 | signed minimum and maximum with an unsigned literal of the signed type are right if and only if a condition on the two values holds |
| AtomicOps.MinMaxFails | src/builder.rs:2048-2051 | -1 and `3ULL` at 32 bits fail it |
| AtomicOps.LoopIsTypelessOperation | src/builder.rs:1912-2095 | at the instant any emitted operation takes effect, with any operand text, the cell goes from the canonical integer of a pattern to that of the typeless result |
| AtomicOps.VariableClient | src/builder.rs:1912-2095 | any operation on variables of the cell's standard type is one the theorems on single operations and runs speak of |
| AtomicOps.NandTakesAny | src/builder.rs:1985-2030 | a nand loop is covered for any operand text of the cell's type, constants included |
| AtomicOps.EveryRunIsTypeless | src/builder.rs:1912-2095 | for every run of any threads on one cell there is one order, each finished thread once, such that the cell is the canonical integer of the typeless operations folded in that order and every returned value that of the pattern its operation found |
| AtomicOps.ClearIsAndNot | src/builtins.rs:97-115 | fetch-and of the complement clears exactly the operand's bits |
| StaticLayout.StructIsAllocation | src/consts.rs:390-496 | for ordered relocations the fields tile the allocation, every plain byte is kept, and every pointer lies at its relocation with an addend whose byte k is the allocation's byte there |
| StaticLayout.CellAtMeans | src/consts.rs:390-496 | each byte belongs to the one relocation that covers it, or to none |
| StaticLayout.OrderedMeans | src/consts.rs:390-406 | the order asked of relocations is that each ends where the next starts or before |
| StaticLayout.DesignatorsFit | src/consts.rs:569-667 | field list and initializer list, built separately, agree in number, index, kind and length |
| StaticEmission.Emitter.ConstData | src/consts.rs:337-499 | over any acyclic graph, the constant gets the next name, its reference is that name, every name it mentions is already defined, each pointer has the addend its little-endian bytes spell, and following the names gives the allocation's value as far as the text keeps it |
| StaticEmission.AddendsLost | src/consts.rs:429-441 | that value is the one meant if and only if no pointer to a weak static, at any depth, has an addend |
| StaticEmission.WeakAddendFails | src/consts.rs:433-436 | a pointer 8 bytes into a weak static loses the 8 |
| StaticEmission.Emitter.EmitStruct | src/consts.rs:390-488 | the relocation loop builds the field and initializer lists of the allocation, with all nested constants defined before |
| StaticEmission.Emitter.TargetBase | src/consts.rs:400-473 | the symbol for a relocation denotes its target, emitted first where it is memory or a vtable |
| StaticEmission.AppendOk | src/values.rs:91-105 | appending a section under a fresh name keeps names distinct and every mention after its definition |
| StaticEmission.PackedValue | src/consts.rs:490-495 | the packed struct just emitted has the value of its allocation |
| StaticEmission.ForwardFields | src/context.rs:190-209 | the separately written forward declaration lists the same fields |
| StaticEmission.CodegenStatic | src/consts.rs:564-682 | each designator of the definition names the declared field it is meant for, its pointers have the addends their bytes spell, and the initialized static has the allocation's value as far as the text keeps it |
| TypeStore.Store.Intern | src/types.rs:81-90 | the reference names the kind, earlier references keep theirs, a known kind is not stored again, and the store stays acyclic and injective |
| TypeStore.Store.InternTwice | src/types.rs:81-90 | two kinds get one reference exactly when they are equal |
| TypeStore.ReferenceBits | src/types.rs:86 | references wrap at 2^32, the bound under which the store is proved |
| TypeStore.ChildrenAre | src/types.rs:17-61 | a kind refers to its element, its fields, or its result and arguments, and to nothing else |
| TypeStore.Store.StructDefs | src/types.rs:139-173 | exactly the unnamed structs and the vectors are defined, each once, in store order |
| TypeStore.DefinedBeforeEmbedding | src/types.rs:139-173 | each definition comes after those of all it embeds through fields and arrays, at any depth |
| TypeStore.ScalarAlign | src/types.rs:99-114 | every scalar is aligned to its size: the least standard width that holds an integer, a float's own width, the pointer size |
| TypeStore.SequenceAlign | src/types.rs:115-127 | arrays take their element's alignment, packed structs 1, vectors the least power of two that holds their elements |
| TypeStore.StructAlign | src/types.rs:125-134 | an unpacked struct takes the largest alignment of its fields |
| TypeStore.AlignasAccepts | src/types.rs:99-136 | alignments are powers of two, multiples of what the C compiler requires exactly when no zero-length vector inside asks for more, and for unpacked structs multiples of each field's |
| TypeStore.EmptyVectorAlign | src/types.rs:118-124 | a zero-length vector gets alignment 1, which is accepted exactly when C aligns its element to 1 |
| TypeStore.EmptyVectorRefused | src/types.rs:118-124 | a store with a zero-length vector of 64-bit integers, whose alignment 1 C refuses |
| CallAbi.FnAbiToCType | src/type_of.rs:266-309 | at each argument's position the list has what its passing mode demands: the object, the two scalars in order, the cast target, a pointer, or pointer and metadata; the result likewise |
| CallAbi.OpenFunction.constructor | src/context.rs:480-613 | the declaration's parameters meet the same demands, are numbered in order, and exactly the by-value positions are recorded |
| CallAbi.StackPositionsExact | src/context.rs:558-567 | a position is recorded exactly when it is where a by-value argument's parameter lies |
| CallAbi.PositionsTile | src/type_of.rs:278-302 | the parameters of each argument occupy the list from its position on |
| CallAbi.ByValueType | src/type_of.rs:257-260 | a by-value position has the C type of its argument's layout |
| CallAbi.WalkMatchesPositions | src/builder.rs:2345-2418 | reading arguments one by one ends at the end of the list exactly when none is unsized |
| CallAbi.UnsizedWalkFails | src/builder.rs:2378-2394 | one unsized argument has two parameters, of which the walk reads one |
| CallAbi.Call | src/builder.rs:2127-2181 | the buffer pointer is stripped and receives the result; every other argument is passed as the declared type demands |
| CallAbi.ArgumentDelivered | src/builder.rs:2157-2181 | an argument arrives (object, value or bits) exactly when it is not by value or its parameter type is a struct |
| CallAbi.PassedHow | src/builder.rs:2157-2181 | a struct parameter is read through a pointer, pointers and integers are cast into each other, everything else is passed as it stands |
| CallAbi.AddressAsInteger | src/builder.rs:2157-2181 | pointers arrive in integers of their width, and integers in pointers, with the same bits |
| CallAbi.IntegerAsInteger | src/builder.rs:2157-2181 | a number passed for another integer type arrives as its pattern read with that width and signedness, and as 0 or 1 in a bool |
| CallAbi.VectorNotDelivered | src/builder.rs:2157-2181 | a pointer passed for a by-value vector does not arrive |
| CallAbi.OpenFunction.GetParam | src/builder.rs:2473-2558 | index 0 of an indirect return is the buffer, declared once; others shift by one and are addresses exactly at by-value positions |
| CallAbi.PassThenGet | src/builder.rs:2473-2558 | what the callee's `get_param(i)` denotes is what the caller passed as argument i: a fresh copy of the object, the value, or its bits; the caller's memory is untouched |
| CallAbi.NaturalIsGood | src/builder.rs:2127-2181 | a call that passes each argument as its mode asks is one PassThenGet speaks of |
| CallAbi.PassPointer | src/builder.rs:2473-2558 | a pointer passed for an indirect argument is the same pointer in the callee |
| CallAbi.ReturnThroughMemory | src/builder.rs:314-332 | what the callee wrote to its buffer is what the caller finds at its pointer, nothing else changes, and this happens exactly when the callee asked for the buffer |
| RepeatedStore.WriteRepeatedly | src/builder.rs:1026-1080 | memset, memcpy loop and unrolled stores write every element; padding stays, or in the memcpy loop is the first element's; every byte outside the array is unchanged |
| RepeatedStore.CopiesWhen | src/builder.rs:1026-1050 | the memcpy loop is chosen for more than sixteen elements of more than one byte |
| RepeatedStore.FormsAgree | src/builder.rs:1050-1079 | from one memory, the memcpy loop and the unrolled stores end in the same memory exactly when every element's padding bytes equal the first one's |
| Blake3.B3G | src/c/native_stubs.c:54-59 | the in-place updates are the mixing function on four cells, the others kept |
| Blake3.GBijective | src/c/native_stubs.c:54-59 | the mixing function is a bijection on the state for all message words |
| Blake3.RoundBijective | src/c/native_stubs.c:72-78 | each round is a bijection on the sixteen words for every message and schedule |
| Blake3.RoundsInjective | src/c/native_stubs.c:72-78 | so is any number of rounds for one message |
| Blake3.RoundsAreReference | src/c/native_stubs.c:44-52 | the seven-row schedule table runs the rounds of the paper, which permute the message words by one table between rounds |
| Blake3.CompressIsReference | src/c/native_stubs.c:61-80 | the compression is the paper's |
| Blake3.IvFromPrimes | src/c/native_stubs.c:40-43 | the constants are the first 32 fractional bits of the square roots of the first eight primes |
| Blake3.InitialWords | src/c/native_stubs.c:67-70 | the initial state is the chaining value, the first four constants, the two halves of the counter, the length and the flags |
| Blake3.B3Compress | src/c/native_stubs.c:61-80 | the loops compute that compression and write only the output |
| Blake3.HashOne | src/c/native_stubs.c:85-91 | the block loop is the fold of the compression with start and end flags on the first and last block |
| Blake3.FlagsOfBlocks | src/c/native_stubs.c:90 | the first block carries the start flag, the last the end flag, a single one both, others neither |
| Blake3.Counters | src/c/native_stubs.c:87 | input i counts i past the first when the counter is incremented, and not at all otherwise |
| Blake3.B3HashMany | src/c/native_stubs.c:82-94 | for any number of inputs and blocks, output slice i is the fold over input i with its counter, and no other byte is written |
| Blake3.B3CompressInPlace | src/c/native_stubs.c:96-99 | the chaining value is replaced by that of the compression of the old one |
| Blake3.B3CompressXof | src/c/native_stubs.c:101-109 | all sixteen words are written as little-endian bytes |
| Blake3.BytesReadBack | src/c/native_stubs.c:64-66 | bytes of words load back as the words |

## Left out

- Locals after longjmp: C leaves non-volatile locals changed since setjmp indeterminate; the model keeps them.
- One thread's chain at a time; a `jmp_buf` is the identity of the activation that set it.
- UnwindSimulation.LoweringPreservesMeaning: its source language reads the most recently landed pointer at each use of a pad; `LandingPads` treats pads bound where they land.
- Functions are built one at a time; block labels are block numbers, and `block_to_function` is not modelled.
- Spaces and names inside tokens: leaf texts are opaque tokens known only by their first character and by whether they may carry a postfix operator. Raw text is read for rotation, funnel shift, bit reversal, the saturation clamps, the atomic loops and the literals; bit counting, byte swap, the helper call of saturation and the multiply-add are modelled directly, not read from their texts.
- IntLowering.LowerInstr: division by zero, MIN / -1 and shift counts at or above the width are preconditions (rustc guards them). A constant operand's text must show the value the operation reads. Literals that do not (unsigned ones of signed types, negative ones of unsigned types, pairs of 64-bit literals at 128 bits) have exact statements of their own in `UnsignedLiterals`, `NegativeLiterals` and `IntConstants`; literals outside the range of their type do not.
- IntLowering.LowerICmp: both operands have one width, as LLVM's comparison demands; pointers compare with pointers, null or `usize`, unsigned or for equality; texts of constant addresses are opaque.
- AtomicOps.DesiredIsMeaning: the operand shows the value the operation reads, as for LowerInstr; the other case of signed minimum and maximum is `MinMaxByUnsignedLiteral`.
- CarryingMulAdd.WideSigned: the reference is claimed only under the stated condition, because the code multiplies the patterns as unsigned.
- Overflow.OverflowWiden: operands are values of the C type; the parameter conversions of the helper calls are identities there.
- BitCounting.CountLeadingZeros: widths are those of the standard integer types, which is what `scalar_to_c_type` produces.
- Rotation.RotateMeans: the amount is an unsigned operand of 32 bits or more, as a `u32` temporary or literal is.
- Memory orderings: every access to the cell is one sequentially consistent step; a plain read may return anything.
- Atomic operations other than the loops are single steps (`CasLoops.Op`), not expanded further.
- Static data: alignment, sections, thread-local storage and names other than `_bytesN` are left out; an unevaluable static is not modelled.
- StaticEmission.Emitter.ConstData: the allocation graph is given acyclic with a rank, as the interner guarantees; recursion depth in the host is unbounded.
- TypeStore.AlignasAccepts: alignments are unbounded integers; the product for a vector cannot wrap here as a 64-bit one could.
- `render` and `render_decl` texts of types appear as type names only.
- `get_fn` with a signature other than the call's, the `_Bool` result conversion of `call`, `tail_call`, and C varargs beyond passing them unchanged.
- CallAbi.PassThenGet: an object is one opaque content at one address; sizes and bytes within it are not modelled, and an integer argument must be as wide as its parameter.
- RepeatedStore.WriteRepeatedly: the element's own store is a list of written and padding bytes; a one-byte element is an immediate.
- Blake3.B3HashMany: `memcpy` of words is little-endian, as the code assumes of the host; the output does not overlap an input.
- Floating point beyond comparison and saturating conversion: values are NaN, infinities and reals, and only conversion to double rounds. SIMD, `va_list`, inline and global assembly, debug information, symbol mangling, link sections, allocator shims, file output and the driver.
