/** C expressions as the backend builds them, the text they print to, and a reader
    for that text following section 6.5 of C11. Text is a sequence of tokens. */
module CSyntax {
  import opened Wrappers

  datatype BinOp =
    | Add | Sub | Mul | Div | Rem | Shl | Shr | BitAnd | BitOr | BitXor
    | Eq | Ne | Lt | Le | Gt | Ge | LogAnd | LogOr

  datatype UnOp = Neg | BitNot | LogNot

  datatype TypeName =
    | BoolT
    | IntT(bits: nat, signed: bool)
    | PtrWidthT(signed: bool)
    | PointerT(signExtends: bool) // whether a cast to a wider integer sign-extends is the compiler's choice
    | FloatT(bits: nat)
    | OtherT(name: string)

  /** The rendered text of one value. `Atom` and `Prefixed` are opaque texts: one
      that may carry a postfix operator, one that is a cast-expression only. */
  datatype Text =
    | Temp(id: nat)
    | Param(index: nat)
    | IntText(i: int)
    | UintText(u: int)
    | BoolText(b: bool)
    | DecimalText(d: nat)
    | RealText(r: int)  // a whole number written with `.0`
    | Atom(s: string)
    | Prefixed(s: string)

  const I64_MIN: int := -0x8000_0000_0000_0000
  const I64_MAX: int := 0x7fff_ffff_ffff_ffff

  /** A negative literal prints a leading minus; the one for I64_MIN and the
      128-bit forms print their own parentheses. */
  predicate IsPrimary(t: Text) {
    match t
    case IntText(i) => i >= 0 || i <= I64_MIN
    case RealText(r) => r >= 0
    case Prefixed(_) => false
    case _ => true
  }

  datatype CExpr =
    | Var(text: Text)
    | Lit(text: Text)
    | Bin(left: CExpr, op: BinOp, right: CExpr)
    | Un(uop: UnOp, e: CExpr)
    | Cast(ty: TypeName, e: CExpr)
    | Deref(ty: TypeName, e: CExpr)
    | AddrOf(e: CExpr)
    | Call(func: CExpr, args: seq<CExpr>)
    | Field(e: CExpr, field: string)
    | Index(e: CExpr, idx: CExpr)
    | Ternary(cond: CExpr, yes: CExpr, no: CExpr)
    | Sizeof(e: CExpr)
    | SizeofType(ty: TypeName)
    | CompoundLiteral(ty: TypeName, args: seq<CExpr>)
    | Paren(e: CExpr)

  // ----- printing -----

  datatype Punct =
    | Plus | Minus | Star | Slash | Percent | LtLt | GtGt | Amp | Pipe | Caret
    | EqEq | BangEq | Less | LessEq | Greater | GreaterEq | AmpAmp | PipePipe
    | Tilde | Bang | LParen | RParen | LBracket | RBracket | LBrace | RBrace
    | Dot | Comma | Question | Colon | SizeofKw

  datatype Token = P(p: Punct) | Word(text: Text) | Type(ty: TypeName) | Name(s: string)

  function BinPunct(op: BinOp): Punct {
    match op
    case Add => Plus case Sub => Minus case Mul => Star case Div => Slash case Rem => Percent
    case Shl => LtLt case Shr => GtGt case BitAnd => Amp case BitOr => Pipe case BitXor => Caret
    case Eq => EqEq case Ne => BangEq case Lt => Less case Le => LessEq case Gt => Greater case Ge => GreaterEq
    case LogAnd => AmpAmp case LogOr => PipePipe
  }

  function UnPunct(op: UnOp): Punct {
    match op
    case Neg => Minus
    case BitNot => Tilde
    case LogNot => Bang
  }

  /** The `Display` implementation. */
  function Print(e: CExpr): seq<Token> {
    match e
    case Var(t) => [Word(t)]
    case Lit(t) => [Word(t)]
    case Bin(l, op, r) => Print(l) + [P(BinPunct(op))] + Print(r)
    case Un(op, x) => [P(UnPunct(op)), P(LParen)] + Print(x) + [P(RParen)]
    case Cast(ty, x) => [P(LParen), Type(ty), P(RParen)] + Print(x)
    case Deref(ty, x) => [P(Star), P(LParen), Type(ty), P(RParen)] + Print(x)
    case AddrOf(x) => [P(Amp)] + Print(x)
    case Call(f, args) => Print(f) + [P(LParen)] + PrintList(args) + [P(RParen)]
    case Field(x, name) => Print(x) + [P(Dot), Name(name)]
    case Index(x, i) => Print(x) + [P(LBracket)] + Print(i) + [P(RBracket)]
    case Ternary(c, t, f) =>
      [P(LParen)] + Print(c) + [P(RParen), P(Question), P(LParen)] + Print(t) +
      [P(RParen), P(Colon), P(LParen)] + Print(f) + [P(RParen)]
    case Sizeof(x) => [P(SizeofKw), P(LParen)] + Print(x) + [P(RParen)]
    case SizeofType(ty) => [P(SizeofKw), P(LParen), Type(ty), P(RParen)]
    case CompoundLiteral(ty, elts) => [P(LParen), Type(ty), P(RParen), P(LBrace)] + PrintList(elts) + [P(RBrace)]
    case Paren(x) => [P(LParen)] + Print(x) + [P(RParen)]
  }

  function PrintList(es: seq<CExpr>): seq<Token> {
    if es == [] then []
    else if |es| == 1 then Print(es[0])
    else Print(es[0]) + [P(Comma)] + PrintList(es[1..])
  }

  // ----- the grammar -----

  /** Parse trees: every parenthesis in the text is a node. */
  datatype Tree =
    | Leaf(text: Text)
    | BinT(bop: BinOp, left: Tree, right: Tree)
    | UnT(p: Punct, t: Tree)
    | CastT(ty: TypeName, t: Tree)
    | CallT(func: Tree, args: seq<Tree>)
    | FieldT(t: Tree, field: string)
    | IndexT(t: Tree, idx: Tree)
    | CondT(cond: Tree, yes: Tree, no: Tree)
    | SizeofT(t: Tree)
    | SizeofTypeT(ty: TypeName)
    | CompoundT(ty: TypeName, args: seq<Tree>)
    | ParenT(t: Tree)

  /** Precedence of the binary operators, sections 6.5.5 to 6.5.14 of C11. */
  function Prec(op: BinOp): (p: nat)
    ensures 1 <= p <= 10
  {
    match op
    case LogOr => 1
    case LogAnd => 2
    case BitOr => 3
    case BitXor => 4
    case BitAnd => 5
    case Eq => 6 case Ne => 6
    case Lt => 7 case Le => 7 case Gt => 7 case Ge => 7
    case Shl => 8 case Shr => 8
    case Add => 9 case Sub => 9
    case Mul => 10 case Div => 10 case Rem => 10
  }

  function BinOf(p: Punct): Option<BinOp> {
    match p
    case Plus => Some(Add) case Minus => Some(Sub) case Star => Some(Mul) case Slash => Some(Div)
    case Percent => Some(Rem)
    case LtLt => Some(Shl) case GtGt => Some(Shr) case Amp => Some(BitAnd) case Pipe => Some(BitOr)
    case Caret => Some(BitXor)
    case EqEq => Some(Eq) case BangEq => Some(Ne) case Less => Some(Lt) case LessEq => Some(Le)
    case Greater => Some(Gt) case GreaterEq => Some(Ge) case AmpAmp => Some(LogAnd) case PipePipe => Some(LogOr)
    case _ => None
  }

  predicate IsUnary(p: Punct) {
    p.Minus? || p.Tilde? || p.Bang? || p.Star? || p.Amp?
  }

  predicate At(s: seq<Token>, p: Punct) {
    s != [] && s[0] == P(p)
  }

  /** `( type-name )` at the front. */
  predicate AtType(s: seq<Token>) {
    |s| >= 3 && s[0] == P(LParen) && s[1].Type? && s[2] == P(RParen)
  }

  /** The binary operator at the front, if there is one. */
  function Operator(s: seq<Token>): Option<BinOp> {
    if s != [] && s[0].P? then BinOf(s[0].p) else None
  }

  datatype Read<T> = Error | Got(t: T, rest: seq<Token>)

  // conditional-expression
  function ReadExpr(s: seq<Token>): (r: Read<Tree>)
    ensures r.Got? ==> |r.rest| < |s|
    decreases |s|, 5
  {
    match ReadBin(s, 1)
    case Error => Error
    case Got(c, s1) =>
      if !At(s1, Question) then Got(c, s1)
      else
        match ReadExpr(s1[1..])
        case Error => Error
        case Got(t, s2) =>
          if !At(s2, Colon) then Error
          else
            match ReadExpr(s2[1..])
            case Error => Error
            case Got(f, s3) => Got(CondT(c, t, f), s3)
  }

  // multiplicative- to logical-OR-expression, operators of precedence p and up
  function ReadBin(s: seq<Token>, p: nat): (r: Read<Tree>)
    ensures r.Got? ==> |r.rest| < |s|
    decreases |s|, 4
  {
    match ReadCast(s)
    case Error => Error
    case Got(t, rest) => ReadBinTail(t, rest, p)
  }

  function ReadBinTail(left: Tree, s: seq<Token>, p: nat): (r: Read<Tree>)
    ensures r.Got? ==> |r.rest| <= |s|
    decreases |s|, 3
  {
    match Operator(s)
    case None => Got(left, s)
    case Some(op) =>
      if Prec(op) < p then Got(left, s)
      else
        match ReadBin(s[1..], Prec(op) + 1)
        case Error => Error
        case Got(right, rest) => ReadBinTail(BinT(op, left, right), rest, p)
  }

  // cast-expression
  function ReadCast(s: seq<Token>): (r: Read<Tree>)
    ensures r.Got? ==> |r.rest| < |s|
    decreases |s|, 3
  {
    if AtType(s) && !At(s[3..], LBrace) then
      match ReadCast(s[3..])
      case Error => Error
      case Got(t, rest) => Got(CastT(s[1].ty, t), rest)
    else if s != [] && s[0].Word? && !IsPrimary(s[0].text) then Got(Leaf(s[0].text), s[1..])
    else ReadUnary(s)
  }

  // unary-expression
  function ReadUnary(s: seq<Token>): (r: Read<Tree>)
    ensures r.Got? ==> |r.rest| < |s|
    decreases |s|, 2
  {
    if s != [] && s[0].P? && IsUnary(s[0].p) then
      match ReadCast(s[1..])
      case Error => Error
      case Got(t, rest) => Got(UnT(s[0].p, t), rest)
    else if At(s, SizeofKw) then
      if AtType(s[1..]) then Got(SizeofTypeT(s[2].ty), s[4..])
      else
        match ReadUnary(s[1..])
        case Error => Error
        case Got(t, rest) => Got(SizeofT(t), rest)
    else ReadPostfix(s)
  }

  // postfix-expression
  function ReadPostfix(s: seq<Token>): (r: Read<Tree>)
    ensures r.Got? ==> |r.rest| < |s|
    decreases |s|, 1
  {
    match ReadPrimary(s)
    case Error => Error
    case Got(t, rest) => ReadPostfixTail(t, rest)
  }

  // primary-expression, or a compound literal
  function ReadPrimary(s: seq<Token>): (r: Read<Tree>)
    ensures r.Got? ==> |r.rest| < |s|
    decreases |s|, 0
  {
    if AtType(s) then
      if !At(s[3..], LBrace) then Error
      else
        match ReadList(s[4..], RBrace)
        case Error => Error
        case Got(elts, rest) => Got(CompoundT(s[1].ty, elts), rest)
    else if At(s, LParen) then
      match ReadExpr(s[1..])
      case Error => Error
      case Got(t, rest) => if At(rest, RParen) then Got(ParenT(t), rest[1..]) else Error
    else if s != [] && s[0].Word? then Got(Leaf(s[0].text), s[1..])
    else Error
  }

  function ReadPostfixTail(t: Tree, s: seq<Token>): (r: Read<Tree>)
    ensures r.Got? ==> |r.rest| <= |s|
    decreases |s|, 0
  {
    if At(s, LBracket) then
      match ReadExpr(s[1..])
      case Error => Error
      case Got(i, rest) => if At(rest, RBracket) then ReadPostfixTail(IndexT(t, i), rest[1..]) else Error
    else if At(s, LParen) then
      match ReadList(s[1..], RParen)
      case Error => Error
      case Got(args, rest) => ReadPostfixTail(CallT(t, args), rest)
    else if At(s, Dot) then
      if |s| > 1 && s[1].Name? then ReadPostfixTail(FieldT(t, s[1].s), s[2..]) else Error
    else Got(t, s)
  }

  // comma-separated expressions up to and including the closing token
  function ReadList(s: seq<Token>, close: Punct): (r: Read<seq<Tree>>)
    ensures r.Got? ==> |r.rest| < |s|
    decreases |s|, 7
  {
    if At(s, close) then Got([], s[1..])
    else ReadItems(s, close)
  }

  function ReadItems(s: seq<Token>, close: Punct): (r: Read<seq<Tree>>)
    ensures r.Got? ==> |r.rest| < |s|
    decreases |s|, 6
  {
    match ReadExpr(s)
    case Error => Error
    case Got(t, rest) =>
      if At(rest, close) then Got([t], rest[1..])
      else if At(rest, Comma) then
        match ReadItems(rest[1..], close)
        case Error => Error
        case Got(ts, rest') => Got([t] + ts, rest')
      else Error
  }

  // ----- shape -----

  /** How tightly the text of an expression binds. */
  function Level(e: CExpr): nat {
    match e
    case Ternary(_, _, _) => 0
    case Bin(_, op, _) => Prec(op)
    case Cast(_, _) => 11
    case Un(_, _) => 12
    case Deref(_, _) => 12
    case AddrOf(_) => 12
    case Sizeof(_) => 12
    case SizeofType(_) => 12
    case Var(t) => if IsPrimary(t) then 14 else 11
    case Lit(t) => if IsPrimary(t) then 14 else 11
    case Call(_, _) => 13
    case Field(_, _) => 13
    case Index(_, _) => 13
    case CompoundLiteral(_, _) => 13
    case Paren(_) => 14
  }

  /** The first token of the text. */
  function Front(e: CExpr): Token {
    match e
    case Var(t) => Word(t)
    case Lit(t) => Word(t)
    case Bin(l, _, _) => Front(l)
    case Un(op, _) => P(UnPunct(op))
    case Deref(_, _) => P(Star)
    case AddrOf(_) => P(Amp)
    case Call(f, _) => Front(f)
    case Field(x, _) => Front(x)
    case Index(x, _) => Front(x)
    case Sizeof(_) => P(SizeofKw)
    case SizeofType(_) => P(SizeofKw)
    case _ => P(LParen)
  }

  /** The first character of a leaf's text, with '0' for any digit. */
  function TextChar(t: Text): char {
    match t
    case Temp(_) => '_'
    case Param(_) => '_'
    case IntText(i) => if 0 <= i <= I64_MAX then '0' else if I64_MIN < i < 0 then '-' else '('
    case UintText(u) => if u < 0x1_0000_0000_0000_0000 then '0' else '('
    case BoolText(_) => '0'
    case DecimalText(_) => '0'
    case RealText(r) => if r >= 0 then '0' else '-'
    case Atom(s) => if s == "" then ' ' else s[0]
    case Prefixed(s) => if s == "" then ' ' else s[0]
  }

  /** `&` directly before this character is read as part of a longer operator. */
  predicate AmpContinues(c: char) {
    c == '&' || c == '='
  }

  /** `&` and the front of the operand's text stay two tokens. */
  predicate AddressApart(x: CExpr) {
    match Front(x)
    case P(p) => !p.Amp?
    case Word(t) => !AmpContinues(TextChar(t))
    case _ => true
  }

  /** A number directly before a dot is read as one number with it. */
  predicate IsNumber(e: CExpr) {
    (e.Var? || e.Lit?) && '0' <= TextChar(e.text) <= '9'
  }

  /** Every operand binds at least as tightly as its place demands, and no token
      merges with the one after it. */
  predicate Shaped(e: CExpr) {
    match e
    case Var(_) => true
    case Lit(_) => true
    case Bin(l, op, r) => Shaped(l) && Shaped(r) && Level(l) >= Prec(op) && Level(r) > Prec(op)
    case Un(_, x) => Shaped(x)
    case Cast(_, x) => Shaped(x) && Level(x) >= 11
    case Deref(_, x) => Shaped(x) && Level(x) >= 11
    case AddrOf(x) => Shaped(x) && Level(x) >= 11 && AddressApart(x)
    case Call(f, args) => Shaped(f) && Level(f) >= 13 && forall a | a in args :: Shaped(a)
    case Field(x, _) => Shaped(x) && Level(x) >= 13 && !IsNumber(x)
    case Index(x, i) => Shaped(x) && Level(x) >= 13 && Shaped(i)
    case Ternary(c, t, f) => Shaped(c) && Shaped(t) && Shaped(f)
    case Sizeof(x) => Shaped(x)
    case SizeofType(_) => true
    case CompoundLiteral(_, elts) => forall a | a in elts :: Shaped(a)
    case Paren(x) => Shaped(x)
  }

  lemma BinShaped(l: CExpr, op: BinOp, r: CExpr)
    requires Shaped(l) && Shaped(r) && Level(l) >= Prec(op) && Level(r) > Prec(op)
    ensures Shaped(Paren(Bin(l, op, r))) && Level(Paren(Bin(l, op, r))) == 14
    ensures Shaped(Bin(l, op, r)) && Level(Bin(l, op, r)) == Prec(op)
  {
  }

  lemma LeafShaped(t: Text)
    ensures Shaped(Var(t)) && Shaped(Lit(t)) && Level(Var(t)) >= 11 && Level(Lit(t)) >= 11
  {
  }

  /** The parse tree the node stands for; the printer's own parentheses appear. */
  function Reading(e: CExpr): Tree {
    match e
    case Var(t) => Leaf(t)
    case Lit(t) => Leaf(t)
    case Bin(l, op, r) => BinT(op, Reading(l), Reading(r))
    case Un(op, x) => UnT(UnPunct(op), ParenT(Reading(x)))
    case Cast(ty, x) => CastT(ty, Reading(x))
    case Deref(ty, x) => UnT(Star, CastT(ty, Reading(x)))
    case AddrOf(x) => UnT(Amp, Reading(x))
    case Call(f, args) => CallT(Reading(f), Readings(args))
    case Field(x, name) => FieldT(Reading(x), name)
    case Index(x, i) => IndexT(Reading(x), Reading(i))
    case Ternary(c, t, f) => CondT(ParenT(Reading(c)), ParenT(Reading(t)), ParenT(Reading(f)))
    case Sizeof(x) => SizeofT(ParenT(Reading(x)))
    case SizeofType(ty) => SizeofTypeT(ty)
    case CompoundLiteral(ty, elts) => CompoundT(ty, Readings(elts))
    case Paren(x) => ParenT(Reading(x))
  }

  function Readings(es: seq<CExpr>): seq<Tree> {
    if es == [] then [] else [Reading(es[0])] + Readings(es[1..])
  }

  // ----- printing, then reading -----

  /** No postfix operator follows. */
  predicate NoPostfix(s: seq<Token>) {
    !At(s, LParen) && !At(s, LBracket) && !At(s, Dot)
  }

  /** Tokens an expression can start with. */
  predicate Starts(t: Token) {
    t.Word? || (t.P? && (IsUnary(t.p) || t.p.LParen? || t.p.SizeofKw?))
  }

  lemma {:induction false} FirstToken(e: CExpr)
    ensures Print(e) != [] && Print(e)[0] == Front(e) && Starts(Front(e))
  {
    match e
    case Bin(l, _, _) => FirstToken(l);
    case Call(f, _) => FirstToken(f);
    case Field(x, _) => FirstToken(x);
    case Index(x, _) => FirstToken(x);
    case _ =>
  }

  /** The front of a postfix-expression sends the reader to ReadPostfix. */
  predicate PostfixFront(s: seq<Token>) {
    && s != []
    && (s[0].Word? || s[0] == P(LParen))
    && (s[0].Word? ==> IsPrimary(s[0].text))
    && (AtType(s) ==> At(s[3..], LBrace))
  }

  lemma ViaPostfix(s: seq<Token>)
    requires PostfixFront(s)
    ensures ReadCast(s) == ReadUnary(s) == ReadPostfix(s)
  {
  }

  // one step of each reader
  lemma StepTernary(s: seq<Token>, c: Tree, s1: seq<Token>, t: Tree, s2: seq<Token>, f: Tree, s3: seq<Token>)
    requires ReadBin(s, 1) == Got(c, s1) && At(s1, Question)
    requires ReadExpr(s1[1..]) == Got(t, s2) && At(s2, Colon)
    requires ReadExpr(s2[1..]) == Got(f, s3)
    ensures ReadExpr(s) == Got(CondT(c, t, f), s3)
  {
    hide ReadBin;
  }

  lemma StepBin(s: seq<Token>, t: Tree, rest: seq<Token>, p: nat)
    requires ReadCast(s) == Got(t, rest)
    ensures ReadBin(s, p) == ReadBinTail(t, rest, p)
  {
    hide ReadCast, ReadBinTail;
  }

  lemma StepBinTail(left: Tree, s: seq<Token>, op: BinOp, right: Tree, rest: seq<Token>, p: nat)
    requires Operator(s) == Some(op) && Prec(op) >= p && ReadBin(s[1..], Prec(op) + 1) == Got(right, rest)
    ensures ReadBinTail(left, s, p) == ReadBinTail(BinT(op, left, right), rest, p)
  {
    hide ReadBin;
  }

  lemma StopBinTail(left: Tree, s: seq<Token>, p: nat)
    requires Operator(s).Some? ==> Prec(Operator(s).value) < p
    ensures ReadBinTail(left, s, p) == Got(left, s)
  {
  }

  lemma StopExpr(s: seq<Token>, t: Tree, rest: seq<Token>)
    requires ReadBin(s, 1) == Got(t, rest) && !At(rest, Question)
    ensures ReadExpr(s) == Got(t, rest)
  {
    hide ReadBin;
  }

  lemma StepCast(s: seq<Token>, t: Tree, rest: seq<Token>)
    requires AtType(s) && !At(s[3..], LBrace) && ReadCast(s[3..]) == Got(t, rest)
    ensures ReadCast(s) == Got(CastT(s[1].ty, t), rest)
  {
    hide ReadUnary;
  }

  lemma StepUnary(s: seq<Token>, t: Tree, rest: seq<Token>)
    requires s != [] && s[0].P? && IsUnary(s[0].p) && ReadCast(s[1..]) == Got(t, rest)
    ensures ReadCast(s) == Got(UnT(s[0].p, t), rest)
  {
    hide ReadPostfix;
    assert ReadCast(s) == ReadUnary(s);
  }

  lemma StepItems(s: seq<Token>, t: Tree, rest: seq<Token>, ts: seq<Tree>, rest': seq<Token>, close: Punct)
    requires close == RParen || close == RBrace
    requires ReadExpr(s) == Got(t, rest) && At(rest, Comma) && ReadItems(rest[1..], close) == Got(ts, rest')
    ensures ReadItems(s, close) == Got([t] + ts, rest')
  {
    hide ReadExpr;
  }

  lemma {:induction false} FrontOfPostfix(e: CExpr, rest: seq<Token>)
    requires Shaped(e) && Level(e) >= 13
    ensures PostfixFront(Print(e) + rest)
  {
    hide PostfixFront;
    if e.Call? {
      FrontOfPostfix(e.func, [P(LParen)] + PrintList(e.args) + [P(RParen)] + rest);
      assert Print(e) + rest == Print(e.func) + ([P(LParen)] + PrintList(e.args) + [P(RParen)] + rest);
    } else if e.Field? {
      FrontOfPostfix(e.e, [P(Dot), Name(e.field)] + rest);
      assert Print(e) + rest == Print(e.e) + ([P(Dot), Name(e.field)] + rest);
    } else if e.Index? {
      FrontOfPostfix(e.e, [P(LBracket)] + Print(e.idx) + [P(RBracket)] + rest);
      assert Print(e) + rest == Print(e.e) + ([P(LBracket)] + Print(e.idx) + [P(RBracket)] + rest);
    } else {
      FrontOfPrimary(e, rest);
    }
  }

  lemma FrontOfPrimary(e: CExpr, rest: seq<Token>)
    requires Shaped(e) && Level(e) >= 13 && !e.Call? && !e.Field? && !e.Index?
    ensures PostfixFront(Print(e) + rest)
  {
    if e.Paren? {
      FirstToken(e.e);
      assert (Print(e) + rest)[1] == Print(e.e)[0];
    }
  }

  /** A parenthesized expression, read as a primary-expression. */
  lemma {:induction false} ReadsParen(x: CExpr, rest: seq<Token>)
    requires Shaped(x)
    ensures var s := [P(LParen)] + Print(x) + [P(RParen)] + rest;
            PostfixFront(s) && !AtType(s) && ReadPrimary(s) == Got(ParenT(Reading(x)), rest)
    decreases x, 5
  {
    var s := [P(LParen)] + Print(x) + [P(RParen)] + rest;
    FirstToken(x);
    assert s[1] == Print(x)[0];
    assert s[1..] == Print(x) + ([P(RParen)] + rest);
    ReadsExpr(x, [P(RParen)] + rest);
  }

  lemma {:induction false} ReadsExpr(e: CExpr, rest: seq<Token>)
    requires Shaped(e) && NoPostfix(rest) && Operator(rest).None? && !At(rest, Question)
    ensures ReadExpr(Print(e) + rest) == Got(Reading(e), rest)
    decreases e, 4
  {
    if e.Ternary? {
      ReadsTernary(e, rest);
    } else {
      ReadsBin(e, rest, 1);
      StopBinTail(Reading(e), rest, 1);
      StopExpr(Print(e) + rest, Reading(e), rest);
    }
  }

  lemma {:induction false} ReadsTernary(e: CExpr, rest: seq<Token>)
    requires Shaped(e) && e.Ternary? && NoPostfix(rest) && Operator(rest).None? && !At(rest, Question)
    ensures ReadExpr(Print(e) + rest) == Got(Reading(e), rest)
    decreases e, 3
  {
    hide ReadExpr, ReadBin, ReadBinTail, ReadCast, ReadUnary, ReadPostfix, ReadPrimary, ReadPostfixTail, ReadList,
         ReadItems, NoPostfix, Operator, PostfixFront;
    var s3 := [P(LParen)] + Print(e.no) + [P(RParen)] + rest;
    var s2 := [P(LParen)] + Print(e.yes) + [P(RParen)] + ([P(Colon)] + s3);
    var s1 := [P(LParen)] + Print(e.cond) + [P(RParen)] + ([P(Question)] + s2);
    PrintTernary(e, rest);
    Separator(Colon, s3);
    Separator(Question, s2);
    ReadsParen(e.no, rest);
    ReadsParen(e.yes, [P(Colon)] + s3);
    ReadsParen(e.cond, [P(Question)] + s2);
    ParenToExpr(s3, ParenT(Reading(e.no)), rest);
    ParenToExpr(s2, ParenT(Reading(e.yes)), [P(Colon)] + s3);
    ParenToBin(s1, ParenT(Reading(e.cond)), [P(Question)] + s2);
    StepTernary(s1, ParenT(Reading(e.cond)), [P(Question)] + s2, ParenT(Reading(e.yes)), [P(Colon)] + s3,
                ParenT(Reading(e.no)), rest);
  }

  lemma PrintTernary(e: CExpr, rest: seq<Token>)
    requires e.Ternary?
    ensures var s3 := [P(LParen)] + Print(e.no) + [P(RParen)] + rest;
            var s2 := [P(LParen)] + Print(e.yes) + [P(RParen)] + ([P(Colon)] + s3);
            Print(e) + rest == [P(LParen)] + Print(e.cond) + [P(RParen)] + ([P(Question)] + s2)
  {
    var c, y, n := Print(e.cond), Print(e.yes), Print(e.no);
    hide Print;
    PrintTernaryParts(e);
  }

  lemma PrintTernaryParts(e: CExpr)
    requires e.Ternary?
    ensures Print(e) == [P(LParen)] + Print(e.cond) + [P(RParen)] + [P(Question)] + [P(LParen)] + Print(e.yes)
            + [P(RParen)] + [P(Colon)] + [P(LParen)] + Print(e.no) + [P(RParen)]
  {
  }

  /** Punctuation no operand can continue across. */
  lemma Separator(p: Punct, s: seq<Token>)
    requires p.Question? || p.Colon? || p.RParen?
    ensures var t := [P(p)] + s;
            NoPostfix(t) && Operator(t).None? && At(t, p) && (!p.Question? ==> !At(t, Question)) && t[1..] == s
  {
  }

  lemma ParenToCast(s: seq<Token>, t: Tree, rest: seq<Token>)
    requires PostfixFront(s) && ReadPrimary(s) == Got(t, rest) && NoPostfix(rest)
    ensures ReadCast(s) == ReadUnary(s) == Got(t, rest)
  {
    ViaPostfix(s);
  }

  lemma ParenToBin(s: seq<Token>, t: Tree, rest: seq<Token>)
    requires PostfixFront(s) && ReadPrimary(s) == Got(t, rest)
    requires NoPostfix(rest) && Operator(rest).None?
    ensures ReadBin(s, 1) == Got(t, rest)
  {
    hide ReadExpr, ReadBin, ReadBinTail, ReadCast, ReadUnary, ReadPostfix, ReadPrimary, ReadPostfixTail, ReadList,
         ReadItems;
    ParenToCast(s, t, rest);
    StepBin(s, t, rest, 1);
    StopBinTail(t, rest, 1);
  }

  lemma ParenToExpr(s: seq<Token>, t: Tree, rest: seq<Token>)
    requires PostfixFront(s) && ReadPrimary(s) == Got(t, rest)
    requires NoPostfix(rest) && Operator(rest).None? && !At(rest, Question)
    ensures ReadExpr(s) == Got(t, rest)
  {
    hide ReadExpr, ReadBin, ReadBinTail, ReadCast, ReadUnary, ReadPostfix, ReadPrimary, ReadPostfixTail, ReadList,
         ReadItems;
    ParenToBin(s, t, rest);
    StopExpr(s, t, rest);
  }

  lemma {:induction false} ReadsBin(e: CExpr, rest: seq<Token>, p: nat)
    requires Shaped(e) && 1 <= p <= Level(e) && NoPostfix(rest)
    requires Operator(rest).Some? ==> Prec(Operator(rest).value) <= Level(e)
    ensures ReadBin(Print(e) + rest, p) == ReadBinTail(Reading(e), rest, p)
    decreases e, 3
  {
    hide ReadExpr, ReadBin, ReadBinTail, ReadCast, ReadUnary, ReadPostfix, ReadPrimary, ReadPostfixTail, ReadList,
         ReadItems, AddressApart, IsNumber;
    if e.Bin? {
      var s := [P(BinPunct(e.op))] + (Print(e.right) + rest);
      OperatorFront(e.op, Print(e.right) + rest);
      ReadsBin(e.left, s, p);
      ReadsBin(e.right, rest, Prec(e.op) + 1);
      BinReads(e.left, e.op, e.right, rest, p);
    } else {
      ReadsCast(e, rest);
      StepBin(Print(e) + rest, Reading(e), rest, p);
    }
  }

  lemma OperatorFront(op: BinOp, s: seq<Token>)
    ensures var t := [P(BinPunct(op))] + s; NoPostfix(t) && Operator(t) == Some(op) && t[1..] == s
  {
  }

  lemma BinReads(l: CExpr, op: BinOp, r: CExpr, rest: seq<Token>, p: nat)
    requires Prec(op) >= p && (Operator(rest).Some? ==> Prec(Operator(rest).value) <= Prec(op))
    requires var s := [P(BinPunct(op))] + (Print(r) + rest); ReadBin(Print(l) + s, p) == ReadBinTail(Reading(l), s, p)
    requires ReadBin(Print(r) + rest, Prec(op) + 1) == ReadBinTail(Reading(r), rest, Prec(op) + 1)
    ensures ReadBin(Print(Bin(l, op, r)) + rest, p) == ReadBinTail(Reading(Bin(l, op, r)), rest, p)
  {
    hide ReadBin, ReadBinTail;
    var s := [P(BinPunct(op))] + (Print(r) + rest);
    assert Print(Bin(l, op, r)) + rest == Print(l) + s;
    OperatorFront(op, Print(r) + rest);
    StopBinTail(Reading(r), rest, Prec(op) + 1);
    StepBinTail(Reading(l), s, op, Reading(r), rest, p);
  }

  lemma {:induction false} ReadsCast(e: CExpr, rest: seq<Token>)
    requires Shaped(e) && Level(e) >= 11 && NoPostfix(rest)
    ensures ReadCast(Print(e) + rest) == Got(Reading(e), rest)
    decreases e, 2
  {
    hide ReadExpr, ReadBin, ReadBinTail, ReadCast, ReadUnary, ReadPostfix, ReadPrimary, ReadPostfixTail, ReadList,
         ReadItems;
    var s := Print(e) + rest;
    if e.Cast? {
      FirstToken(e.e);
      assert s[3..] == Print(e.e) + rest;
      ReadsCast(e.e, rest);
      StepCast(s, Reading(e.e), rest);
    } else if e.Un? || e.Deref? || e.AddrOf? {
      ReadsUnary(e, rest);
    } else if Level(e) < 13 {
      ReadsSizeof(e, rest);
    } else {
      FrontOfPostfix(e, rest);
      ViaPostfix(s);
      ReadsPostfix(e, rest);
      StopPostfix(Reading(e), rest);
    }
  }

  lemma {:induction false} ReadsUnary(e: CExpr, rest: seq<Token>)
    requires Shaped(e) && (e.Un? || e.Deref? || e.AddrOf?) && NoPostfix(rest)
    ensures ReadCast(Print(e) + rest) == Got(Reading(e), rest)
    decreases e, 0
  {
    hide ReadCast;
    if e.Un? {
      ReadsParen(e.e, rest);
      ReadsOperator(e.uop, e.e, rest);
    } else if e.Deref? {
      ReadsCast(e.e, rest);
      ReadsDeref(e.ty, e.e, rest);
    } else {
      ReadsCast(e.e, rest);
      ReadsAddrOf(e.e, rest);
    }
  }

  lemma ReadsOperator(op: UnOp, x: CExpr, rest: seq<Token>)
    requires NoPostfix(rest)
    requires var s := [P(LParen)] + Print(x) + [P(RParen)] + rest;
             PostfixFront(s) && ReadPrimary(s) == Got(ParenT(Reading(x)), rest)
    ensures ReadCast(Print(Un(op, x)) + rest) == Got(Reading(Un(op, x)), rest)
  {
    hide ReadExpr, ReadBin, ReadBinTail, ReadCast, ReadUnary, ReadPostfix, ReadPrimary, ReadPostfixTail, ReadList,
         ReadItems, NoPostfix, PostfixFront;
    var s, s1 := Print(Un(op, x)) + rest, [P(LParen)] + Print(x) + [P(RParen)] + rest;
    assert s == [P(UnPunct(op))] + s1;
    ParenToCast(s1, ParenT(Reading(x)), rest);
    StepUnary(s, ParenT(Reading(x)), rest);
  }

  lemma ReadsDeref(ty: TypeName, x: CExpr, rest: seq<Token>)
    requires ReadCast(Print(x) + rest) == Got(Reading(x), rest)
    ensures ReadCast(Print(Deref(ty, x)) + rest) == Got(Reading(Deref(ty, x)), rest)
  {
    hide ReadExpr, ReadBin, ReadBinTail, ReadCast, ReadUnary, ReadPostfix, ReadPrimary, ReadPostfixTail, ReadList,
         ReadItems, Print, PrintList;
    FirstToken(x);
    var s, s1 := Print(Deref(ty, x)) + rest, [P(LParen), Type(ty), P(RParen)] + (Print(x) + rest);
    PrintDeref(ty, x);
    assert s == [P(Star)] + s1;
    assert s1[3..] == Print(x) + rest;
    StepCast(s1, Reading(x), rest);
    StepUnary(s, CastT(ty, Reading(x)), rest);
  }

  lemma PrintDeref(ty: TypeName, x: CExpr)
    ensures Print(Deref(ty, x)) == [P(Star)] + ([P(LParen), Type(ty), P(RParen)] + Print(x))
  {
  }

  lemma ReadsAddrOf(x: CExpr, rest: seq<Token>)
    requires ReadCast(Print(x) + rest) == Got(Reading(x), rest)
    ensures ReadCast(Print(AddrOf(x)) + rest) == Got(Reading(AddrOf(x)), rest)
  {
    hide ReadExpr, ReadBin, ReadBinTail, ReadCast, ReadUnary, ReadPostfix, ReadPrimary, ReadPostfixTail, ReadList,
         ReadItems;
    var s := Print(AddrOf(x)) + rest;
    assert s == [P(Amp)] + (Print(x) + rest);
    StepUnary(s, Reading(x), rest);
  }

  lemma StopPostfix(t: Tree, rest: seq<Token>)
    requires NoPostfix(rest)
    ensures ReadPostfixTail(t, rest) == Got(t, rest)
  {
  }

  lemma {:induction false} ReadsSizeof(e: CExpr, rest: seq<Token>)
    requires Shaped(e) && NoPostfix(rest)
    requires e.Sizeof? || e.SizeofType? || ((e.Var? || e.Lit?) && Level(e) == 11)
    ensures ReadCast(Print(e) + rest) == Got(Reading(e), rest)
    decreases e, 0
  {
    var s := Print(e) + rest;
    match e
    case Sizeof(x) =>
      var s1 := [P(LParen)] + Print(x) + [P(RParen)] + rest;
      assert s == [P(SizeofKw)] + s1;
      ReadsParen(x, rest);
      ParenToCast(s1, ParenT(Reading(x)), rest);
      hide ReadPostfix;
      assert ReadCast(s) == ReadUnary(s);
    case SizeofType(ty) =>
      assert s[1..] == [P(LParen), Type(ty), P(RParen)] + rest;
      assert s[4..] == rest;
      hide ReadPostfix;
      assert ReadCast(s) == ReadUnary(s);
    case _ =>
  }

  lemma StepCall(t: Tree, s: seq<Token>, args: seq<Tree>, rest: seq<Token>)
    requires At(s, LParen) && ReadList(s[1..], RParen) == Got(args, rest)
    ensures ReadPostfixTail(t, s) == ReadPostfixTail(CallT(t, args), rest)
  {
    hide ReadList;
  }

  lemma StepIndex(t: Tree, s: seq<Token>, i: Tree, rest: seq<Token>)
    requires At(s, LBracket) && ReadExpr(s[1..]) == Got(i, [P(RBracket)] + rest)
    ensures ReadPostfixTail(t, s) == ReadPostfixTail(IndexT(t, i), rest)
  {
    hide ReadExpr;
    assert ([P(RBracket)] + rest)[1..] == rest;
  }

  lemma StepPostfix(s: seq<Token>, t: Tree, rest: seq<Token>)
    requires ReadPrimary(s) == Got(t, rest)
    ensures ReadPostfix(s) == ReadPostfixTail(t, rest)
  {
    hide ReadPrimary, ReadPostfixTail;
  }

  lemma {:induction false} ReadsPostfix(e: CExpr, rest: seq<Token>)
    requires Shaped(e) && Level(e) >= 13
    ensures ReadPostfix(Print(e) + rest) == ReadPostfixTail(Reading(e), rest)
    decreases e, 1
  {
    var s := Print(e) + rest;
    if e.Call? {
      ReadsCall(e, rest);
    } else if e.Index? {
      ReadsIndex(e, rest);
    } else if e.CompoundLiteral? {
      ReadsCompound(e, rest);
    } else if e.Field? {
      var s1 := [P(Dot), Name(e.field)] + rest;
      assert s == Print(e.e) + s1;
      assert s1[2..] == rest;
      ReadsPostfix(e.e, s1);
    } else if e.Paren? {
      ReadsParen(e.e, rest);
      StepPostfix(s, ParenT(Reading(e.e)), rest);
    } else {
      assert s[1..] == rest;
      assert ReadPrimary(s) == Got(Reading(e), rest);
      StepPostfix(s, Reading(e), rest);
    }
  }

  lemma {:induction false} ReadsCall(e: CExpr, rest: seq<Token>)
    requires Shaped(e) && e.Call?
    ensures ReadPostfix(Print(e) + rest) == ReadPostfixTail(Reading(e), rest)
    decreases e, 0
  {
    var s2 := PrintList(e.args) + [P(RParen)] + rest;
    var s1 := [P(LParen)] + s2;
    assert Print(e) + rest == Print(e.func) + s1;
    assert s1[1..] == s2;
    hide ReadPostfix, ReadPostfixTail, ReadList;
    ReadsPostfix(e.func, s1);
    ReadsList(e.args, RParen, rest);
    StepCall(Reading(e.func), s1, Readings(e.args), rest);
  }

  lemma {:induction false} ReadsIndex(e: CExpr, rest: seq<Token>)
    requires Shaped(e) && e.Index?
    ensures ReadPostfix(Print(e) + rest) == ReadPostfixTail(Reading(e), rest)
    decreases e, 0
  {
    var s2 := Print(e.idx) + ([P(RBracket)] + rest);
    var s1 := [P(LBracket)] + s2;
    assert Print(e) + rest == Print(e.e) + s1;
    assert s1[1..] == s2;
    hide ReadPostfix, ReadPostfixTail, ReadExpr;
    ReadsPostfix(e.e, s1);
    ReadsExpr(e.idx, [P(RBracket)] + rest);
    StepIndex(Reading(e.e), s1, Reading(e.idx), rest);
  }

  lemma {:induction false} ReadsCompound(e: CExpr, rest: seq<Token>)
    requires Shaped(e) && e.CompoundLiteral?
    ensures ReadPostfix(Print(e) + rest) == ReadPostfixTail(Reading(e), rest)
    decreases e, 0
  {
    var s := Print(e) + rest;
    assert s[4..] == PrintList(e.args) + [P(RBrace)] + rest;
    ReadsList(e.args, RBrace, rest);
    hide ReadList, ReadExpr;
    assert ReadPrimary(s) == Got(Reading(e), rest);
    StepPostfix(s, Reading(e), rest);
  }

  lemma {:induction false} ReadsList(es: seq<CExpr>, close: Punct, rest: seq<Token>)
    requires close == RParen || close == RBrace
    requires forall e | e in es :: Shaped(e)
    ensures ReadList(PrintList(es) + [P(close)] + rest, close) == Got(Readings(es), rest)
    decreases es, 1
  {
    if es != [] {
      FirstToken(es[0]);
      assert PrintList(es)[0] == Print(es[0])[0];
      ReadsItems(es, close, rest);
    }
  }

  lemma {:induction false} ReadsItems(es: seq<CExpr>, close: Punct, rest: seq<Token>)
    requires es != [] && (close == RParen || close == RBrace)
    requires forall e | e in es :: Shaped(e)
    ensures ReadItems(PrintList(es) + [P(close)] + rest, close) == Got(Readings(es), rest)
    decreases es, 0
  {
    hide ReadExpr, ReadItems, Print, PrintList, Reading, Readings, Shaped;
    ListStep(es);
    if |es| == 1 {
      ReadsLastItem(es[0], close, rest);
    } else {
      var s1 := PrintList(es[1..]) + [P(close)] + rest;
      assert PrintList(es) + [P(close)] + rest == Print(es[0]) + ([P(Comma)] + s1);
      CommaEnds(s1);
      ReadsExpr(es[0], [P(Comma)] + s1);
      ReadsItems(es[1..], close, rest);
      StepItems(Print(es[0]) + ([P(Comma)] + s1), Reading(es[0]), [P(Comma)] + s1, Readings(es[1..]), rest, close);
    }
  }

  lemma ListStep(es: seq<CExpr>)
    requires es != []
    ensures PrintList(es) == if |es| == 1 then Print(es[0]) else Print(es[0]) + [P(Comma)] + PrintList(es[1..])
    ensures Readings(es) == [Reading(es[0])] + Readings(es[1..])
    ensures |es| == 1 ==> Readings(es) == [Reading(es[0])]
  {
    hide Print, Reading;
  }

  lemma CommaEnds(s: seq<Token>)
    ensures var t := [P(Comma)] + s;
            NoPostfix(t) && Operator(t).None? && !At(t, Question) && At(t, Comma) && t[1..] == s
  {
  }

  lemma {:induction false} ReadsLastItem(e: CExpr, close: Punct, rest: seq<Token>)
    requires Shaped(e) && (close == RParen || close == RBrace)
    ensures ReadItems(Print(e) + [P(close)] + rest, close) == Got([Reading(e)], rest)
    decreases e, 6
  {
    var s := Print(e) + [P(close)] + rest;
    assert s == Print(e) + ([P(close)] + rest);
    ReadsExpr(e, [P(close)] + rest);
    assert ([P(close)] + rest)[1..] == rest;
    hide ReadExpr;
  }

  /** The printed text of a well-shaped expression means that expression. */
  lemma PrintThenRead(e: CExpr)
    requires Shaped(e)
    ensures ReadExpr(Print(e)) == Got(Reading(e), [])
  {
    ReadsExpr(e, []);
    assert Print(e) + [] == Print(e);
  }
}
