/** The printed characters, spaces included: no two neighbouring tokens are read as
    one by a C lexer, which always takes the longest token it can. */
module CLexing {
  import opened Wrappers
  import opened CSyntax

  datatype Piece = Space | Tok(t: Token)

  const OPEN := Tok(P(LParen))
  const CLOSE := Tok(P(RParen))

  /** The text with the spaces the `Display` implementation writes. */
  function Spaced(e: CExpr): seq<Piece> {
    match e
    case Var(t) => [Tok(Word(t))]
    case Lit(t) => [Tok(Word(t))]
    case Bin(l, op, r) => Spaced(l) + [Space, Tok(P(BinPunct(op))), Space] + Spaced(r)
    case Un(op, x) => [Tok(P(UnPunct(op))), OPEN] + Spaced(x) + [CLOSE]
    case Cast(ty, x) => [OPEN, Tok(Type(ty)), CLOSE] + Spaced(x)
    case Deref(ty, x) => [Tok(P(Star)), OPEN, Tok(Type(ty)), CLOSE] + Spaced(x)
    case AddrOf(x) => [Tok(P(Amp))] + Spaced(x)
    case Call(f, args) => Spaced(f) + [OPEN] + SpacedList(args) + [CLOSE]
    case Field(x, name) => Spaced(x) + [Tok(P(Dot)), Tok(Name(name))]
    case Index(x, i) => Spaced(x) + [Tok(P(LBracket))] + Spaced(i) + [Tok(P(RBracket))]
    case Ternary(c, t, f) =>
      [OPEN] + Spaced(c) + [CLOSE, Space, Tok(P(Question)), Space, OPEN] + Spaced(t) +
      [CLOSE, Space, Tok(P(Colon)), Space, OPEN] + Spaced(f) + [CLOSE]
    case Sizeof(x) => [Tok(P(SizeofKw)), OPEN] + Spaced(x) + [CLOSE]
    case SizeofType(ty) => [Tok(P(SizeofKw)), OPEN, Tok(Type(ty)), CLOSE]
    case CompoundLiteral(ty, elts) =>
      [OPEN, Tok(Type(ty)), CLOSE, Tok(P(LBrace)), Space] + SpacedList(elts) + [Space, Tok(P(RBrace))]
    case Paren(x) => [OPEN] + Spaced(x) + [CLOSE]
  }

  function SpacedList(es: seq<CExpr>): seq<Piece> {
    if es == [] then []
    else if |es| == 1 then Spaced(es[0])
    else Spaced(es[0]) + [Tok(P(Comma)), Space] + SpacedList(es[1..])
  }

  // ----- the lexer's choice between neighbours -----

  function Symbol(p: Punct): (s: string)
    ensures s != ""
  {
    match p
    case Plus => "+" case Minus => "-" case Star => "*" case Slash => "/" case Percent => "%"
    case LtLt => "<<" case GtGt => ">>" case Amp => "&" case Pipe => "|" case Caret => "^"
    case EqEq => "==" case BangEq => "!=" case Less => "<" case LessEq => "<=" case Greater => ">"
    case GreaterEq => ">=" case AmpAmp => "&&" case PipePipe => "||" case Tilde => "~" case Bang => "!"
    case LParen => "(" case RParen => ")" case LBracket => "[" case RBracket => "]"
    case LBrace => "{" case RBrace => "}" case Dot => "." case Comma => "," case Question => "?"
    case Colon => ":" case SizeofKw => "sizeof"
  }

  /** The first character of a token, with '0' for any digit and '_' for any letter. */
  function FirstChar(t: Token): char {
    match t
    case Word(w) => TextChar(w)
    case Type(_) => '_'
    case Name(_) => '_'
    case P(p) => if p.SizeofKw? then '_' else Symbol(p)[0]
  }

  predicate WordChar(c: char) {
    c == '_' || '0' <= c <= '9' || 'a' <= c <= 'z' || 'A' <= c <= 'Z'
  }

  /** The punctuator followed by c begins a longer punctuator of section 6.4.6 of
      C11, a comment or a number. */
  predicate Continues(p: Punct, c: char) {
    match p
    case Plus => c == '+' || c == '='
    case Minus => c == '-' || c == '=' || c == '>'
    case Star => c == '='
    case Slash => c == '=' || c == '/' || c == '*'
    case Percent => c == '=' || c == '>' || c == ':'
    case LtLt => c == '='
    case GtGt => c == '='
    case Amp => AmpContinues(c)
    case Pipe => c == '|' || c == '='
    case Caret => c == '='
    case Less => c == '<' || c == '=' || c == ':' || c == '%'
    case Greater => c == '>' || c == '='
    case Bang => c == '='
    case Dot => c == '.' || '0' <= c <= '9'
    case Colon => c == '>'
    case SizeofKw => WordChar(c)
    case _ => false
  }

  /** The punctuators of section 6.4.6 of C11 with more than one character, the first
      two characters of the ellipsis, and the openings of comments. */
  const LONG: set<string> := {
    "->", "++", "--", "<<", ">>", "<=", ">=", "==", "!=", "&&", "||", "*=", "/=", "%=", "+=", "-=", "&=", "^=", "|=",
    "<<=", ">>=", "..", "...", "<:", ":>", "<%", "%>", "%:", "//", "/*"
  }

  /** A character continues a punctuator exactly when the two together begin something
      longer. */
  lemma LongerSymbols(p: Punct, c: char)
    requires !p.SizeofKw?
    ensures Continues(p, c) <==> Symbol(p) + [c] in LONG || (p.Dot? && '0' <= c <= '9')
  {
    var s := Symbol(p) + [c];
    assert |s| == |Symbol(p)| + 1 && s[|s| - 1] == c && s[0] == Symbol(p)[0];
    if |s| == 2 {
      assert s == [s[0], c];
    } else {
      assert s == [s[0], s[1], c] && s[1] == Symbol(p)[1];
    }
  }

  /** Without a space between them the two are not read as these two tokens. */
  predicate Sticks(a: Token, b: Token) {
    match a
    case P(p) => Continues(p, FirstChar(b))
    case Word(w) => WordChar(FirstChar(b)) || ('0' <= TextChar(w) <= '9' && FirstChar(b) == '.')
    case _ => WordChar(FirstChar(b))
  }

  predicate Apart(a: Piece, b: Piece) {
    a.Tok? && b.Tok? ==> !Sticks(a.t, b.t)
  }

  predicate Clean(ps: seq<Piece>) {
    forall i :: 0 < i < |ps| ==> Apart(ps[i - 1], ps[i])
  }

  function One(p: Piece): seq<Token> {
    if p.Tok? then [p.t] else []
  }

  function Words(ps: seq<Piece>): seq<Token> {
    if ps == [] then [] else One(ps[0]) + Words(ps[1..])
  }

  /** The tokens a lexer finds, if they are the ones that were written. */
  function Lex(ps: seq<Piece>): Option<seq<Token>> {
    if Clean(ps) then Some(Words(ps)) else None
  }

  // ----- the builder's text -----

  /** The text lexes to these tokens. */
  predicate Gives(ps: seq<Piece>, ts: seq<Token>) {
    ps != [] && Lex(ps) == Some(ts)
  }

  lemma {:induction false} WordsAppend(a: seq<Piece>, b: seq<Piece>)
    ensures Words(a + b) == Words(a) + Words(b)
    decreases |a|
  {
    hide Words;
    if a == [] {
      assert a + b == b && Words(a) == [] by { NoWords(); }
    } else {
      var c := a[1..];
      assert (a + b)[1..] == c + b;
      WordsAppend(c, b);
      WordsStep(a + b);
      WordsStep(a);
    }
  }

  lemma NoWords()
    ensures Words([]) == []
  {
  }

  lemma WordsStep(ps: seq<Piece>)
    requires ps != []
    ensures Words(ps) == One(ps[0]) + Words(ps[1..])
  {
  }

  lemma Joined(a: seq<Piece>, x: seq<Token>, b: seq<Piece>, y: seq<Token>)
    requires Gives(a, x) && Gives(b, y) && Apart(a[|a| - 1], b[0])
    ensures Gives(a + b, x + y)
  {
    hide Words, Sticks;
    WordsAppend(a, b);
    forall i | 0 < i < |a + b| ensures Apart((a + b)[i - 1], (a + b)[i]) {
    }
  }

  lemma Enclosed(a: seq<Piece>, x: seq<Token>, b: seq<Piece>, y: seq<Token>, c: seq<Piece>, z: seq<Token>)
    requires Gives(a, x) && Gives(b, y) && Gives(c, z) && Apart(a[|a| - 1], b[0]) && Apart(b[|b| - 1], c[0])
    ensures Gives(a + b + c, x + y + z)
  {
    hide Lex, Apart;
    Joined(a, x, b, y);
    assert (a + b)[|a + b| - 1] == b[|b| - 1];
    Joined(a + b, x + y, c, z);
  }

  /** Brackets, commas and spaces stand next to anything. */
  predicate Neutral(p: Piece) {
    p.Tok? ==> p.t.P? && (p.t.p.LParen? || p.t.p.RParen? || p.t.p.LBracket? || p.t.p.RBracket? || p.t.p.Comma?)
  }

  lemma NeutralApart(a: Piece, b: Piece)
    requires Neutral(a) || Neutral(b)
    ensures Apart(a, b)
  {
  }

  lemma Between(a: seq<Piece>, x: seq<Token>, b: seq<Piece>, y: seq<Token>, c: seq<Piece>, z: seq<Token>)
    requires Gives(a, x) && Gives(b, y) && Gives(c, z)
    requires (Neutral(a[|a| - 1]) || Neutral(b[0])) && (Neutral(b[|b| - 1]) || Neutral(c[0]))
    ensures Gives(a + b + c, x + y + z)
  {
    hide Lex, Apart, Neutral;
    NeutralApart(a[|a| - 1], b[0]);
    NeutralApart(b[|b| - 1], c[0]);
    Enclosed(a, x, b, y, c, z);
  }

  predicate LexesTo(e: CExpr) {
    && Gives(Spaced(e), Print(e))
    && Spaced(e)[0] == Tok(Front(e))
    && (Level(e) >= 13 && !IsNumber(e) ==> Apart(Spaced(e)[|Spaced(e)| - 1], Tok(P(Dot))))
  }

  /** The text of every well-shaped expression lexes to the tokens it was printed
      from. */
  lemma {:induction false} Lexes(e: CExpr)
    requires Shaped(e)
    ensures LexesTo(e)
    decreases e, 1
  {
    hide Gives, Apart, LexesTo;
    match e
    case Var(_) => LeafLexes(e);
    case Lit(_) => LeafLexes(e);
    case Bin(l, op, r) => Lexes(l); Lexes(r); BinLexes(l, op, r);
    case Un(op, x) => Lexes(x); UnLexes(op, x);
    case Cast(ty, x) => Lexes(x); CastLexes(ty, x);
    case Deref(ty, x) => Lexes(x); DerefLexes(ty, x);
    case AddrOf(x) => Lexes(x); AddrOfLexes(x);
    case Call(f, args) => Lexes(f); ListLexes(args); CallLexes(f, args);
    case Field(x, name) => Lexes(x); FieldLexes(x, name);
    case Index(x, i) => Lexes(x); Lexes(i); IndexLexes(x, i);
    case Ternary(c, t, f) => Lexes(c); Lexes(t); Lexes(f); TernaryLexes(c, t, f);
    case Sizeof(x) => Lexes(x); SizeofLexes(x);
    case SizeofType(_) => SizeofTypeLexes(e.ty);
    case CompoundLiteral(ty, elts) => ListLexes(elts); CompoundLexes(ty, elts);
    case Paren(x) => Lexes(x); ParenLexes(x);
  }

  lemma {:induction false} ListLexes(es: seq<CExpr>)
    requires forall e | e in es :: Shaped(e)
    ensures es != [] ==> Gives(SpacedList(es), PrintList(es))
    decreases es, 0
  {
    if |es| == 1 {
      Lexes(es[0]);
    } else if es != [] {
      hide Shaped, Lex;
      Lexes(es[0]);
      ListLexes(es[1..]);
      Fixed2(Tok(P(Comma)), Space, [P(Comma)]);
      Between(Spaced(es[0]), Print(es[0]), [Tok(P(Comma)), Space], [P(Comma)], SpacedList(es[1..]), PrintList(es[1..]));
    }
  }

  // ----- fixed stretches of text -----

  lemma Fixed1(p: Piece, ts: seq<Token>)
    requires ts == One(p)
    ensures Gives([p], ts)
  {
    assert Words([p]) == One(p) + Words([]) == ts;
  }

  lemma Fixed2(p: Piece, q: Piece, ts: seq<Token>)
    requires Apart(p, q) && ts == One(p) + One(q)
    ensures Gives([p, q], ts)
  {
    hide Lex, Apart;
    Fixed1(p, One(p));
    Fixed1(q, One(q));
    Joined([p], One(p), [q], One(q));
    assert [p] + [q] == [p, q];
  }

  lemma Fixed3(p: Piece, q: Piece, r: Piece, ts: seq<Token>)
    requires Apart(p, q) && Apart(q, r) && ts == One(p) + One(q) + One(r)
    ensures Gives([p, q, r], ts)
  {
    hide Lex, Apart;
    Fixed2(p, q, One(p) + One(q));
    Fixed1(r, One(r));
    Joined([p, q], One(p) + One(q), [r], One(r));
    assert [p, q] + [r] == [p, q, r];
  }

  lemma Fixed4(p: Piece, q: Piece, r: Piece, s: Piece, ts: seq<Token>)
    requires Apart(p, q) && Apart(q, r) && Apart(r, s) && ts == One(p) + One(q) + One(r) + One(s)
    ensures Gives([p, q, r, s], ts)
  {
    hide Lex, Apart;
    Fixed3(p, q, r, One(p) + One(q) + One(r));
    Fixed1(s, One(s));
    Joined([p, q, r], One(p) + One(q) + One(r), [s], One(s));
    assert [p, q, r] + [s] == [p, q, r, s];
  }

  lemma Fixed5(p: Piece, q: Piece, r: Piece, s: Piece, t: Piece, ts: seq<Token>)
    requires Apart(p, q) && Apart(q, r) && Apart(r, s) && Apart(s, t)
    requires ts == One(p) + One(q) + One(r) + One(s) + One(t)
    ensures Gives([p, q, r, s, t], ts)
  {
    hide Lex, Apart;
    Fixed4(p, q, r, s, One(p) + One(q) + One(r) + One(s));
    Fixed1(t, One(t));
    Joined([p, q, r, s], One(p) + One(q) + One(r) + One(s), [t], One(t));
    assert [p, q, r, s] + [t] == [p, q, r, s, t];
  }

  // ----- one node each -----

  lemma LeafLexes(e: CExpr)
    requires e.Var? || e.Lit?
    ensures LexesTo(e)
  {
    Fixed1(Tok(Word(e.text)), [Word(e.text)]);
  }

  lemma BinLexes(l: CExpr, op: BinOp, r: CExpr)
    requires LexesTo(l) && LexesTo(r)
    ensures LexesTo(Bin(l, op, r))
  {
    hide Lex;
    var t := Tok(P(BinPunct(op)));
    Fixed3(Space, t, Space, [P(BinPunct(op))]);
    Between(Spaced(l), Print(l), [Space, t, Space], [P(BinPunct(op))], Spaced(r), Print(r));
  }

  lemma UnLexes(op: UnOp, x: CExpr)
    requires LexesTo(x)
    ensures LexesTo(Un(op, x))
  {
    hide Lex;
    var t := Tok(P(UnPunct(op)));
    Fixed2(t, OPEN, [P(UnPunct(op)), P(LParen)]);
    Fixed1(CLOSE, [P(RParen)]);
    Between([t, OPEN], [P(UnPunct(op)), P(LParen)], Spaced(x), Print(x), [CLOSE], [P(RParen)]);
  }

  lemma CastLexes(ty: TypeName, x: CExpr)
    requires LexesTo(x)
    ensures LexesTo(Cast(ty, x))
  {
    hide Lex;
    Fixed3(OPEN, Tok(Type(ty)), CLOSE, [P(LParen), Type(ty), P(RParen)]);
    NeutralApart(CLOSE, Spaced(x)[0]);
    Joined([OPEN, Tok(Type(ty)), CLOSE], [P(LParen), Type(ty), P(RParen)], Spaced(x), Print(x));
  }

  lemma DerefLexes(ty: TypeName, x: CExpr)
    requires LexesTo(x)
    ensures LexesTo(Deref(ty, x))
  {
    hide Lex;
    Fixed4(Tok(P(Star)), OPEN, Tok(Type(ty)), CLOSE, [P(Star), P(LParen), Type(ty), P(RParen)]);
    NeutralApart(CLOSE, Spaced(x)[0]);
    Joined([Tok(P(Star)), OPEN, Tok(Type(ty)), CLOSE], [P(Star), P(LParen), Type(ty), P(RParen)], Spaced(x), Print(x));
  }

  lemma AddrOfLexes(x: CExpr)
    requires LexesTo(x) && AddressApart(x)
    ensures LexesTo(AddrOf(x))
  {
    hide Lex;
    FirstToken(x);
    Fixed1(Tok(P(Amp)), [P(Amp)]);
    Joined([Tok(P(Amp))], [P(Amp)], Spaced(x), Print(x));
  }

  lemma CallLexes(f: CExpr, args: seq<CExpr>)
    requires LexesTo(f) && (args != [] ==> Gives(SpacedList(args), PrintList(args)))
    ensures LexesTo(Call(f, args))
  {
    hide Lex, Print, Spaced, SpacedList, PrintList;
    ParenGives();
    NeutralApart(Spaced(f)[|Spaced(f)| - 1], OPEN);
    Joined(Spaced(f), Print(f), [OPEN], [P(LParen)]);
    var ps, ts := Spaced(f) + [OPEN], Print(f) + [P(LParen)];
    if args == [] {
      Joined(ps, ts, [CLOSE], [P(RParen)]);
      NoArguments(f);
    } else {
      Between(ps, ts, SpacedList(args), PrintList(args), [CLOSE], [P(RParen)]);
      Arguments(f, args);
    }
  }

  lemma NoArguments(f: CExpr)
    ensures Spaced(Call(f, [])) == Spaced(f) + [OPEN] + [CLOSE]
    ensures Print(Call(f, [])) == Print(f) + [P(LParen)] + [P(RParen)]
  {
  }

  lemma Arguments(f: CExpr, args: seq<CExpr>)
    ensures Spaced(Call(f, args)) == Spaced(f) + [OPEN] + SpacedList(args) + [CLOSE]
    ensures Print(Call(f, args)) == Print(f) + [P(LParen)] + PrintList(args) + [P(RParen)]
  {
  }

  lemma FieldLexes(x: CExpr, name: string)
    requires LexesTo(x) && Level(x) >= 13 && !IsNumber(x)
    ensures LexesTo(Field(x, name))
  {
    hide Lex;
    Fixed2(Tok(P(Dot)), Tok(Name(name)), [P(Dot), Name(name)]);
    Joined(Spaced(x), Print(x), [Tok(P(Dot)), Tok(Name(name))], [P(Dot), Name(name)]);
  }

  lemma IndexLexes(x: CExpr, i: CExpr)
    requires LexesTo(x) && LexesTo(i)
    ensures LexesTo(Index(x, i))
  {
    hide Lex, Print, Spaced;
    var open, close := Tok(P(LBracket)), Tok(P(RBracket));
    BracketGives();
    NeutralApart(Spaced(x)[|Spaced(x)| - 1], open);
    Joined(Spaced(x), Print(x), [open], [P(LBracket)]);
    Between(Spaced(x) + [open], Print(x) + [P(LBracket)], Spaced(i), Print(i), [close], [P(RBracket)]);
    IndexText(x, i);
  }

  lemma BracketGives()
    ensures Gives([Tok(P(LBracket))], [P(LBracket)]) && Gives([Tok(P(RBracket))], [P(RBracket)])
  {
    Fixed1(Tok(P(LBracket)), [P(LBracket)]);
    Fixed1(Tok(P(RBracket)), [P(RBracket)]);
  }

  lemma IndexText(x: CExpr, i: CExpr)
    ensures Spaced(Index(x, i)) == Spaced(x) + [Tok(P(LBracket))] + Spaced(i) + [Tok(P(RBracket))]
    ensures Print(Index(x, i)) == Print(x) + [P(LBracket)] + Print(i) + [P(RBracket)]
  {
  }

  lemma TernaryLexes(c: CExpr, t: CExpr, f: CExpr)
    requires LexesTo(c) && LexesTo(t) && LexesTo(f)
    ensures LexesTo(Ternary(c, t, f))
  {
    hide Lex, Print, Spaced;
    var q, k := [CLOSE, Space, Tok(P(Question)), Space, OPEN], [CLOSE, Space, Tok(P(Colon)), Space, OPEN];
    var qt, kt := [P(RParen), P(Question), P(LParen)], [P(RParen), P(Colon), P(LParen)];
    Fixed1(OPEN, [P(LParen)]);
    Fixed5(CLOSE, Space, Tok(P(Question)), Space, OPEN, qt);
    Fixed5(CLOSE, Space, Tok(P(Colon)), Space, OPEN, kt);
    Between([OPEN], [P(LParen)], Spaced(c), Print(c), q, qt);
    var ps, ts := [OPEN] + Spaced(c) + q, [P(LParen)] + Print(c) + qt;
    assert ps[|ps| - 1] == OPEN;
    Between(ps, ts, Spaced(t), Print(t), k, kt);
    assert (ps + Spaced(t) + k)[|ps + Spaced(t) + k| - 1] == OPEN;
    TernaryEnds(c, t, f, ps + Spaced(t) + k, ts + Print(t) + kt);
  }

  lemma TernaryEnds(c: CExpr, t: CExpr, f: CExpr, ps: seq<Piece>, ts: seq<Token>)
    requires LexesTo(f) && Gives(ps, ts) && ps[|ps| - 1] == OPEN && ps[0] == OPEN
    requires ps == [OPEN] + Spaced(c) + [CLOSE, Space, Tok(P(Question)), Space, OPEN] + Spaced(t)
             + [CLOSE, Space, Tok(P(Colon)), Space, OPEN]
    requires ts == [P(LParen)] + Print(c) + [P(RParen), P(Question), P(LParen)] + Print(t)
             + [P(RParen), P(Colon), P(LParen)]
    ensures LexesTo(Ternary(c, t, f))
  {
    hide Lex;
    Fixed1(CLOSE, [P(RParen)]);
    Between(ps, ts, Spaced(f), Print(f), [CLOSE], [P(RParen)]);
    assert Spaced(Ternary(c, t, f)) == ps + Spaced(f) + [CLOSE];
    assert Print(Ternary(c, t, f)) == ts + Print(f) + [P(RParen)];
  }

  lemma SizeofLexes(x: CExpr)
    requires LexesTo(x)
    ensures LexesTo(Sizeof(x))
  {
    hide Lex;
    Fixed2(Tok(P(SizeofKw)), OPEN, [P(SizeofKw), P(LParen)]);
    Fixed1(CLOSE, [P(RParen)]);
    Between([Tok(P(SizeofKw)), OPEN], [P(SizeofKw), P(LParen)], Spaced(x), Print(x), [CLOSE], [P(RParen)]);
  }

  lemma SizeofTypeLexes(ty: TypeName)
    ensures LexesTo(SizeofType(ty))
  {
    hide Lex;
    Fixed4(Tok(P(SizeofKw)), OPEN, Tok(Type(ty)), CLOSE, [P(SizeofKw), P(LParen), Type(ty), P(RParen)]);
  }

  lemma CompoundLexes(ty: TypeName, elts: seq<CExpr>)
    requires elts != [] ==> Gives(SpacedList(elts), PrintList(elts))
    ensures LexesTo(CompoundLiteral(ty, elts))
  {
    hide Gives, Print, Spaced, SpacedList, PrintList;
    var a := [OPEN, Tok(Type(ty)), CLOSE, Tok(P(LBrace)), Space];
    var x := [P(LParen), Type(ty), P(RParen), P(LBrace)];
    BraceGives(ty);
    if elts == [] {
      Joined(a, x, [Space, Tok(P(RBrace))], [P(RBrace)]);
      NoElements(ty);
    } else {
      Between(a, x, SpacedList(elts), PrintList(elts), [Space, Tok(P(RBrace))], [P(RBrace)]);
      Elements(ty, elts);
    }
  }

  lemma BraceGives(ty: TypeName)
    ensures Gives([OPEN, Tok(Type(ty)), CLOSE, Tok(P(LBrace)), Space], [P(LParen), Type(ty), P(RParen), P(LBrace)])
    ensures Gives([Space, Tok(P(RBrace))], [P(RBrace)])
  {
    hide Lex;
    Fixed5(OPEN, Tok(Type(ty)), CLOSE, Tok(P(LBrace)), Space, [P(LParen), Type(ty), P(RParen), P(LBrace)]);
    Fixed2(Space, Tok(P(RBrace)), [P(RBrace)]);
  }

  lemma NoElements(ty: TypeName)
    ensures Spaced(CompoundLiteral(ty, []))
            == [OPEN, Tok(Type(ty)), CLOSE, Tok(P(LBrace)), Space] + [Space, Tok(P(RBrace))]
    ensures Print(CompoundLiteral(ty, [])) == [P(LParen), Type(ty), P(RParen), P(LBrace)] + [P(RBrace)]
  {
  }

  lemma Elements(ty: TypeName, elts: seq<CExpr>)
    ensures Spaced(CompoundLiteral(ty, elts))
            == [OPEN, Tok(Type(ty)), CLOSE, Tok(P(LBrace)), Space] + SpacedList(elts) + [Space, Tok(P(RBrace))]
    ensures Print(CompoundLiteral(ty, elts))
            == [P(LParen), Type(ty), P(RParen), P(LBrace)] + PrintList(elts) + [P(RBrace)]
  {
  }

  lemma ParenLexes(x: CExpr)
    requires LexesTo(x)
    ensures LexesTo(Paren(x))
  {
    hide Gives, Print, Spaced;
    ParenGives();
    Between([OPEN], [P(LParen)], Spaced(x), Print(x), [CLOSE], [P(RParen)]);
    ParenText(x);
  }

  lemma ParenText(x: CExpr)
    ensures Spaced(Paren(x)) == [OPEN] + Spaced(x) + [CLOSE] && Print(Paren(x)) == [P(LParen)] + Print(x) + [P(RParen)]
  {
  }

  lemma ParenGives()
    ensures Gives([OPEN], [P(LParen)]) && Gives([CLOSE], [P(RParen)])
  {
    Fixed1(OPEN, [P(LParen)]);
    Fixed1(CLOSE, [P(RParen)]);
  }

  // ----- from characters to the tree -----

  /** Lexing the printed characters and reading the tokens gives the tree that was
      printed. */
  lemma TextThenRead(e: CExpr)
    requires Shaped(e)
    ensures Lex(Spaced(e)) == Some(Print(e))
    ensures ReadExpr(Lex(Spaced(e)).value) == Got(Reading(e), [])
  {
    hide ReadExpr;
    Lexes(e);
    PrintThenRead(e);
  }

  /** What the shape shuts out: the address of an address, and a field of a number. */
  lemma MergesOtherwise(t: Text, d: nat, field: string)
    ensures Lex(Spaced(AddrOf(AddrOf(Var(t))))) == None
    ensures Lex(Spaced(Field(Lit(DecimalText(d)), field))) == None
  {
    var a, b := Spaced(AddrOf(AddrOf(Var(t)))), Spaced(Field(Lit(DecimalText(d)), field));
    assert a == [Tok(P(Amp))] + Spaced(AddrOf(Var(t))) && Spaced(AddrOf(Var(t))) == [Tok(P(Amp))] + Spaced(Var(t));
    assert !Apart(a[0], a[1]);
    assert b == Spaced(Lit(DecimalText(d))) + [Tok(P(Dot)), Tok(Name(field))];
    assert !Apart(b[0], b[1]);
  }
}
