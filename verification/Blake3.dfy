/** The portable BLAKE3 fallback: compression as a permutation of the state, and
    hashing of many inputs as a chained fold. */
module Blake3 {
  type Word = bv32
  type Byte = bv8

  // ----- the mixing function -----

  function Rotr(x: Word, n: bv6): Word
    requires 0 < n < 32
  {
    (x >> n) | (x << (32 - n))
  }

  function Rotl(x: Word, n: bv6): Word
    requires 0 < n < 32
  {
    (x << n) | (x >> (32 - n))
  }

  predicate IsAmount(n: bv6) { n == 7 || n == 8 || n == 12 || n == 16 }

  lemma RotateBack(x: Word, n: bv6)
    requires IsAmount(n)
    ensures Rotl(Rotr(x, n), n) == x && Rotr(Rotl(x, n), n) == x
  {
    hide Rotl, Rotr;
    if n == 7 { Back7(x); } else if n == 8 { Back8(x); } else if n == 12 { Back12(x); } else { Back16(x); }
  }

  lemma Back7(x: Word) ensures Rotl(Rotr(x, 7), 7) == x && Rotr(Rotl(x, 7), 7) == x {}
  lemma Back8(x: Word) ensures Rotl(Rotr(x, 8), 8) == x && Rotr(Rotl(x, 8), 8) == x {}
  lemma Back12(x: Word) ensures Rotl(Rotr(x, 12), 12) == x && Rotr(Rotl(x, 12), 12) == x {}
  lemma Back16(x: Word) ensures Rotl(Rotr(x, 16), 16) == x && Rotr(Rotl(x, 16), 16) == x {}

  datatype Quad = Quad(a: Word, b: Word, c: Word, d: Word)

  function Plus(x: Word, y: Word): Word { x + y }

  function Minus(x: Word, y: Word): Word { x - y }

  function Xor(x: Word, y: Word): Word { x ^ y }

  lemma XorXor(x: Word, y: Word) ensures Xor(Xor(x, y), y) == x {}
  lemma PlusIs(x: Word, y: Word) ensures Plus(x, y) == x + y {}
  lemma MinusIs(x: Word, y: Word) ensures Minus(x, y) == x - y {}
  lemma AddSub(x: Word, y: Word) ensures Minus(x + y, y) == x {}
  lemma SubAdd(x: Word, y: Word) ensures Plus(x - y, y) == x {}

  lemma PlusMinus(x: Word, y: Word)
    ensures Minus(Plus(x, y), y) == x
  {
    hide Plus, Minus;
    PlusIs(x, y);
    AddSub(x, y);
  }

  lemma MinusPlus(x: Word, y: Word)
    ensures Plus(Minus(x, y), y) == x
  {
    hide Plus, Minus;
    MinusIs(x, y);
    SubAdd(x, y);
  }

  /** Half of the mixing function: one message word and one pair of rotations. */
  function HalfMix(q: Quad, m: Word, n1: bv6, n2: bv6): Quad
    requires IsAmount(n1) && IsAmount(n2)
  {
    var a := Plus(q.a, Plus(q.b, m));
    var d := Rotr(Xor(q.d, a), n1);
    var c := Plus(q.c, d);
    Quad(a, Rotr(Xor(q.b, c), n2), c, d)
  }

  function HalfUnmix(q: Quad, m: Word, n1: bv6, n2: bv6): Quad
    requires IsAmount(n1) && IsAmount(n2)
  {
    var b := Xor(Rotl(q.b, n2), q.c);
    Quad(Minus(q.a, Plus(b, m)), b, Minus(q.c, q.d), Xor(Rotl(q.d, n1), q.a))
  }

  lemma HalfBijective(q: Quad, m: Word, n1: bv6, n2: bv6)
    requires IsAmount(n1) && IsAmount(n2)
    ensures HalfUnmix(HalfMix(q, m, n1, n2), m, n1, n2) == q && HalfMix(HalfUnmix(q, m, n1, n2), m, n1, n2) == q
  {
    hide Rotr, Rotl, Plus, Minus, Xor;
    var r, u := HalfMix(q, m, n1, n2), HalfUnmix(q, m, n1, n2);
    RotateBack(Xor(q.d, r.a), n1);
    RotateBack(Xor(q.b, r.c), n2);
    XorXor(q.d, r.a);
    XorXor(q.b, r.c);
    PlusMinus(q.a, Plus(q.b, m));
    PlusMinus(q.c, r.d);
    RotateBack(q.d, n1);
    RotateBack(q.b, n2);
    XorXor(Rotl(q.d, n1), q.a);
    XorXor(Rotl(q.b, n2), q.c);
    MinusPlus(q.a, Plus(u.b, m));
    MinusPlus(q.c, q.d);
  }

  function Mix(q: Quad, mx: Word, my: Word): Quad { HalfMix(HalfMix(q, mx, 16, 12), my, 8, 7) }

  function Unmix(q: Quad, mx: Word, my: Word): Quad { HalfUnmix(HalfUnmix(q, my, 8, 7), mx, 16, 12) }

  lemma MixBijective(q: Quad, mx: Word, my: Word)
    ensures Unmix(Mix(q, mx, my), mx, my) == q && Mix(Unmix(q, mx, my), mx, my) == q
  {
    hide HalfMix, HalfUnmix;
    HalfBijective(q, mx, 16, 12);
    HalfBijective(HalfMix(q, mx, 16, 12), my, 8, 7);
    HalfBijective(q, my, 8, 7);
    HalfBijective(HalfUnmix(q, my, 8, 7), mx, 16, 12);
  }

  // ----- the state -----

  type State = s: seq<Word> | |s| == 16 witness seq(16, _ => 0)

  datatype Cells = Cells(a: nat, b: nat, c: nat, d: nat)

  predicate Distinct(i: Cells) {
    i.a < 16 && i.b < 16 && i.c < 16 && i.d < 16 && i.a != i.b && i.a != i.c && i.a != i.d && i.b != i.c && i.b != i.d
      && i.c != i.d
  }

  function Get(s: State, i: Cells): Quad
    requires Distinct(i)
  {
    Quad(s[i.a], s[i.b], s[i.c], s[i.d])
  }

  function Put(s: State, i: Cells, q: Quad): State
    requires Distinct(i)
  {
    s[i.a := q.a][i.b := q.b][i.c := q.c][i.d := q.d]
  }

  function G(s: State, i: Cells, mx: Word, my: Word): State
    requires Distinct(i)
  {
    Put(s, i, Mix(Get(s, i), mx, my))
  }

  function UndoG(s: State, i: Cells, mx: Word, my: Word): State
    requires Distinct(i)
  {
    Put(s, i, Unmix(Get(s, i), mx, my))
  }

  lemma GBijective(s: State, i: Cells, mx: Word, my: Word)
    requires Distinct(i)
    ensures UndoG(G(s, i, mx, my), i, mx, my) == s && G(UndoG(s, i, mx, my), i, mx, my) == s
  {
    hide Mix, Unmix;
    MixBijective(Get(s, i), mx, my);
    PutGet(s, i, Mix(Get(s, i), mx, my));
    PutGet(s, i, Unmix(Get(s, i), mx, my));
  }

  lemma PutGet(s: State, i: Cells, q: Quad)
    requires Distinct(i)
    ensures Get(Put(s, i, q), i) == q && Put(Put(s, i, q), i, Get(s, i)) == s
  {
  }

  // ----- rounds -----

  /** The eight applications of a round: columns, then diagonals. */
  function CellsOf(k: nat): (i: Cells)
    requires k < 8
    ensures Distinct(i)
  {
    if k < 4 then Cells(k, k + 4, k + 8, k + 12)
    else Cells(k - 4, 4 + (k - 3) % 4, 8 + (k - 2) % 4, 12 + (k - 1) % 4)
  }

  ghost predicate Schedule(p: seq<nat>) {
    |p| == 16 && forall j | 0 <= j < 16 :: p[j] < 16
  }

  /** The first k applications of a round over message m read in the order p. */
  ghost function Part(s: State, m: State, p: seq<nat>, k: nat): State
    requires Schedule(p) && k <= 8
  {
    if k == 0 then s else G(Part(s, m, p, k - 1), CellsOf(k - 1), m[p[2 * k - 2]], m[p[2 * k - 1]])
  }

  ghost function Unpart(s: State, m: State, p: seq<nat>, k: nat): State
    requires Schedule(p) && k <= 8
    decreases k
  {
    if k == 0 then s else Unpart(UndoG(s, CellsOf(k - 1), m[p[2 * k - 2]], m[p[2 * k - 1]]), m, p, k - 1)
  }

  lemma {:induction false} PartBijective(s: State, m: State, p: seq<nat>, k: nat)
    requires Schedule(p) && k <= 8
    ensures Unpart(Part(s, m, p, k), m, p, k) == s && Part(Unpart(s, m, p, k), m, p, k) == s
    decreases k
  {
    hide G, UndoG, CellsOf;
    if k > 0 {
      var i, mx, my := CellsOf(k - 1), m[p[2 * k - 2]], m[p[2 * k - 1]];
      GBijective(Part(s, m, p, k - 1), i, mx, my);
      PartBijective(s, m, p, k - 1);
      GBijective(s, i, mx, my);
      PartBijective(UndoG(s, i, mx, my), m, p, k - 1);
    }
  }

  ghost function Round(s: State, m: State, p: seq<nat>): State
    requires Schedule(p)
  {
    Part(s, m, p, 8)
  }

  /** For every message and schedule a round is a bijection on the state. */
  lemma RoundBijective(m: State, p: seq<nat>)
    requires Schedule(p)
    ensures forall s, t: State :: Round(s, m, p) == Round(t, m, p) ==> s == t
    ensures forall t: State :: Round(Unpart(t, m, p, 8), m, p) == t
  {
    hide Part, Unpart;
    forall s: State ensures Unpart(Round(s, m, p), m, p, 8) == s && Round(Unpart(s, m, p, 8), m, p) == s {
      PartBijective(s, m, p, 8);
    }
  }

  function Sigma(r: nat): seq<nat>
    requires r < 7
  {
    match r
    case 0 => [0, 1, 2, 3, 4, 5, 6, 7, 8, 9, 10, 11, 12, 13, 14, 15]
    case 1 => [2, 6, 3, 10, 7, 0, 4, 13, 1, 11, 12, 5, 9, 14, 15, 8]
    case 2 => [3, 4, 10, 12, 13, 2, 7, 14, 6, 5, 9, 0, 11, 15, 8, 1]
    case 3 => [10, 7, 12, 9, 14, 3, 13, 15, 4, 0, 11, 2, 5, 8, 1, 6]
    case 4 => [12, 13, 9, 11, 15, 10, 14, 8, 7, 2, 5, 3, 0, 1, 6, 4]
    case 5 => [9, 14, 11, 5, 8, 12, 15, 1, 13, 3, 0, 10, 2, 6, 4, 7]
    case _ => [11, 15, 5, 0, 1, 9, 8, 6, 14, 10, 2, 12, 3, 4, 7, 13]
  }

  lemma SigmaIsSchedule(r: nat)
    requires r < 7
    ensures Schedule(Sigma(r))
  {
    if r > 0 {
      SigmaIsSchedule(r - 1);
      RowsFollow(r - 1);
      FollowsBounded(Sigma(r - 1), Sigma(r));
    }
  }

  lemma FollowsBounded(a: seq<nat>, b: seq<nat>)
    requires Follows(a, b) && Schedule(a)
    ensures Schedule(b)
  {
    forall i | 0 <= i < 16 ensures b[i] < 16 { FollowsAt(a, b, i); }
  }

  ghost function Rounds(s: State, m: State, r: nat): State
    requires r <= 7
  {
    if r == 0 then s else SigmaIsSchedule(r - 1); Round(Rounds(s, m, r - 1), m, Sigma(r - 1))
  }

  // ----- the reference: one fixed message permutation between rounds -----

  /** Section 2.2 of the BLAKE3 paper: after each round the message words are
      permuted by this one table. */
  const PERMUTATION: seq<nat> := [2, 6, 3, 10, 7, 0, 4, 13, 1, 11, 12, 5, 9, 14, 15, 8]

  ghost function Permuted(m: State, r: nat): State {
    if r == 0 then m else PermuteOnce(Permuted(m, r - 1))
  }

  ghost function PermuteOnce(m: State): State {
    assert Schedule(PERMUTATION);
    seq(16, i requires 0 <= i < 16 => m[PERMUTATION[i]])
  }

  ghost function InOrder(): (p: seq<nat>)
    ensures Schedule(p) && forall i | 0 <= i < 16 :: p[i] == i
  {
    seq(16, i => i)
  }

  ghost function ReferenceRounds(s: State, m: State, r: nat): State {
    if r == 0 then s else Round(ReferenceRounds(s, m, r - 1), Permuted(m, r - 1), InOrder())
  }

  /** Row b is row a read in the order of the permutation. */
  predicate Follows(a: seq<nat>, b: seq<nat>) {
    && |a| == 16 && |b| == 16
    && b[0] == a[2] && b[1] == a[6] && b[2] == a[3] && b[3] == a[10]
    && b[4] == a[7] && b[5] == a[0] && b[6] == a[4] && b[7] == a[13]
    && b[8] == a[1] && b[9] == a[11] && b[10] == a[12] && b[11] == a[5]
    && b[12] == a[9] && b[13] == a[14] && b[14] == a[15] && b[15] == a[8]
  }

  lemma FollowsAt(a: seq<nat>, b: seq<nat>, i: nat)
    requires Follows(a, b) && i < 16
    ensures PERMUTATION[i] < 16 && b[i] == a[PERMUTATION[i]]
  {
  }

  lemma RowsFollow(r: nat)
    requires r < 6
    ensures Follows(Sigma(r), Sigma(r + 1))
  {
    hide Sigma, Follows;
    if r == 0 {
      Row0();
    } else if r == 1 {
      Row1();
    } else if r == 2 {
      Row2();
    } else if r == 3 {
      Row3();
    } else if r == 4 {
      Row4();
    } else {
      Row5();
    }
  }

  lemma Row0() ensures Follows(Sigma(0), Sigma(1)) {}
  lemma Row1() ensures Follows(Sigma(1), Sigma(2)) {}
  lemma Row2() ensures Follows(Sigma(2), Sigma(3)) {}
  lemma Row3() ensures Follows(Sigma(3), Sigma(4)) {}
  lemma Row4() ensures Follows(Sigma(4), Sigma(5)) {}
  lemma Row5() ensures Follows(Sigma(5), Sigma(6)) {}

  lemma SigmaStep(r: nat, i: nat)
    requires r < 6 && i < 16
    ensures Follows(Sigma(r), Sigma(r + 1)) && PERMUTATION[i] < 16 && Sigma(r + 1)[i] == Sigma(r)[PERMUTATION[i]]
  {
    hide Sigma;
    RowsFollow(r);
    FollowsAt(Sigma(r), Sigma(r + 1), i);
  }

  lemma {:induction false} SigmaPermutes(m: State, r: nat, i: nat)
    requires r < 7 && i < 16
    ensures Schedule(Sigma(r)) && Permuted(m, r)[i] == m[Sigma(r)[i]]
    decreases r
  {
    SigmaIsSchedule(r);
    if r == 0 {
      assert Sigma(0)[i] == i;
    } else {
      SigmaStep(r - 1, i);
      SigmaPermutes(m, r - 1, PERMUTATION[i]);
    }
  }

  lemma {:induction false} PartDepends(s: State, m: State, p: seq<nat>, m': State, p': seq<nat>, k: nat)
    requires Schedule(p) && Schedule(p') && k <= 8
    requires forall j | 0 <= j < 16 :: m[p[j]] == m'[p'[j]]
    ensures Part(s, m, p, k) == Part(s, m', p', k)
    decreases k
  {
    hide G, CellsOf;
    if k > 0 { PartDepends(s, m, p, m', p', k - 1); }
  }

  /** The seven-row table runs the paper's rounds. */
  lemma {:induction false} RoundsAreReference(s: State, m: State, r: nat)
    requires r <= 7
    ensures Rounds(s, m, r) == ReferenceRounds(s, m, r)
    decreases r
  {
    hide Part;
    if r > 0 {
      RoundsAreReference(s, m, r - 1);
      SigmaIsSchedule(r - 1);
      forall j | 0 <= j < 16 ensures m[Sigma(r - 1)[j]] == Permuted(m, r - 1)[InOrder()[j]] {
        SigmaPermutes(m, r - 1, j);
      }
      PartDepends(Rounds(s, m, r - 1), m, Sigma(r - 1), Permuted(m, r - 1), InOrder(), 8);
    }
  }

  /** So is the whole seven-round permutation, for each message. */
  lemma {:induction false} RoundsInjective(s: State, t: State, m: State, r: nat)
    requires r <= 7 && Rounds(s, m, r) == Rounds(t, m, r)
    ensures s == t
    decreases r
  {
    hide Round, Sigma;
    if r > 0 {
      SigmaIsSchedule(r - 1);
      RoundBijective(m, Sigma(r - 1));
      RoundsInjective(s, t, m, r - 1);
    }
  }

  // ----- compression -----

  type Chaining = c: seq<Word> | |c| == 8 witness seq(8, _ => 0)
  type Block = b: seq<Byte> | |b| == 64 witness seq(64, _ => 0)

  const IV: Chaining := [0x6A09E667, 0xBB67AE85, 0x3C6EF372, 0xA54FF53A, 0x510E527F, 0x9B05688C, 0x1F83D9AB, 0x5BE0CD19]

  /** Little-endian words. */
  function LoadWord(a: Byte, b: Byte, c: Byte, d: Byte): Word {
    (a as Word) | ((b as Word) << 8) | ((c as Word) << 16) | ((d as Word) << 24)
  }

  function ByteOf(w: Word, k: nat): Byte
    requires k < 4
  {
    ((w >> (8 * k)) & 0xFF) as Byte
  }

  lemma ByteWidens(w: Word, k: nat)
    requires k < 4
    ensures ByteOf(w, k) as Word == (w >> (8 * k)) & 0xFF
  {
  }

  lemma JoinBytes(w: Word)
    ensures ((w >> 0) & 0xFF) | (((w >> 8) & 0xFF) << 8) | (((w >> 16) & 0xFF) << 16) | (((w >> 24) & 0xFF) << 24) == w
  {
  }

  lemma LoadStore(w: Word)
    ensures LoadWord(ByteOf(w, 0), ByteOf(w, 1), ByteOf(w, 2), ByteOf(w, 3)) == w
  {
    hide ByteOf, LoadWord;
    ByteWidens(w, 0);
    ByteWidens(w, 1);
    ByteWidens(w, 2);
    ByteWidens(w, 3);
    LoadWordOf(ByteOf(w, 0), ByteOf(w, 1), ByteOf(w, 2), ByteOf(w, 3), w);
  }

  lemma LoadWordOf(a: Byte, b: Byte, c: Byte, d: Byte, w: Word)
    requires a as Word == (w >> 0) & 0xFF && b as Word == (w >> 8) & 0xFF && c as Word == (w >> 16) & 0xFF
             && d as Word == (w >> 24) & 0xFF
    ensures LoadWord(a, b, c, d) == w
  {
    JoinBytes(w);
  }

  function MessageOf(b: Block): State {
    seq(16, i requires 0 <= i < 16 => LoadWord(b[4 * i], b[4 * i + 1], b[4 * i + 2], b[4 * i + 3]))
  }

  function Initial(cv: Chaining, blen: Byte, ctr: bv64, fl: Byte): State {
    cv + IV[..4] + [(ctr & 0xFFFF_FFFF) as Word, (ctr >> 32) as Word, blen as Word, fl as Word]
  }

  const PRIMES: seq<nat> := [2, 3, 5, 7, 11, 13, 17, 19]

  /** The constants are the first 32 bits of the fractional parts of the square roots
      of the first eight primes. */
  lemma IvFromPrimes(i: nat)
    requires i < 8
    ensures var root := (if i < 2 then 1 else if i < 4 then 2 else if i < 6 then 3 else 4) * 0x1_0000_0000
            + IV[i] as int;
            root * root <= PRIMES[i] * 0x1_0000_0000_0000_0000 < (root + 1) * (root + 1)
  {
  }

  /** The initial state word by word. */
  lemma InitialWords(cv: Chaining, blen: Byte, ctr: bv64, fl: Byte)
    ensures var s := Initial(cv, blen, ctr, fl);
            && s[..8] == cv && s[8..12] == [0x6A09E667, 0xBB67AE85, 0x3C6EF372, 0xA54FF53A]
            && s[12] as bv64 == ctr % 0x1_0000_0000 && s[13] as bv64 == ctr / 0x1_0000_0000
            && s[14] as int == blen as int && s[15] as int == fl as int
  {
  }

  /** The feed-forward: both halves of the state, and the old chaining value. */
  function Feed(s: State, cv: Chaining): State {
    seq(16, i requires 0 <= i < 16 => if i < 8 then Xor(s[i], s[i + 8]) else Xor(s[i], cv[i - 8]))
  }

  ghost function Compress(cv: Chaining, b: Block, blen: Byte, ctr: bv64, fl: Byte): State {
    Feed(Rounds(Initial(cv, blen, ctr, fl), MessageOf(b), 7), cv)
  }

  /** The compression is the paper's, with its message permutation. */
  lemma CompressIsReference(cv: Chaining, b: Block, blen: Byte, ctr: bv64, fl: Byte)
    ensures Compress(cv, b, blen, ctr, fl) == Feed(ReferenceRounds(Initial(cv, blen, ctr, fl), MessageOf(b), 7), cv)
  {
    hide Rounds, ReferenceRounds, Initial, MessageOf, Feed;
    RoundsAreReference(Initial(cv, blen, ctr, fl), MessageOf(b), 7);
  }

  // ----- the runtime's loops -----

  method B3G(s: array<Word>, a: nat, b: nat, c: nat, d: nat, mx: Word, my: Word)
    requires s.Length == 16 && Distinct(Cells(a, b, c, d))
    modifies s
    ensures s[..] == G(old(s[..]), Cells(a, b, c, d), mx, my)
  {
    hide Plus, Rotr, Xor, HalfMix, Put, Mix;
    ghost var was: State := s[..];
    ghost var q := Get(was, Cells(a, b, c, d));
    s[a] := Plus(s[a], Plus(s[b], mx));
    s[d] := Rotr(Xor(s[d], s[a]), 16);
    s[c] := Plus(s[c], s[d]);
    s[b] := Rotr(Xor(s[b], s[c]), 12);
    HalfMixIs(q, mx, 16, 12, s[a], s[b], s[c], s[d]);
    ghost var h := HalfMix(q, mx, 16, 12);
    s[a] := Plus(s[a], Plus(s[b], my));
    s[d] := Rotr(Xor(s[d], s[a]), 8);
    s[c] := Plus(s[c], s[d]);
    s[b] := Rotr(Xor(s[b], s[c]), 7);
    HalfMixIs(h, my, 8, 7, s[a], s[b], s[c], s[d]);
    MixIs(q, mx, my);
    PutIs(was, s[..], Cells(a, b, c, d), Quad(s[a], s[b], s[c], s[d]));
  }

  lemma MixIs(q: Quad, mx: Word, my: Word)
    ensures Mix(q, mx, my) == HalfMix(HalfMix(q, mx, 16, 12), my, 8, 7)
  {
  }

  lemma PutIs(s: State, t: State, i: Cells, q: Quad)
    requires Distinct(i) && t[i.a] == q.a && t[i.b] == q.b && t[i.c] == q.c && t[i.d] == q.d
    requires forall j | 0 <= j < 16 && j != i.a && j != i.b && j != i.c && j != i.d :: t[j] == s[j]
    ensures t == Put(s, i, q)
  {
  }

  lemma HalfMixIs(q: Quad, m: Word, n1: bv6, n2: bv6, a: Word, b: Word, c: Word, d: Word)
    requires IsAmount(n1) && IsAmount(n2)
    requires a == Plus(q.a, Plus(q.b, m)) && d == Rotr(Xor(q.d, a), n1) && c == Plus(q.c, d)
             && b == Rotr(Xor(q.b, c), n2)
    ensures HalfMix(q, m, n1, n2) == Quad(a, b, c, d)
  {
    hide Plus, Rotr, Xor;
  }

  lemma LastPart(s: State, m: State, p: seq<nat>, k: nat)
    requires Schedule(p) && k < 8
    ensures Part(s, m, p, k + 1) == G(Part(s, m, p, k), CellsOf(k), m[p[2 * k]], m[p[2 * k + 1]])
  {
    hide G;
  }

  /** One pass of the loop body: eight calls. */
  method RunRound(s: array<Word>, m: array<Word>, p: seq<nat>)
    requires s.Length == 16 && m.Length == 16 && s != m && Schedule(p)
    modifies s
    ensures s[..] == Round(old(s[..]), m[..], p)
  {
    hide G, Part;
    ghost var was: State, msg: State := s[..], m[..];
    PartStart(was, msg, p);
    LastPart(was, msg, p, 0);
    B3G(s, 0, 4, 8, 12, m[p[0]], m[p[1]]);
    LastPart(was, msg, p, 1);
    B3G(s, 1, 5, 9, 13, m[p[2]], m[p[3]]);
    LastPart(was, msg, p, 2);
    B3G(s, 2, 6, 10, 14, m[p[4]], m[p[5]]);
    LastPart(was, msg, p, 3);
    B3G(s, 3, 7, 11, 15, m[p[6]], m[p[7]]);
    LastPart(was, msg, p, 4);
    B3G(s, 0, 5, 10, 15, m[p[8]], m[p[9]]);
    LastPart(was, msg, p, 5);
    B3G(s, 1, 6, 11, 12, m[p[10]], m[p[11]]);
    LastPart(was, msg, p, 6);
    B3G(s, 2, 7, 8, 13, m[p[12]], m[p[13]]);
    LastPart(was, msg, p, 7);
    B3G(s, 3, 4, 9, 14, m[p[14]], m[p[15]]);
  }

  lemma PartStart(s: State, m: State, p: seq<nat>)
    requires Schedule(p)
    ensures Part(s, m, p, 0) == s
  {
  }

  method LoadMessage(blk: array<Byte>, off: nat) returns (m: array<Word>)
    requires off + 64 <= blk.Length
    ensures fresh(m) && m.Length == 16 && m[..] == MessageOf(blk[off..off + 64])
  {
    hide LoadWord;
    m := new Word[16];
    for i := 0 to 16
      invariant forall j | 0 <= j < i :: m[j] == MessageOf(blk[off..off + 64])[j]
    {
      var o := off + 4 * i;
      m[i] := LoadWord(blk[o], blk[o + 1], blk[o + 2], blk[o + 3]);
    }
  }

  method B3Compress(cv: array<Word>, blk: array<Byte>, off: nat, blen: Byte, ctr: bv64, fl: Byte, out: array<Word>)
    requires cv.Length == 8 && out.Length == 16 && cv != out && off + 64 <= blk.Length
    modifies out
    ensures out[..] == Compress(cv[..], blk[off..off + 64], blen, ctr, fl)
  {
    hide Xor, LoadWord, Round, Sigma, MessageOf, Initial, Feed;
    var m := LoadMessage(blk, off);
    var init := Initial(cv[..], blen, ctr, fl);
    var s := new Word[16](i requires 0 <= i < 16 => init[i]);
    assert s[..] == init;
    for r := 0 to 7
      invariant s[..] == Rounds(init, m[..], r) && m[..] == MessageOf(blk[off..off + 64])
    {
      SigmaIsSchedule(r);
      RunRound(s, m, Sigma(r));
    }
    FeedForward(s, cv, out);
  }

  /** The last loop of `b3_compress`. */
  method FeedForward(s: array<Word>, cv: array<Word>, out: array<Word>)
    requires s.Length == 16 && cv.Length == 8 && out.Length == 16 && out != s && out != cv
    modifies out
    ensures out[..] == Feed(s[..], cv[..])
  {
    hide Xor, Feed;
    ghost var fed := Feed(s[..], cv[..]);
    for i := 0 to 8
      invariant forall j | 0 <= j < 16 && (j < i || 8 <= j < 8 + i) :: out[j] == fed[j]
      invariant s[..] == old(s[..]) && cv[..] == old(cv[..])
    {
      FeedAt(s[..], cv[..], i);
      out[i] := Xor(s[i], s[i + 8]);
      out[i + 8] := Xor(s[i + 8], cv[i]);
    }
    assert out[..] == fed;
  }

  lemma FeedAt(s: State, cv: Chaining, i: nat)
    requires i < 8
    ensures Feed(s, cv)[i] == Xor(s[i], s[i + 8]) && Feed(s, cv)[i + 8] == Xor(s[i + 8], cv[i])
  {
    hide Xor;
  }

  // ----- chaining -----

  function Flags(fl: Byte, fs: Byte, fe: Byte, b: nat, nblk: nat): Byte {
    fl | (if b == 0 then fs else 0) | (if b + 1 == nblk then fe else 0)
  }

  /** The first block carries the start flag, the last the end flag, a single one both
      and those between neither. */
  lemma FlagsOfBlocks(fl: Byte, fs: Byte, fe: Byte, b: nat, nblk: nat)
    requires b < nblk
    ensures nblk == 1 ==> Flags(fl, fs, fe, b, nblk) == fl | fs | fe
    ensures nblk > 1 && b == 0 ==> Flags(fl, fs, fe, b, nblk) == fl | fs
    ensures nblk > 1 && b == nblk - 1 ==> Flags(fl, fs, fe, b, nblk) == fl | fe
    ensures 0 < b < nblk - 1 ==> Flags(fl, fs, fe, b, nblk) == fl
  {
  }

  datatype Job = Job(key: Chaining, nblk: nat, ctr: bv64, inc: bool, fl: Byte, fs: Byte, fe: Byte)

  /** The counter of input number i; it wraps at 2^64. */
  function Counted(ctr: bv64, inc: bool, i: nat): bv64
    requires i < 0x1_0000_0000_0000_0000
  {
    if inc then ctr + (i as bv64) else ctr
  }

  /** Without increment every input has the same counter; with it input i's is i past
      the first's. */
  lemma Counters(ctr: bv64, i: nat)
    requires i < 0x1_0000_0000_0000_0000
    ensures Counted(ctr, false, i) == ctr && Counted(ctr, true, i) == ctr + (i as bv64)
    ensures Counted(ctr, true, 1) == ctr + 1
  {
  }

  /** The chaining value after the first b blocks of an input: each compression
      takes the last one's output. */
  ghost function Fold(j: Job, input: seq<Byte>, ctr: bv64, b: nat): Chaining
    requires b <= j.nblk && |input| >= 64 * j.nblk
  {
    if b == 0 then j.key
    else Compress(Fold(j, input, ctr, b - 1), input[64 * (b - 1)..64 * b], 64, ctr,
                  Flags(j.fl, j.fs, j.fe, b - 1, j.nblk))[..8]
  }

  function Bytes(ws: seq<Word>): seq<Byte> {
    seq(4 * |ws|, k requires 0 <= k < 4 * |ws| => ByteOf(ws[k / 4], k % 4))
  }

  /** Bytes of words read back as the words. */
  lemma BytesReadBack(ws: State)
    ensures MessageOf(Bytes(ws)) == ws
  {
    hide LoadWord, ByteOf, MessageOf;
    forall i | 0 <= i < 16 ensures MessageOf(Bytes(ws))[i] == ws[i] {
      WordReadBack(ws, i);
    }
  }

  lemma WordReadBack(ws: State, i: nat)
    requires i < 16
    ensures MessageOf(Bytes(ws))[i] == ws[i]
  {
    hide LoadWord, ByteOf, Bytes;
    ByteAt(ws, i, 0);
    ByteAt(ws, i, 1);
    ByteAt(ws, i, 2);
    ByteAt(ws, i, 3);
    LoadStore(ws[i]);
  }

  lemma ByteAt(ws: State, i: nat, k: nat)
    requires i < 16 && k < 4
    ensures |Bytes(ws)| == 64 && Bytes(ws)[4 * i + k] == ByteOf(ws[i], k)
  {
    hide ByteOf;
  }

  method HashOne(j: Job, inp: array<Byte>, c: bv64) returns (cv: array<Word>)
    requires inp.Length >= 64 * j.nblk
    ensures fresh(cv) && cv.Length == 8 && cv[..] == Fold(j, inp[..], c, j.nblk)
  {
    hide Compress, Flags;
    cv := new Word[8](i requires 0 <= i < 8 => j.key[i]);
    assert cv[..] == j.key;
    var b := 0;
    while b < j.nblk
      invariant 0 <= b <= j.nblk && cv[..] == Fold(j, inp[..], c, b)
    {
      var f := new Word[16];
      B3Compress(cv, inp, b * 64, 64, c, Flags(j.fl, j.fs, j.fe, b, j.nblk), f);
      assert inp[..][64 * b..64 * (b + 1)] == inp[b * 64..b * 64 + 64];
      CopyWords(f, cv);
      b := b + 1;
    }
  }

  /** `memcpy(cv, f, 32)` */
  method CopyWords(f: array<Word>, cv: array<Word>)
    requires f.Length >= 8 && cv.Length == 8 && f != cv
    modifies cv
    ensures cv[..] == f[..8]
  {
    forall k | 0 <= k < 8 { cv[k] := f[k]; }
  }

  /** `memcpy(out + at, cv, 4 * words)` on a little-endian host. */
  method CopyOut(ws: array<Word>, out: array<Byte>, at: nat)
    requires at + 4 * ws.Length <= out.Length
    modifies out
    ensures out[..] == old(out[..at]) + Bytes(ws[..]) + old(out[at + 4 * ws.Length..])
  {
    hide ByteOf;
    forall k | 0 <= k < 4 * ws.Length { out[at + k] := ByteOf(ws[k / 4], k % 4); }
  }

  /** `b3_hash_many`: slice i of the output is the fold over input i, and nothing
      else is written. */
  method B3HashMany(inputs: seq<array<Byte>>, ni: nat, j: Job, out: array<Byte>)
    requires ni <= |inputs| && ni < 0x1_0000_0000_0000_0000 && 32 * ni <= out.Length
    requires forall i | 0 <= i < ni :: inputs[i] != out && inputs[i].Length >= 64 * j.nblk
    modifies out
    ensures out[32 * ni..] == old(out[32 * ni..])
    ensures forall i | 0 <= i < ni ::
            out[32 * i..32 * i + 32] == Bytes(Fold(j, inputs[i][..], Counted(j.ctr, j.inc, i), j.nblk))
  {
    hide Bytes, Fold, Counted;
    var i := 0;
    while i < ni
      invariant 0 <= i <= ni
      invariant out[32 * i..] == old(out[32 * i..])
      invariant forall h | 0 <= h < i ::
                out[32 * h..32 * h + 32] == Bytes(Fold(j, inputs[h][..], Counted(j.ctr, j.inc, h), j.nblk))
    {
      var cv := HashOne(j, inputs[i], Counted(j.ctr, j.inc, i));
      ghost var before := out[..];
      CopyOut(cv, out, i * 32);
      SlicesKept(before, out[..], cv[..], i);
      i := i + 1;
    }
  }

  lemma SlicesKept(before: seq<Byte>, after: seq<Byte>, ws: Chaining, i: nat)
    requires 32 * i + 32 <= |before| && after == before[..32 * i] + Bytes(ws) + before[32 * i + 32..]
    ensures |after| == |before| && after[32 * i..32 * i + 32] == Bytes(ws)
            && after[32 * (i + 1)..] == before[32 * (i + 1)..]
    ensures forall h: nat | h < i :: after[32 * h..32 * h + 32] == before[32 * h..32 * h + 32]
  {
    hide ByteOf;
  }

  /** `b3_compress_in_place` */
  method B3CompressInPlace(cv: array<Word>, blk: array<Byte>, blen: Byte, ctr: bv64, fl: Byte)
    requires cv.Length == 8 && blk.Length >= 64
    modifies cv
    ensures cv[..] == Compress(old(cv[..]), blk[..64], blen, ctr, fl)[..8]
  {
    hide Compress;
    var o := new Word[16];
    B3Compress(cv, blk, 0, blen, ctr, fl, o);
    assert blk[0..0 + 64] == blk[..64];
    CopyWords(o, cv);
  }

  /** `b3_compress_xof` writes all sixteen words. */
  method B3CompressXof(cv: array<Word>, blk: array<Byte>, blen: Byte, ctr: bv64, fl: Byte, out: array<Byte>)
    requires cv.Length == 8 && blk.Length >= 64 && out.Length == 64
    modifies out
    ensures out[..] == Bytes(Compress(cv[..], old(blk[..64]), blen, ctr, fl))
  {
    hide Compress, ByteOf, Bytes;
    var st := new Word[16];
    B3Compress(cv, blk, 0, blen, ctr, fl, st);
    assert blk[0..0 + 64] == blk[..64];
    ghost var ws := st[..];
    ghost var all := Bytes(ws);
    BytesLength(ws);
    for i := 0 to 16
      invariant st[..] == ws && forall k | 0 <= k < 4 * i :: out[k] == all[k]
    {
      ByteAt(ws, i, 0);
      ByteAt(ws, i, 1);
      ByteAt(ws, i, 2);
      ByteAt(ws, i, 3);
      out[4 * i] := ByteOf(st[i], 0);
      out[4 * i + 1] := ByteOf(st[i], 1);
      out[4 * i + 2] := ByteOf(st[i], 2);
      out[4 * i + 3] := ByteOf(st[i], 3);
    }
    assert out[..] == all;
  }

  lemma BytesLength(ws: State)
    ensures |Bytes(ws)| == 64
  {
  }
}
