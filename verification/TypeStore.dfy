/** The hash-consed store of C types. */
module TypeStore {
  import opened Wrappers
  import opened IntMath

  /** References to other types are indices into the store. */
  datatype TypeKind =
    | Void
    | Bool
    | Int(bits: nat, signed: bool)
    | Float(bits: nat)
    | Ptr
    | Array(element: nat, len: nat)
    | Struct(fields: seq<nat>, packed: bool, name: Option<string>)
    | Function(ret: nat, args: seq<nat>, variadic: bool)
    | Vector(element: nat, len: nat)
    | PtrWidth(signed: bool)

  function Children(k: TypeKind): set<nat> {
    match k
    case Array(e, _) => {e}
    case Vector(e, _) => {e}
    case Struct(fs, _, _) => set f | f in fs
    case Function(r, args, _) => {r} + set a | a in args
    case _ => {}
  }

  /** Every reference a kind holds is one of its children, and nothing else is. */
  lemma ChildrenAre(k: TypeKind, c: nat)
    ensures c in Children(k) <==>
            || ((k.Array? || k.Vector?) && c == k.element)
            || (k.Struct? && c in k.fields)
            || (k.Function? && (c == k.ret || c in k.args))
  {
  }

  /** Types refer only to types interned before them. */
  ghost predicate Acyclic(types: seq<TypeKind>) {
    forall i, c | 0 <= i < |types| && c in Children(types[i]) :: c < i
  }

  ghost predicate Injective(types: seq<TypeKind>) {
    forall i, j | 0 <= i < j < |types| :: types[i] != types[j]
  }

  const REF_LIMIT: int := 0x1_0000_0000

  /** References are 32-bit. */
  lemma ReferenceBits()
    ensures REF_LIMIT == Pow2(32)
  {
    assert Pow2(8) == 256;
    Pow2Add(8, 8);
    Pow2Add(16, 16);
  }

  class Store {
    var types: seq<TypeKind>
    var index: map<TypeKind, nat>

    ghost predicate Valid()
      reads this
    {
      && Acyclic(types) && Injective(types) && |types| <= REF_LIMIT
      && (forall i | 0 <= i < |types| :: types[i] in index && index[types[i]] == i)
      && (forall k | k in index :: index[k] < |types| && types[index[k]] == k)
    }

    constructor ()
      ensures Valid() && types == []
    {
      types, index := [], map[];
    }

    /** `intern`: the reference names the kind, no reference given out before
        changes, and a kind already present is not stored again. */
    method Intern(kind: TypeKind) returns (r: nat)
      requires Valid() && (forall c | c in Children(kind) :: c < |types|)
      requires |types| < REF_LIMIT
      modifies this
      ensures Valid() && old(types) <= types && r < |types| && types[r] == kind
      ensures types == if kind in old(types) then old(types) else old(types) + [kind]
      ensures forall i, j | 0 <= i < |types| && 0 <= j < |types| && types[i] == types[j] :: i == j
    {
      if kind in index {
        return index[kind];
      }
      var idx := |types|;
      r := idx % REF_LIMIT;
      types := types + [kind];
      index := index[kind := r];
    }

    /** Interning twice gives one reference, and different kinds different ones. */
    method InternTwice(a: TypeKind, b: TypeKind) returns (r: nat, s: nat)
      requires Valid() && |types| + 1 < REF_LIMIT
      requires (forall c | c in Children(a) :: c < |types|) && (forall c | c in Children(b) :: c < |types|)
      modifies this
      ensures Valid() && (r == s <==> a == b)
    {
      r := Intern(a);
      s := Intern(b);
    }

    /** `render_struct_defs`: which types get a definition, in order. */
    method StructDefs() returns (defs: seq<nat>)
      requires Valid()
      ensures DefinitionsOf(types, defs)
      ensures forall d: nat :: d in defs <==>
                d < |types| && (types[d].Vector? || (types[d].Struct? && types[d].name == None))
    {
      defs := [];
      var i := 0;
      while i < |types|
        invariant 0 <= i <= |types|
        invariant DefinitionsOf(types[..i], defs)
      {
        if HasDef(types[i]) {
          defs := defs + [i];
        }
        i := i + 1;
      }
    }
  }

  /** Unnamed structs and vectors are defined from the store. */
  predicate HasDef(k: TypeKind) {
    k.Vector? || (k.Struct? && k.name.None?)
  }

  /** Exactly the types with a definition, each once, in the order of the store. */
  ghost predicate DefinitionsOf(types: seq<TypeKind>, defs: seq<nat>) {
    && (forall a | 0 <= a < |defs| :: defs[a] < |types| && HasDef(types[defs[a]]))
    && (forall a, b | 0 <= a < b < |defs| :: defs[a] < defs[b])
    && (forall d: nat | d < |types| && HasDef(types[d]) :: d in defs)
  }

  /** Types whose complete definition a value of type r contains: through fields,
      array elements and vector elements, but not through pointers. */
  ghost predicate Embeds(types: seq<TypeKind>, r: nat, d: nat)
    requires Acyclic(types) && r < |types|
    decreases r
  {
    match types[r]
    case Array(e, _) => assert e in Children(types[r]); e == d || Embeds(types, e, d)
    case Vector(e, _) => assert e in Children(types[r]); e == d || Embeds(types, e, d)
    case Struct(fs, _, _) => exists f | f in fs :: f in Children(types[r]) && (f == d || Embeds(types, f, d))
    case _ => false
  }

  lemma {:induction false} EmbeddedIsEarlier(types: seq<TypeKind>, r: nat, d: nat)
    requires Acyclic(types) && r < |types| && Embeds(types, r, d)
    ensures d < r
    decreases r
  {
    match types[r]
    case Array(e, _) =>
      assert e in Children(types[r]);
      if e != d { EmbeddedIsEarlier(types, e, d); }
    case Vector(e, _) =>
      assert e in Children(types[r]);
      if e != d { EmbeddedIsEarlier(types, e, d); }
    case Struct(fs, _, _) =>
      var f :| f in fs && f in Children(types[r]) && (f == d || Embeds(types, f, d));
      if f != d { EmbeddedIsEarlier(types, f, d); }
  }

  /** Every definition comes after the definitions of everything it embeds, so each
      is complete where it is used. */
  lemma DefinedBeforeEmbedding(types: seq<TypeKind>, defs: seq<nat>, b: nat, d: nat)
    requires Acyclic(types)
    requires DefinitionsOf(types, defs)
    requires b < |defs| && d < |types| && Embeds(types, defs[b], d) && HasDef(types[d])
    ensures exists a :: 0 <= a < b && defs[a] == d
  {
    EmbeddedIsEarlier(types, defs[b], d);
    assert d in defs;
  }

  // ----- alignment -----

  function RoundBits(bits: nat): nat {
    if bits <= 8 then 8 else if bits <= 16 then 16 else if bits <= 32 then 32 else if bits <= 64 then 64 else 128
  }

  function NextPowerOfTwo(x: nat, from: nat): nat
    requires from > 0
    decreases if x > from then x - from else 0
  {
    if from >= x then from else NextPowerOfTwo(x, 2 * from)
  }

  function Max(a: nat, b: nat): nat { if a >= b then a else b }

  /** `natural_align_bytes` */
  function NaturalAlign(types: seq<TypeKind>, r: nat, ptr: nat): nat
    requires Acyclic(types) && r < |types|
    decreases r, 1, 0
  {
    match types[r]
    case Void => 1
    case Bool => 1
    case Int(bits, _) => Max(RoundBits(bits) / 8, 1)
    case Float(bits) => Max(bits / 8, 1)
    case Ptr => ptr
    case PtrWidth(_) => ptr
    case Array(e, _) => assert e in Children(types[r]); NaturalAlign(types, e, ptr)
    case Vector(e, len) => assert e in Children(types[r]); NextPowerOfTwo(NaturalAlign(types, e, ptr) * len, 1)
    case Struct(fs, packed, _) =>
      assert forall i | 0 <= i < |fs| :: fs[i] in Children(types[r]);
      if packed then 1 else MaxAlign(types, fs, r, ptr)
    case Function(_, _, _) => ptr
  }

  function MaxAlign(types: seq<TypeKind>, fs: seq<nat>, bound: nat, ptr: nat): nat
    requires Acyclic(types) && bound <= |types| && forall i | 0 <= i < |fs| :: fs[i] < bound
    decreases bound, 0, |fs|
  {
    if fs == [] then 1 else Max(NaturalAlign(types, fs[0], ptr), MaxAlign(types, fs[1..], bound, ptr))
  }

  /** The size in bytes C gives a scalar: the least standard width that holds an
      integer's bits, a float's own width, the pointer size, and 1 for `_Bool`. */
  ghost predicate ScalarSize(k: TypeKind, ptr: nat, size: nat) {
    match k
    case Bool => size == 1
    case Int(bits, _) =>
      && (size == 1 || size == 2 || size == 4 || size == 8 || size == 16) && (bits <= 8 * size || size == 16)
      && forall n: nat | (n == 1 || n == 2 || n == 4 || n == 8 || n == 16) && bits <= 8 * n :: size <= n
    case Float(bits) => 8 * size == bits
    case Ptr => size == ptr
    case PtrWidth(_) => size == ptr
    case Function(_, _, _) => size == ptr
    case _ => false
  }

  /** A scalar is aligned to its size, by both rules. */
  lemma ScalarAlign(types: seq<TypeKind>, r: nat, ptr: nat)
    requires Acyclic(types) && r < |types| && Standard(types, ptr)
    requires !types[r].Void? && !types[r].Array? && !types[r].Vector? && !types[r].Struct?
    ensures ScalarSize(types[r], ptr, NaturalAlign(types, r, ptr)) && ScalarSize(types[r], ptr, CAlign(types, r, ptr))
  {
  }

  /** An array takes its element's alignment, a packed struct and one without fields
      1, and a vector the least power of two that holds its elements. */
  lemma SequenceAlign(types: seq<TypeKind>, r: nat, ptr: nat)
    requires Acyclic(types) && r < |types| && Standard(types, ptr)
    ensures types[r].Array?
            ==> types[r].element < r && NaturalAlign(types, r, ptr) == NaturalAlign(types, types[r].element, ptr)
    ensures types[r].Vector? ==>
              && types[r].element < r
              && var total := NaturalAlign(types, types[r].element, ptr) * types[r].len;
                 var a := NaturalAlign(types, r, ptr);
                 IsPow2(a) && a >= total && (a == 1 || a < 2 * total)
    ensures types[r].Void? || (types[r].Struct? && (types[r].packed || types[r].fields == [])) ==>
              NaturalAlign(types, r, ptr) == 1
  {
    hide NextPowerOfTwo, IsPow2;
    match types[r]
    case Array(e, _) => assert e in Children(types[r]);
    case Vector(e, len) =>
      assert e in Children(types[r]);
      SmallPowers();
      NextIsPow2(NaturalAlign(types, e, ptr) * len, 1);
      NextIsLeast(NaturalAlign(types, e, ptr) * len, 1);
    case _ =>
  }

  /** An unpacked struct takes the largest alignment of its fields. */
  lemma StructAlign(types: seq<TypeKind>, r: nat, ptr: nat)
    requires Acyclic(types) && r < |types| && Standard(types, ptr)
    requires types[r].Struct? && !types[r].packed && types[r].fields != []
    ensures forall f | f in types[r].fields :: f < r && NaturalAlign(types, f, ptr) <= NaturalAlign(types, r, ptr)
    ensures exists f :: f in types[r].fields && f < r && NaturalAlign(types, f, ptr) == NaturalAlign(types, r, ptr)
  {
    var fs := types[r].fields;
    assert forall i | 0 <= i < |fs| :: fs[i] in Children(types[r]);
    MaxIsPow2(types, fs, r, ptr);
    MaxAttained(types, fs, r, ptr);
    assert NaturalAlign(types, r, ptr) == MaxAlign(types, fs, r, ptr);
  }

  lemma {:induction false} NextIsLeast(x: nat, from: nat)
    requires from > 0
    ensures NextPowerOfTwo(x, from) == from || NextPowerOfTwo(x, from) < 2 * x
    decreases if x > from then x - from else 0
  {
    if from < x { NextIsLeast(x, 2 * from); }
  }

  lemma {:induction false} MaxAttained(types: seq<TypeKind>, fs: seq<nat>, bound: nat, ptr: nat)
    requires Acyclic(types) && bound <= |types| && (forall i | 0 <= i < |fs| :: fs[i] < bound) && Standard(types, ptr)
    requires fs != []
    ensures exists f :: f in fs && NaturalAlign(types, f, ptr) == MaxAlign(types, fs, bound, ptr)
    decreases |fs|
  {
    hide NaturalAlign;
    AlignPositive(types, fs[0], ptr);
    if |fs| == 1 {
      assert MaxAlign(types, fs[1..], bound, ptr) == 1;
      assert fs[0] in fs;
    } else {
      MaxAttained(types, fs[1..], bound, ptr);
      var f :| f in fs[1..] && NaturalAlign(types, f, ptr) == MaxAlign(types, fs[1..], bound, ptr);
      assert f in fs && fs[0] in fs;
    }
  }

  lemma AlignPositive(types: seq<TypeKind>, r: nat, ptr: nat)
    requires Acyclic(types) && r < |types| && Standard(types, ptr)
    ensures NaturalAlign(types, r, ptr) >= 1
  {
    AlignIsPow2(types, r, ptr);
    var n: nat :| NaturalAlign(types, r, ptr) == Pow2(n);
    Pow2Monotone(0, n);
  }

  /** The alignment the C compiler itself gives the rendered type: a vector is a
      struct around an array, so it has its element's. */
  function CAlign(types: seq<TypeKind>, r: nat, ptr: nat): nat
    requires Acyclic(types) && r < |types|
    decreases r, 1, 0
  {
    match types[r]
    case Array(e, _) => assert e in Children(types[r]); CAlign(types, e, ptr)
    case Vector(e, _) => assert e in Children(types[r]); CAlign(types, e, ptr)
    case Struct(fs, packed, _) =>
      assert forall i | 0 <= i < |fs| :: fs[i] in Children(types[r]);
      if packed then 1 else MaxCAlign(types, fs, r, ptr)
    case _ => NaturalAlign(types, r, ptr)
  }

  function MaxCAlign(types: seq<TypeKind>, fs: seq<nat>, bound: nat, ptr: nat): nat
    requires Acyclic(types) && bound <= |types| && forall i | 0 <= i < |fs| :: fs[i] < bound
    decreases bound, 0, |fs|
  {
    if fs == [] then 1 else Max(CAlign(types, fs[0], ptr), MaxCAlign(types, fs[1..], bound, ptr))
  }

  ghost predicate IsPow2(x: nat) {
    exists n: nat :: x == Pow2(n)
  }

  /** Widths C can render, on a target with 4- or 8-byte pointers. */
  ghost predicate Standard(types: seq<TypeKind>, ptr: nat) {
    && (ptr == 4 || ptr == 8)
    && forall i | 0 <= i < |types| && types[i].Float? ::
         types[i].bits == 16 || types[i].bits == 32 || types[i].bits == 64 || types[i].bits == 128
  }

  lemma SmallPowers()
    ensures IsPow2(1) && IsPow2(2) && IsPow2(4) && IsPow2(8) && IsPow2(16)
  {
    assert Pow2(0) == 1 && Pow2(1) == 2 && Pow2(2) == 4 && Pow2(3) == 8 && Pow2(4) == 16;
  }

  lemma {:induction false} NextIsPow2(x: nat, from: nat)
    requires IsPow2(from)
    ensures from > 0 && IsPow2(NextPowerOfTwo(x, from)) && NextPowerOfTwo(x, from) >= x
            && NextPowerOfTwo(x, from) >= from
    decreases if x > from then x - from else 0
  {
    var n: nat :| from == Pow2(n);
    if from < x {
      assert 2 * from == Pow2(n + 1);
      NextIsPow2(x, 2 * from);
    }
  }

  /** Of two powers of two the larger is a multiple of the smaller. */
  lemma Divides(a: nat, b: nat)
    requires IsPow2(a) && IsPow2(b) && a <= b
    ensures a > 0 && b % a == 0
  {
    var m: nat :| a == Pow2(m);
    var n: nat :| b == Pow2(n);
    if m <= n {
      Pow2Add(m, n - m);
      DivModUnique(b, a, Pow2(n - m), 0);
    } else {
      Pow2Monotone(n, m);
      DivModUnique(b, a, 1, 0);
    }
  }

  lemma {:induction false} AlignIsPow2(types: seq<TypeKind>, r: nat, ptr: nat)
    requires Acyclic(types) && r < |types| && Standard(types, ptr)
    ensures IsPow2(NaturalAlign(types, r, ptr)) && IsPow2(CAlign(types, r, ptr))
    decreases r, 1, 0
  {
    hide IsPow2, NextPowerOfTwo;
    SmallPowers();
    match types[r]
    case Array(e, _) =>
      assert e in Children(types[r]);
      AlignIsPow2(types, e, ptr);
    case Vector(e, len) =>
      assert e in Children(types[r]);
      AlignIsPow2(types, e, ptr);
      VectorAlign(NaturalAlign(types, e, ptr), len);
    case Struct(fs, packed, _) =>
      assert forall i | 0 <= i < |fs| :: fs[i] in Children(types[r]);
      if !packed { MaxIsPow2(types, fs, r, ptr); }
    case _ =>
  }

  lemma VectorAlign(a: nat, len: nat)
    ensures IsPow2(NextPowerOfTwo(a * len, 1)) && (len > 0 ==> NextPowerOfTwo(a * len, 1) >= a)
    ensures len == 0 ==> NextPowerOfTwo(a * len, 1) == 1
  {
    SmallPowers();
    NextIsPow2(a * len, 1);
    if len > 0 { MulMonotone(1, len, a); }
  }

  lemma {:induction false} MaxIsPow2(types: seq<TypeKind>, fs: seq<nat>, bound: nat, ptr: nat)
    requires Acyclic(types) && bound <= |types| && (forall i | 0 <= i < |fs| :: fs[i] < bound) && Standard(types, ptr)
    ensures IsPow2(MaxAlign(types, fs, bound, ptr)) && IsPow2(MaxCAlign(types, fs, bound, ptr))
    ensures forall f | f in fs :: NaturalAlign(types, f, ptr) <= MaxAlign(types, fs, bound, ptr)
    decreases bound, 0, |fs|
  {
    hide IsPow2;
    SmallPowers();
    if fs != [] {
      AlignIsPow2(types, fs[0], ptr);
      MaxIsPow2(types, fs[1..], bound, ptr);
    }
  }

  /** The C alignments of the fields decide the struct's. */
  lemma {:induction false} MaxCAlignBound(types: seq<TypeKind>, fs: seq<nat>, bound: nat, ptr: nat, limit: nat)
    requires Acyclic(types) && bound <= |types| && (forall i | 0 <= i < |fs| :: fs[i] < bound) && limit > 0
    ensures MaxCAlign(types, fs, bound, ptr) <= limit
            <==> forall i | 0 <= i < |fs| :: CAlign(types, fs[i], ptr) <= limit
    decreases |fs|
  {
    if fs != [] {
      MaxCAlignBound(types, fs[1..], bound, ptr, limit);
      assert (forall i | 0 <= i < |fs| :: CAlign(types, fs[i], ptr) <= limit)
        <==> (&& CAlign(types, fs[0], ptr) <= limit
              && forall i | 0 <= i < |fs[1..]| :: CAlign(types, fs[1..][i], ptr) <= limit) by {
        assert forall i | 0 <= i < |fs[1..]| :: fs[1..][i] == fs[i + 1];
        assert forall i | 0 < i < |fs| :: fs[i] == fs[1..][i - 1];
      }
    }
  }

  /** Every zero-length vector the type holds, through arrays, vectors and unpacked
      structs, has elements that C aligns to at most `limit`. */
  ghost predicate EmptyVectorsFit(types: seq<TypeKind>, r: nat, ptr: nat, limit: nat)
    requires Acyclic(types) && r < |types|
    decreases r
  {
    match types[r]
    case Array(e, _) => assert e in Children(types[r]); EmptyVectorsFit(types, e, ptr, limit)
    case Vector(e, len) => assert e in Children(types[r]); if len == 0 then CAlign(types, e, ptr) <= limit
      else EmptyVectorsFit(types, e, ptr, limit)
    case Struct(fs, packed, _) => packed
      || forall i | 0 <= i < |fs| :: fs[i] in Children(types[r]) && EmptyVectorsFit(types, fs[i], ptr, limit)
    case _ => true
  }

  /** Above the computed alignment, only zero-length vectors can ask for more. */
  lemma {:induction false} FitIsEnough(types: seq<TypeKind>, r: nat, ptr: nat, limit: nat)
    requires Acyclic(types) && r < |types| && Standard(types, ptr) && limit >= NaturalAlign(types, r, ptr) && limit > 0
    ensures CAlign(types, r, ptr) <= limit <==> EmptyVectorsFit(types, r, ptr, limit)
    decreases r
  {
    hide NextPowerOfTwo, IsPow2;
    match types[r]
    case Array(e, _) =>
      assert e in Children(types[r]);
      FitIsEnough(types, e, ptr, limit);
    case Vector(e, len) =>
      assert e in Children(types[r]);
      VectorAlign(NaturalAlign(types, e, ptr), len);
      if len > 0 { FitIsEnough(types, e, ptr, limit); }
    case Struct(fs, packed, _) =>
      assert forall i | 0 <= i < |fs| :: fs[i] in Children(types[r]);
      if !packed { FieldsFit(types, fs, r, ptr, limit); }
    case _ =>
  }

  lemma {:induction false} FieldsFit(types: seq<TypeKind>, fs: seq<nat>, r: nat, ptr: nat, limit: nat)
    requires Acyclic(types) && r < |types| && (forall i | 0 <= i < |fs| :: fs[i] < r) && Standard(types, ptr)
    requires limit >= MaxAlign(types, fs, r, ptr) && limit > 0
    ensures MaxCAlign(types, fs, r, ptr) <= limit
            <==> forall i | 0 <= i < |fs| :: EmptyVectorsFit(types, fs[i], ptr, limit)
    decreases r, 0
  {
    MaxIsPow2(types, fs, r, ptr);
    MaxCAlignBound(types, fs, r, ptr, limit);
    forall i | 0 <= i < |fs| ensures CAlign(types, fs[i], ptr) <= limit <==> EmptyVectorsFit(types, fs[i], ptr, limit) {
      FitIsEnough(types, fs[i], ptr, limit);
    }
  }

  lemma DividesIff(a: nat, b: nat)
    requires IsPow2(a) && IsPow2(b)
    ensures a > 0 && b > 0 && (b % a == 0 <==> a <= b)
  {
    if a <= b { Divides(a, b); } else { DivModUnique(b, a, 0, b); }
  }

  /** The computed alignment is a power of two. It is a multiple of the one the C
      compiler requires, so that `_Alignas` accepts it, exactly when no zero-length
      vector in the type asks for more; an unpacked struct's is a multiple of each
      field's. */
  lemma AlignasAccepts(types: seq<TypeKind>, r: nat, ptr: nat)
    requires Acyclic(types) && r < |types| && Standard(types, ptr)
    ensures IsPow2(NaturalAlign(types, r, ptr)) && CAlign(types, r, ptr) > 0
    ensures NaturalAlign(types, r, ptr) % CAlign(types, r, ptr) == 0
            <==> EmptyVectorsFit(types, r, ptr, NaturalAlign(types, r, ptr))
    ensures types[r].Struct? && !types[r].packed ==>
              forall f | f in types[r].fields ::
                f < r && NaturalAlign(types, f, ptr) > 0
                  && NaturalAlign(types, r, ptr) % NaturalAlign(types, f, ptr) == 0
  {
    AlignIsPow2(types, r, ptr);
    DividesIff(CAlign(types, r, ptr), NaturalAlign(types, r, ptr));
    FitIsEnough(types, r, ptr, NaturalAlign(types, r, ptr));
    if types[r].Struct? && !types[r].packed { FieldsDivide(types, r, ptr); }
  }

  lemma FieldsDivide(types: seq<TypeKind>, r: nat, ptr: nat)
    requires Acyclic(types) && r < |types| && Standard(types, ptr) && types[r].Struct? && !types[r].packed
    ensures forall f | f in types[r].fields ::
              f < r && NaturalAlign(types, f, ptr) > 0 && NaturalAlign(types, r, ptr) % NaturalAlign(types, f, ptr) == 0
  {
    var fs := types[r].fields;
    assert forall i | 0 <= i < |fs| :: fs[i] in Children(types[r]);
    MaxIsPow2(types, fs, r, ptr);
    AlignIsPow2(types, r, ptr);
    forall f | f in fs
      ensures f < r && NaturalAlign(types, f, ptr) > 0 && NaturalAlign(types, r, ptr) % NaturalAlign(types, f, ptr) == 0
    {
      assert f in Children(types[r]);
      AlignIsPow2(types, f, ptr);
      Divides(NaturalAlign(types, f, ptr), NaturalAlign(types, r, ptr));
    }
  }

  /** A zero-length vector itself passes exactly when C aligns its element to 1. */
  lemma EmptyVectorAlign(types: seq<TypeKind>, r: nat, ptr: nat)
    requires Acyclic(types) && r < |types| && Standard(types, ptr) && types[r].Vector? && types[r].len == 0
    ensures types[r].element < r && CAlign(types, r, ptr) > 0 && NaturalAlign(types, r, ptr) == 1
    ensures NaturalAlign(types, r, ptr) % CAlign(types, r, ptr) == 0 <==> CAlign(types, types[r].element, ptr) == 1
  {
    assert types[r].element in Children(types[r]);
    VectorAlign(NaturalAlign(types, types[r].element, ptr), 0);
    AlignasAccepts(types, r, ptr);
    AlignIsPow2(types, types[r].element, ptr);
    DividesIff(CAlign(types, types[r].element, ptr), 1);
  }

  /** A store where the alignment is refused: no elements of a 64-bit integer. */
  lemma EmptyVectorRefused()
    ensures var types := [Int(64, true), Vector(0, 0)];
            && Acyclic(types) && Injective(types)
            && NaturalAlign(types, 1, 8) == 1 && CAlign(types, 1, 8) == 8 && 1 % 8 != 0
  {
    var types := [Int(64, true), Vector(0, 0)];
    assert types[0] == Int(64, true) && types[1] == Vector(0, 0);
    assert Children(types[0]) == {} && Children(types[1]) == {0};
    assert Acyclic(types);
    assert NaturalAlign(types, 0, 8) == 8 && CAlign(types, 0, 8) == 8;
    VectorAlign(8, 0);
  }
}
