/** Array initialization by one repeated element: unrolled stores, memset, or a
    memcpy loop, chosen by count and stride, all leave the same bytes. */
module RepeatedStore {
  import opened IntMath

  /** What storing the element writes: one entry a byte, None for padding that the
      store leaves alone. */
  datatype Cell = Written(b: int) | Padding

  const UNROLL_LIMIT: nat := 16

  function Address(d: nat, i: nat, stride: nat): nat { d + i * stride }

  lemma Apart(i: nat, h: nat, stride: nat)
    requires i < h
    ensures i * stride + stride <= h * stride
  {
    MulMonotone(i + 1, h, stride);
  }

  /** The bytes at `at` are the element's; its padding is what `before` had at src. */
  ghost predicate Holds(before: seq<int>, mem: seq<int>, at: nat, elem: seq<Cell>, src: nat) {
    && at + |elem| <= |mem| && src + |elem| <= |before|
    && forall j | 0 <= j < |elem| :: mem[at + j] == if elem[j].Written? then elem[j].b else before[src + j]
  }

  /** Everything outside [from, to) is as before. */
  ghost predicate Outside(before: seq<int>, after: seq<int>, from: nat, to: nat) {
    |after| == |before| && forall a | 0 <= a < |before| && !(from <= a < to) :: after[a] == before[a]
  }

  lemma HoldsKept(was: seq<int>, before: seq<int>, after: seq<int>, at: nat, elem: seq<Cell>, src: nat, from: nat,
                  to: nat)
    requires Holds(was, before, at, elem, src) && Outside(before, after, from, to) && (at + |elem| <= from || to <= at)
    ensures Holds(was, after, at, elem, src)
  {
  }

  lemma Widen(before: seq<int>, middle: seq<int>, after: seq<int>, from: nat, to: nat, from': nat, to': nat)
    requires Outside(before, middle, from, to) && Outside(middle, after, from', to') && from <= from' && to <= to'
    ensures Outside(before, after, from, to')
  {
  }

  /** The element's own store leaves its padding alone. */
  method StoreElement(mem: array<int>, at: nat, elem: seq<Cell>)
    requires at + |elem| <= mem.Length
    modifies mem
    ensures Holds(old(mem[..]), mem[..], at, elem, at) && Outside(old(mem[..]), mem[..], at, at + |elem|)
  {
    ghost var was := mem[..];
    for j := 0 to |elem|
      invariant forall k | 0 <= k < j :: mem[at + k] == if elem[k].Written? then elem[k].b else was[at + k]
      invariant forall a | at + j <= a < at + |elem| :: mem[a] == was[a]
      invariant Outside(was, mem[..], at, at + |elem|)
    {
      if elem[j].Written? { mem[at + j] := elem[j].b; }
    }
  }

  method MemSet(mem: array<int>, at: nat, v: int, n: nat)
    requires at + n <= mem.Length
    modifies mem
    ensures forall a | at <= a < at + n :: mem[a] == v % 256
    ensures Outside(old(mem[..]), mem[..], at, at + n)
  {
    forall a | at <= a < at + n { mem[a] := v % 256; }
  }

  method MemCpy(mem: array<int>, to: nat, from: nat, n: nat)
    requires from + n <= to && to + n <= mem.Length
    modifies mem
    ensures mem[to..to + n] == old(mem[from..from + n]) && Outside(old(mem[..]), mem[..], to, to + n)
  {
    forall j | 0 <= j < n { mem[to + j] := mem[from + j]; }
  }

  /** Where element i's padding comes from: the first element when it was copied. */
  function Source(d: nat, i: nat, stride: nat, copied: bool): nat {
    if copied then d else Address(d, i, stride)
  }

  /** Elements 0 to n - 1 are in place and nothing past them has changed. */
  ghost predicate Filled(before: seq<int>, mem: seq<int>, d: nat, elem: seq<Cell>, n: nat, copied: bool) {
    && d + n * |elem| <= |mem|
    && Outside(before, mem, d, d + n * |elem|)
    && forall i: nat | i < n :: Holds(before, mem, Address(d, i, |elem|), elem, Source(d, i, |elem|, copied))
  }

  lemma FilledNext(before: seq<int>, mem: seq<int>, mem': seq<int>, d: nat, elem: seq<Cell>, n: nat, copied: bool)
    requires Filled(before, mem, d, elem, n, copied) && d + (n + 1) * |elem| <= |mem|
    requires Outside(mem, mem', Address(d, n, |elem|), Address(d, n, |elem|) + |elem|)
    requires Holds(before, mem', Address(d, n, |elem|), elem, Source(d, n, |elem|, copied))
    ensures Filled(before, mem', d, elem, n + 1, copied)
  {
    hide Holds, Outside;
    var s := |elem|;
    assert (n + 1) * s == n * s + s;
    assert d + n * s == Address(d, n, s);
    Widen(before, mem, mem', d, d + n * s, d + n * s, d + (n + 1) * s);
    SameLength(before, mem, d, d + n * s);
    SameLength(mem, mem', Address(d, n, s), Address(d, n, s) + s);
    forall i: nat | i < n ensures Holds(before, mem', Address(d, i, s), elem, Source(d, i, s, copied)) {
      Apart(i, n, s);
      HoldsKept(before, mem, mem', Address(d, i, s), elem, Source(d, i, s, copied), Address(d, n, s),
                Address(d, n, s) + s);
    }
  }

  lemma SameLength(before: seq<int>, after: seq<int>, from: nat, to: nat)
    requires Outside(before, after, from, to)
    ensures |after| == |before|
  {
  }

  lemma FilledNone(mem: seq<int>, d: nat, elem: seq<Cell>, copied: bool)
    requires d <= |mem|
    ensures Filled(mem, mem, d, elem, 0, copied)
  {
  }

  /** A store past everything changed so far keeps the original padding. */
  lemma StoreHolds(was: seq<int>, before: seq<int>, after: seq<int>, d: nat, at: nat, elem: seq<Cell>)
    requires Outside(was, before, d, at) && Holds(before, after, at, elem, at)
    ensures Holds(was, after, at, elem, at)
  {
  }

  /** Copying the first element copies its padding too. */
  lemma CopyHolds(was: seq<int>, before: seq<int>, after: seq<int>, d: nat, to: nat, elem: seq<Cell>)
    requires Holds(was, before, d, elem, d) && to + |elem| <= |after| && after[to..to + |elem|] == before[d..d + |elem|]
    ensures Holds(was, after, to, elem, d)
  {
    forall j | 0 <= j < |elem| ensures after[to + j] == if elem[j].Written? then elem[j].b else was[d + j] {
      assert after[to + j] == after[to..to + |elem|][j] == before[d..d + |elem|][j];
    }
  }

  lemma ByteFilled(before: seq<int>, mem: seq<int>, d: nat, elem: seq<Cell>, n: nat)
    requires |elem| == 1 && d + n <= |mem| && Outside(before, mem, d, d + n)
    requires elem[0].Written? && forall a | d <= a < d + n :: mem[a] == elem[0].b
    ensures Filled(before, mem, d, elem, n, false)
  {
    forall i: nat | i < n ensures Holds(before, mem, Address(d, i, 1), elem, Address(d, i, 1)) {
      assert mem[d + i] == mem[Address(d, i, 1)];
    }
  }

  /** Whether the memcpy loop is chosen. */
  predicate Copies(stride: nat, count: nat) {
    count > UNROLL_LIMIT && stride > 1
  }

  /** More than sixteen elements of more than one byte are copied in a loop. */
  lemma CopiesWhen(stride: nat, count: nat)
    ensures Copies(stride, count) <==> count >= 17 && stride >= 2
  {
  }

  /** `write_operand_repeatedly`: whichever form is chosen, every element holds the
      value, its padding is as it was or, from the memcpy loop, as the first one's
      was, and no byte outside the array changes. `v` is the rendered immediate of a
      one-byte element. */
  method WriteRepeatedly(mem: array<int>, d: nat, elem: seq<Cell>, v: int, count: nat)
    requires d + count * |elem| <= mem.Length
    requires |elem| == 1 ==> elem[0] == Written(v % 256)
    modifies mem
    ensures Filled(old(mem[..]), mem[..], d, elem, count, Copies(|elem|, count))
  {
    hide Filled, Holds, Outside;
    ghost var was := mem[..];
    var s := |elem|;
    ghost var copied := Copies(s, count);
    FilledNone(was, d, elem, copied);
    if count > UNROLL_LIMIT && s > 0 {
      if s == 1 {
        MemSet(mem, d, v, count);
        ByteFilled(was, mem[..], d, elem, count);
        return;
      }
      Apart(0, count, s);
      StoreElement(mem, d, elem);
      FilledNext(was, was, mem[..], d, elem, 0, copied);
      for rep := 1 to count
        invariant Filled(was, mem[..], d, elem, rep, copied)
      {
        ghost var before := mem[..];
        Apart(0, rep, s);
        Apart(rep, count, s);
        FirstHolds(was, before, d, elem, rep, copied);
        MemCpy(mem, d + rep * s, d, s);
        CopyHolds(was, before, mem[..], d, d + rep * s, elem);
        FilledNext(was, before, mem[..], d, elem, rep, copied);
      }
      return;
    }
    for i := 0 to count
      invariant Filled(was, mem[..], d, elem, i, copied)
    {
      ghost var before := mem[..];
      Apart(i, count, s);
      StoreElement(mem, d + i * s, elem);
      FilledOutside(was, before, d, elem, i, copied);
      StoreHolds(was, before, mem[..], d, d + i * s, elem);
      FilledNext(was, before, mem[..], d, elem, i, copied);
    }
  }

  lemma FilledOutside(before: seq<int>, mem: seq<int>, d: nat, elem: seq<Cell>, n: nat, copied: bool)
    requires Filled(before, mem, d, elem, n, copied)
    ensures Outside(before, mem, d, d + n * |elem|)
  {
  }

  lemma FirstHolds(before: seq<int>, mem: seq<int>, d: nat, elem: seq<Cell>, n: nat, copied: bool)
    requires n > 0 && Filled(before, mem, d, elem, n, copied)
    ensures Holds(before, mem, d, elem, d) && d + |elem| <= |mem|
  {
    assert Holds(before, mem, Address(d, 0, |elem|), elem, Source(d, 0, |elem|, copied));
  }

  // ----- the forms compared -----

  /** The byte a filled array has at element i, offset j. */
  lemma FilledAt(before: seq<int>, mem: seq<int>, d: nat, elem: seq<Cell>, n: nat, copied: bool, i: nat, j: nat)
    requires Filled(before, mem, d, elem, n, copied) && i < n && j < |elem|
    ensures Address(d, i, |elem|) + j < |mem| == |before| && Source(d, i, |elem|, copied) + j < |before|
    ensures mem[Address(d, i, |elem|) + j]
            == if elem[j].Written? then elem[j].b else before[Source(d, i, |elem|, copied) + j]
  {
    assert Holds(before, mem, Address(d, i, |elem|), elem, Source(d, i, |elem|, copied));
  }

  /** The padding of every element is already that of the first. */
  ghost predicate SamePadding(before: seq<int>, d: nat, elem: seq<Cell>, n: nat) {
    forall i: nat, j: nat | i < n && j < |elem| && elem[j].Padding? && Address(d, i, |elem|) + j < |before| ::
      before[Address(d, i, |elem|) + j] == before[d + j]
  }

  /** From one memory, the memcpy loop and the unrolled stores end in the same memory
      exactly when the elements' padding bytes all agree with the first element's. */
  lemma FormsAgree(before: seq<int>, stored: seq<int>, copied: seq<int>, d: nat, elem: seq<Cell>, n: nat)
    requires Filled(before, stored, d, elem, n, false) && Filled(before, copied, d, elem, n, true)
    ensures stored == copied <==> SamePadding(before, d, elem, n)
  {
    hide Filled;
    if stored == copied {
      forall i: nat, j: nat | i < n && j < |elem| && elem[j].Padding? && Address(d, i, |elem|) + j < |before|
        ensures before[Address(d, i, |elem|) + j] == before[d + j]
      {
        FilledAt(before, stored, d, elem, n, false, i, j);
        FilledAt(before, copied, d, elem, n, true, i, j);
      }
    }
    if SamePadding(before, d, elem, n) {
      FilledOutside(before, stored, d, elem, n, false);
      FilledOutside(before, copied, d, elem, n, true);
      forall a | 0 <= a < |before| ensures stored[a] == copied[a] {
        if d <= a < d + n * |elem| {
          Positive(n, |elem|);
          SameByte(before, stored, copied, d, elem, n, a);
        }
      }
    }
  }

  lemma SameByte(before: seq<int>, stored: seq<int>, copied: seq<int>, d: nat, elem: seq<Cell>, n: nat, a: nat)
    requires Filled(before, stored, d, elem, n, false) && Filled(before, copied, d, elem, n, true)
             && SamePadding(before, d, elem, n)
    requires d <= a < d + n * |elem| && |elem| > 0
    ensures a < |stored| == |copied| && stored[a] == copied[a]
  {
    hide Filled;
    var i, j := Place(a - d, n, |elem|);
    FilledAt(before, stored, d, elem, n, false, i, j);
    FilledAt(before, copied, d, elem, n, true, i, j);
  }

  lemma Positive(n: nat, stride: nat)
    requires n * stride > 0
    ensures stride > 0
  {
  }

  lemma Place(k: nat, n: nat, stride: nat) returns (i: nat, j: nat)
    requires stride > 0 && k < n * stride
    ensures i < n && j < stride && k == i * stride + j
  {
    i, j := k / stride, k % stride;
    if i >= n { MulMonotone(n, i, stride); }
  }
}
