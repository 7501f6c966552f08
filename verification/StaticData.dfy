/** Static allocations with relocations, emitted as packed structs. */
module StaticLayout {
  import opened IntMath

  /** A relocation: the bytes at `offset` hold the little-endian addend of a pointer. */
  datatype Reloc<T> = Reloc(offset: nat, target: T)

  datatype Alloc<T> = Alloc(bytes: seq<int>, relocs: seq<Reloc<T>>)

  datatype FieldKind = ByteArray(len: nat) | PointerField

  /** `unsigned char fK[len];` or `void *fK;` */
  datatype FieldDecl = FieldDecl(idx: nat, kind: FieldKind)

  datatype Init<B> = ByteInit(bytes: seq<int>) | PtrInit(base: B, addend: int)

  /** `.fK = ...` */
  datatype Designated<B> = Designated(idx: nat, init: Init<B>)

  /** `from_le_bytes` */
  function LittleEndian(bs: seq<int>): int {
    if bs == [] then 0 else bs[0] + 256 * LittleEndian(bs[1..])
  }

  ghost predicate AreBytes(bs: seq<int>) {
    forall k | 0 <= k < |bs| :: 0 <= bs[k] < 256
  }

  lemma AreBytesMeans(bs: seq<int>)
    ensures AreBytes(bs) <==> forall b | b in bs :: b == 0 || 1 <= b <= 255
  {
    if forall b | b in bs :: b == 0 || 1 <= b <= 255 {
      forall k | 0 <= k < |bs| ensures 0 <= bs[k] < 256 { assert bs[k] in bs; }
    }
  }

  /** Byte k of the addend is the byte at off + k. */
  ghost predicate Spells(addend: int, bytes: seq<int>, off: nat, ptr: nat) {
    && off + ptr <= |bytes| && 0 <= addend < Pow2(8 * ptr)
    && forall k: nat | k < ptr :: addend / Pow2(8 * k) % 256 == bytes[off + k]
  }

  lemma {:induction false} LittleEndianBytes(bs: seq<int>)
    requires AreBytes(bs)
    ensures 0 <= LittleEndian(bs) < Pow2(8 * |bs|)
    ensures forall k: nat | k < |bs| :: LittleEndian(bs) / Pow2(8 * k) % 256 == bs[k]
    decreases bs
  {
    hide Pow2;
    PowByte();
    if bs == [] {
    } else {
      LittleEndianBytes(bs[1..]);
      var rest := LittleEndian(bs[1..]);
      DivModUnique(LittleEndian(bs), 256, rest, bs[0]);
      Pow2Add(8, 8 * |bs| - 8);
      TopByte(bs[0], rest, Pow2(8 * |bs| - 8));
      forall k: nat | k < |bs| ensures LittleEndian(bs) / Pow2(8 * k) % 256 == bs[k] {
        if k == 0 {
          DivModUnique(LittleEndian(bs), 1, LittleEndian(bs), 0);
        } else {
          Pow2Add(8, 8 * k - 8);
          DivDiv(LittleEndian(bs), 256, Pow2(8 * k - 8));
          assert bs[1..][k - 1] == bs[k];
        }
      }
    }
  }

  lemma PowByte()
    ensures Pow2(0) == 1 && Pow2(8) == 256
  {
  }

  lemma TopByte(b: int, rest: int, p: int)
    requires 0 <= b < 256 && 0 <= rest < p
    ensures 0 <= b + 256 * rest < 256 * p
  {
  }

  lemma LittleEndianSpells(bytes: seq<int>, off: nat, ptr: nat)
    requires AreBytes(bytes) && off + ptr <= |bytes|
    ensures Spells(LittleEndian(bytes[off..off + ptr]), bytes, off, ptr)
  {
    hide Pow2, LittleEndian;
    LittleEndianBytes(bytes[off..off + ptr]);
    forall k: nat | k < ptr ensures LittleEndian(bytes[off..off + ptr]) / Pow2(8 * k) % 256 == bytes[off + k] {
      assert bytes[off..off + ptr][k] == bytes[off + k];
    }
  }

  /** Relocations in bounds, in order, none overlapping another; `pos` is where the
      previous one ended. */
  predicate Ordered<T>(relocs: seq<Reloc<T>>, pos: nat, len: nat, ptr: nat) {
    if relocs == [] then pos <= len
    else pos <= relocs[0].offset && relocs[0].offset + ptr <= len
         && Ordered(relocs[1..], relocs[0].offset + ptr, len, ptr)
  }

  /** In order and in bounds: each relocation ends where the next one starts or
      before, and the last one at the end or before. */
  lemma {:induction false} OrderedMeans<T>(relocs: seq<Reloc<T>>, pos: nat, len: nat, ptr: nat)
    ensures Ordered(relocs, pos, len, ptr) <==>
            && pos <= len
            && (relocs != [] ==> pos <= relocs[0].offset)
            && (forall j | 0 < j < |relocs| :: relocs[j - 1].offset + ptr <= relocs[j].offset)
            && (forall j | 0 <= j < |relocs| :: relocs[j].offset + ptr <= len)
    decreases relocs
  {
    if relocs != [] {
      OrderedMeans(relocs[1..], relocs[0].offset + ptr, len, ptr);
      assert forall j | 0 < j < |relocs| :: relocs[1..][j - 1] == relocs[j];
    }
  }

  predicate WellFormed<T>(a: Alloc<T>, ptr: nat) {
    Ordered(a.relocs, 0, |a.bytes|, ptr)
  }

  // ----- the struct, as a function of the relocation list -----

  function FieldsFrom<T>(relocs: seq<Reloc<T>>, pos: nat, idx: nat, len: nat, ptr: nat): seq<FieldDecl> {
    if relocs == [] then (if pos < len then [FieldDecl(idx, ByteArray(len - pos))] else [])
    else
      var off := relocs[0].offset;
      if off > pos then
        [FieldDecl(idx, ByteArray(off - pos)), FieldDecl(idx + 1, PointerField)]
          + FieldsFrom(relocs[1..], off + ptr, idx + 2, len, ptr)
      else [FieldDecl(idx, PointerField)] + FieldsFrom(relocs[1..], off + ptr, idx + 1, len, ptr)
  }

  function InitsFrom<T, B>(bytes: seq<int>, relocs: seq<Reloc<T>>, bases: seq<B>, pos: nat, idx: nat,
                           ptr: nat): seq<Designated<B>>
    requires |bases| == |relocs| && Ordered(relocs, pos, |bytes|, ptr)
  {
    if relocs == [] then (if pos < |bytes| then [Designated(idx, ByteInit(bytes[pos..]))] else [])
    else
      var off := relocs[0].offset;
      var p := PtrInit(bases[0], LittleEndian(bytes[off..off + ptr]));
      if off > pos then
        [Designated(idx, ByteInit(bytes[pos..off])), Designated(idx + 1, p)]
          + InitsFrom(bytes, relocs[1..], bases[1..], off + ptr, idx + 2, ptr)
      else [Designated(idx, p)] + InitsFrom(bytes, relocs[1..], bases[1..], off + ptr, idx + 1, ptr)
  }

  /** The two separately written descriptions fit: field k is designated k-th, with
      its kind and length. */
  ghost predicate Fits<B>(f: FieldDecl, d: Designated<B>, k: nat) {
    && f.idx == k && d.idx == k
    && match f.kind
       case ByteArray(len) => d.init.ByteInit? && |d.init.bytes| == len && len > 0
       case PointerField => d.init.PtrInit?
  }

  lemma {:induction false} DesignatorsFit<T, B>(bytes: seq<int>, relocs: seq<Reloc<T>>, bases: seq<B>, pos: nat,
                                                idx: nat, ptr: nat)
    requires |bases| == |relocs| && Ordered(relocs, pos, |bytes|, ptr)
    ensures var fs, ds := FieldsFrom(relocs, pos, idx, |bytes|, ptr), InitsFrom(bytes, relocs, bases, pos, idx, ptr);
            |fs| == |ds| && forall k | 0 <= k < |fs| :: Fits(fs[k], ds[k], idx + k)
    decreases relocs
  {
    hide LittleEndian, Fits, FieldsFrom, InitsFrom, Ordered;
    if relocs == [] {
      LastFits(bytes, relocs, bases, pos, idx, ptr);
    } else {
      var off := relocs[0].offset;
      var n := if off > pos then 2 else 1;
      FieldsStep(bytes, relocs, bases, pos, idx, ptr);
      DesignatorsFit(bytes, relocs[1..], bases[1..], off + ptr, idx + n, ptr);
      var fs', ds' := FieldsFrom(relocs[1..], off + ptr, idx + n, |bytes|, ptr),
          InitsFrom(bytes, relocs[1..], bases[1..], off + ptr, idx + n, ptr);
      var p: Designated<B> := Designated(idx + n - 1, PtrInit(bases[0], LittleEndian(bytes[off..off + ptr])));
      var front := if off > pos then [FieldDecl(idx, ByteArray(off - pos)), FieldDecl(idx + 1, PointerField)]
          else [FieldDecl(idx, PointerField)];
      var inits := if off > pos then [Designated(idx, ByteInit(bytes[pos..off])), p] else [p];
      assert forall k | 0 <= k < n :: Fits(front[k], inits[k], idx + k) by { FrontFits(front, inits, idx); }
      FitsJoin(front, inits, fs', ds', idx);
    }
  }

  lemma FieldsStep<T, B>(bytes: seq<int>, relocs: seq<Reloc<T>>, bases: seq<B>, pos: nat, idx: nat, ptr: nat)
    requires |bases| == |relocs| > 0 && Ordered(relocs, pos, |bytes|, ptr)
    ensures var off := relocs[0].offset;
            var n := if off > pos then 2 else 1;
            && pos <= off <= off + ptr <= |bytes| && Ordered(relocs[1..], off + ptr, |bytes|, ptr)
            && FieldsFrom(relocs, pos, idx, |bytes|, ptr)
               == (if off > pos then [FieldDecl(idx, ByteArray(off - pos)), FieldDecl(idx + 1, PointerField)]
                   else [FieldDecl(idx, PointerField)])
                  + FieldsFrom(relocs[1..], off + ptr, idx + n, |bytes|, ptr)
            && var p := Designated(idx + n - 1, PtrInit(bases[0], LittleEndian(bytes[off..off + ptr])));
               InitsFrom(bytes, relocs, bases, pos, idx, ptr)
               == (if off > pos then [Designated(idx, ByteInit(bytes[pos..off])), p] else [p])
                  + InitsFrom(bytes, relocs[1..], bases[1..], off + ptr, idx + n, ptr)
  {
    hide LittleEndian;
  }

  lemma LastFits<T, B>(bytes: seq<int>, relocs: seq<Reloc<T>>, bases: seq<B>, pos: nat, idx: nat, ptr: nat)
    requires relocs == [] && bases == [] && Ordered(relocs, pos, |bytes|, ptr)
    ensures var fs, ds := FieldsFrom(relocs, pos, idx, |bytes|, ptr), InitsFrom(bytes, relocs, bases, pos, idx, ptr);
            |fs| == |ds| && forall k | 0 <= k < |fs| :: Fits(fs[k], ds[k], idx + k)
  {
  }

  lemma FrontFits<B>(fs: seq<FieldDecl>, ds: seq<Designated<B>>, idx: nat)
    requires 1 <= |fs| == |ds| <= 2
    requires fs[|fs| - 1] == FieldDecl(idx + |fs| - 1, PointerField) && ds[|fs| - 1].idx == idx + |fs| - 1
             && ds[|fs| - 1].init.PtrInit?
    requires |fs| == 2 ==>
               && fs[0].idx == ds[0].idx == idx && fs[0].kind.ByteArray? && ds[0].init.ByteInit?
               && fs[0].kind.len == |ds[0].init.bytes| > 0
    ensures forall k | 0 <= k < |fs| :: Fits(fs[k], ds[k], idx + k)
  {
  }

  lemma FitsJoin<B>(fs: seq<FieldDecl>, ds: seq<Designated<B>>, fs': seq<FieldDecl>, ds': seq<Designated<B>>, idx: nat)
    requires |fs| == |ds| && |fs'| == |ds'|
    requires forall k | 0 <= k < |fs| :: Fits(fs[k], ds[k], idx + k)
    requires forall k | 0 <= k < |fs'| :: Fits(fs'[k], ds'[k], idx + |fs| + k)
    ensures |fs + fs'| == |ds + ds'| && forall k | 0 <= k < |fs + fs'| :: Fits((fs + fs')[k], (ds + ds')[k], idx + k)
  {
    hide Fits;
    forall k | 0 <= k < |fs + fs'| ensures Fits((fs + fs')[k], (ds + ds')[k], idx + k) {
      if k >= |fs| { assert Fits(fs'[k - |fs|], ds'[k - |fs|], idx + |fs| + (k - |fs|)); }
    }
  }

  // ----- what the struct holds in memory -----

  /** One byte of memory: a plain byte, or the k-th byte of an address. */
  datatype Cell<B> = Byte(b: int) | PtrByte(base: B, addend: int, k: nat)

  function InitImage<B>(init: Init<B>, ptr: nat): (cells: seq<Cell<B>>)
    ensures |cells| == match init { case ByteInit(bs) => |bs| case PtrInit(_, _) => ptr }
  {
    match init
    case ByteInit(bs) => seq(|bs|, i requires 0 <= i < |bs| => Byte(bs[i]))
    case PtrInit(base, addend) => seq(ptr, k requires 0 <= k < ptr => PtrByte(base, addend, k))
  }

  /** A packed struct is its fields back to back. */
  function Image<B>(ds: seq<Designated<B>>, ptr: nat): seq<Cell<B>> {
    if ds == [] then [] else InitImage(ds[0].init, ptr) + Image(ds[1..], ptr)
  }

  /** The relocation covering position i, if any. */
  ghost predicate Covers<T>(r: Reloc<T>, i: nat, ptr: nat) {
    r.offset <= i < r.offset + ptr
  }

  /** What position i of the allocation means. */
  function CellAt<T, B>(bytes: seq<int>, relocs: seq<Reloc<T>>, bases: seq<B>, i: nat, ptr: nat): Cell<B>
    requires i < |bytes| && |bases| == |relocs| && InBounds(relocs, |bytes|, ptr)
  {
    if relocs == [] then Byte(bytes[i])
    else
      var off := relocs[0].offset;
      if off <= i < off + ptr then PtrByte(bases[0], LittleEndian(bytes[off..off + ptr]), i - off)
      else CellAt(bytes, relocs[1..], bases[1..], i, ptr)
  }

  predicate InBounds<T>(relocs: seq<Reloc<T>>, len: nat, ptr: nat) {
    forall j | 0 <= j < |relocs| :: relocs[j].offset + ptr <= len
  }

  /** On an ordered list the position's meaning is the relocation that covers it,
      and the plain byte where none does. */
  lemma {:induction false} CellAtMeans<T, B>(bytes: seq<int>, relocs: seq<Reloc<T>>, bases: seq<B>, pos: nat, i: nat,
                                             j: nat, ptr: nat)
    requires i < |bytes| && |bases| == |relocs| && Ordered(relocs, pos, |bytes|, ptr) && InBounds(relocs, |bytes|, ptr)
    ensures j < |relocs| && Covers(relocs[j], i, ptr) ==>
              CellAt(bytes, relocs, bases, i, ptr) ==
              PtrByte(bases[j], LittleEndian(bytes[relocs[j].offset..relocs[j].offset + ptr]), i - relocs[j].offset)
    ensures (forall k | 0 <= k < |relocs| :: !Covers(relocs[k], i, ptr))
            ==> CellAt(bytes, relocs, bases, i, ptr) == Byte(bytes[i])
    decreases relocs
  {
    if relocs != [] {
      var next := relocs[0].offset + ptr;
      OrderedBounds(relocs[1..], next, |bytes|, ptr);
      CellAtMeans(bytes, relocs[1..], bases[1..], next, i, if j > 0 then j - 1 else 0, ptr);
      assert forall k | 0 <= k < |relocs[1..]| :: relocs[1..][k] == relocs[k + 1];
      if 0 < j < |relocs| { assert relocs[j] == relocs[1..][j - 1] && bases[j] == bases[1..][j - 1]; }
    }
  }

  lemma {:induction false} OrderedBounds<T>(relocs: seq<Reloc<T>>, pos: nat, len: nat, ptr: nat)
    requires Ordered(relocs, pos, len, ptr)
    ensures pos <= len && forall j | 0 <= j < |relocs| :: pos <= relocs[j].offset && relocs[j].offset + ptr <= len
    decreases relocs
  {
    if relocs != [] { OrderedBounds(relocs[1..], relocs[0].offset + ptr, len, ptr); }
  }

  lemma {:induction false} ImageConcat<B>(ds: seq<Designated<B>>, es: seq<Designated<B>>, ptr: nat)
    ensures Image(ds + es, ptr) == Image(ds, ptr) + Image(es, ptr)
    decreases ds
  {
    if ds == [] {
      assert ds + es == es;
    } else {
      assert (ds + es)[1..] == ds[1..] + es;
      ImageConcat(ds[1..], es, ptr);
    }
  }

  /** What the source puts at position i, without the model's way of computing it: the
      k-th byte of the covering relocation's symbol and of the addend spelled there, or
      else the plain byte. */
  ghost predicate CellIs<T, B>(c: Cell<B>, bytes: seq<int>, relocs: seq<Reloc<T>>, bases: seq<B>, i: nat, ptr: nat)
    requires i < |bytes| && |bases| == |relocs|
  {
    match c
    case Byte(b) => b == bytes[i] && forall j | 0 <= j < |relocs| :: !Covers(relocs[j], i, ptr)
    case PtrByte(base, addend, k) =>
      exists j :: 0 <= j < |relocs| && Covers(relocs[j], i, ptr) && base == bases[j]
                  && k == i - relocs[j].offset && Spells(addend, bytes, relocs[j].offset, ptr)
  }

  lemma {:induction false} CellSpelled<T, B>(bytes: seq<int>, relocs: seq<Reloc<T>>, bases: seq<B>, i: nat, ptr: nat)
    requires AreBytes(bytes) && i < |bytes| && |bases| == |relocs| && InBounds(relocs, |bytes|, ptr)
    ensures CellIs(CellAt(bytes, relocs, bases, i, ptr), bytes, relocs, bases, i, ptr)
    decreases relocs
  {
    hide Spells, LittleEndian;
    if relocs != [] {
      var off := relocs[0].offset;
      LittleEndianSpells(bytes, off, ptr);
      if off <= i < off + ptr {
        assert Covers(relocs[0], i, ptr);
      } else {
        CellSpelled(bytes, relocs[1..], bases[1..], i, ptr);
        CellIsLater(CellAt(bytes, relocs[1..], bases[1..], i, ptr), bytes, relocs, bases, i, ptr);
      }
    }
  }

  lemma CellIsLater<T, B>(c: Cell<B>, bytes: seq<int>, relocs: seq<Reloc<T>>, bases: seq<B>, i: nat, ptr: nat)
    requires i < |bytes| && |bases| == |relocs| > 0 && !Covers(relocs[0], i, ptr)
    requires CellIs(c, bytes, relocs[1..], bases[1..], i, ptr)
    ensures CellIs(c, bytes, relocs, bases, i, ptr)
  {
    hide Spells;
    assert forall j | 0 < j < |relocs| :: relocs[j] == relocs[1..][j - 1] && bases[j] == bases[1..][j - 1];
    if c.PtrByte? {
      var j :| 0 <= j < |relocs[1..]| && Covers(relocs[1..][j], i, ptr) && c.base == bases[1..][j]
               && c.k == i - relocs[1..][j].offset && Spells(c.addend, bytes, relocs[1..][j].offset, ptr);
      assert Covers(relocs[j + 1], i, ptr);
    }
  }

  lemma {:induction false} FieldsTile<T, B>(bytes: seq<int>, relocs: seq<Reloc<T>>, bases: seq<B>, pos: nat, idx: nat,
                                           ptr: nat)
    requires |bases| == |relocs| && Ordered(relocs, pos, |bytes|, ptr) && InBounds(relocs, |bytes|, ptr)
    ensures var image := Image(InitsFrom(bytes, relocs, bases, pos, idx, ptr), ptr);
            && pos <= |bytes| && |image| == |bytes| - pos
            && forall k | 0 <= k < |image| :: image[k] == CellAt(bytes, relocs, bases, pos + k, ptr)
    decreases relocs
  {
    hide Image, CellAt, LittleEndian;
    if relocs == [] {
      TrailingBytes(bytes, relocs, bases, pos, idx, ptr);
    } else {
      var off := relocs[0].offset;
      var next := off + ptr;
      var p := PtrInit(bases[0], LittleEndian(bytes[off..next]));
      var n := if off > pos then 2 else 1;
      var head := Head(bytes, pos, off, p, idx);
      var tail := InitsFrom(bytes, relocs[1..], bases[1..], next, idx + n, ptr);
      FieldsTile(bytes, relocs[1..], bases[1..], next, idx + n, ptr);
      assert InitsFrom(bytes, relocs, bases, pos, idx, ptr) == head + tail;
      ImageConcat(head, tail, ptr);
      HeadImage(bytes, pos, off, p, idx, ptr);
      StepCells(bytes, relocs, bases, pos, ptr, Image(head, ptr), Image(tail, ptr));
    }
  }

  /** The fields tile the allocation: every plain byte is where it was and every
      pointer field lies on its relocation, with the addend its bytes spell. */
  lemma StructIsAllocation<T, B>(bytes: seq<int>, relocs: seq<Reloc<T>>, bases: seq<B>, pos: nat, idx: nat, ptr: nat)
    requires |bases| == |relocs| && Ordered(relocs, pos, |bytes|, ptr) && InBounds(relocs, |bytes|, ptr)
    ensures var image := Image(InitsFrom(bytes, relocs, bases, pos, idx, ptr), ptr);
            && pos <= |bytes| && |image| == |bytes| - pos
            && (forall k | 0 <= k < |image| :: image[k] == CellAt(bytes, relocs, bases, pos + k, ptr))
            && (AreBytes(bytes) ==> forall k | 0 <= k < |image| :: CellIs(image[k], bytes, relocs, bases, pos + k, ptr))
  {
    hide Image, CellAt, InitsFrom, CellIs;
    FieldsTile(bytes, relocs, bases, pos, idx, ptr);
    var image := Image(InitsFrom(bytes, relocs, bases, pos, idx, ptr), ptr);
    if AreBytes(bytes) {
      forall k | 0 <= k < |image| ensures CellIs(image[k], bytes, relocs, bases, pos + k, ptr) {
        CellSpelled(bytes, relocs, bases, pos + k, ptr);
      }
    }
  }

  lemma TrailingBytes<T, B>(bytes: seq<int>, relocs: seq<Reloc<T>>, bases: seq<B>, pos: nat, idx: nat, ptr: nat)
    requires relocs == [] && bases == [] && pos <= |bytes| && InBounds(relocs, |bytes|, ptr)
    ensures var image := Image(InitsFrom(bytes, relocs, bases, pos, idx, ptr), ptr);
            && |image| == |bytes| - pos
            && forall k | 0 <= k < |image| :: image[k] == CellAt(bytes, relocs, bases, pos + k, ptr)
  {
    if pos < |bytes| { ImageOne<B>(Designated(idx, ByteInit(bytes[pos..])), ptr); }
  }

  function Head<B>(bytes: seq<int>, pos: nat, off: nat, p: Init<B>, idx: nat): seq<Designated<B>>
    requires off <= |bytes|
  {
    if off > pos then [Designated(idx, ByteInit(bytes[pos..off])), Designated(idx + 1, p)] else [Designated(idx, p)]
  }

  lemma ImageOne<B>(d: Designated<B>, ptr: nat)
    ensures Image([d], ptr) == InitImage(d.init, ptr)
  {
    assert [d][1..] == [];
  }

  lemma HeadImage<B>(bytes: seq<int>, pos: nat, off: nat, p: Init<B>, idx: nat, ptr: nat)
    requires pos <= off && off + ptr <= |bytes| && p.PtrInit?
    ensures var image := Image(Head(bytes, pos, off, p, idx), ptr);
            && |image| == off + ptr - pos
            && forall k | 0 <= k < |image| ::
                 image[k] == if pos + k < off then Byte(bytes[pos + k]) else PtrByte(p.base, p.addend, pos + k - off)
  {
    ImageOne(Designated(idx, p), ptr);
    ImageOne(Designated(idx + 1, p), ptr);
    if off > pos {
      var a, b := Designated(idx, ByteInit(bytes[pos..off])), Designated(idx + 1, p);
      assert [a, b][1..] == [b];
      assert Image([a, b], ptr) == InitImage(a.init, ptr) + InitImage(p, ptr);
    }
  }

  lemma {:induction false} BeforeAll<T, B>(bytes: seq<int>, relocs: seq<Reloc<T>>, bases: seq<B>, pos: nat, i: nat,
                                           ptr: nat)
    requires i < |bytes| && i < pos && |bases| == |relocs| && Ordered(relocs, pos, |bytes|, ptr)
             && InBounds(relocs, |bytes|, ptr)
    ensures CellAt(bytes, relocs, bases, i, ptr) == Byte(bytes[i])
    decreases relocs
  {
    if relocs != [] { BeforeAll(bytes, relocs[1..], bases[1..], relocs[0].offset + ptr, i, ptr); }
  }

  lemma StepCells<T, B>(bytes: seq<int>, relocs: seq<Reloc<T>>, bases: seq<B>, pos: nat, ptr: nat, head: seq<Cell<B>>,
                        tail: seq<Cell<B>>)
    requires |bases| == |relocs| > 0 && Ordered(relocs, pos, |bytes|, ptr) && InBounds(relocs, |bytes|, ptr)
    requires var off := relocs[0].offset;
             var next := off + ptr;
             && |head| == next - pos && |tail| == |bytes| - next
             && (forall k | 0 <= k < |head| ::
                   head[k] == if pos + k < off then Byte(bytes[pos + k])
                     else PtrByte(bases[0], LittleEndian(bytes[off..next]), pos + k - off))
             && (forall k | 0 <= k < |tail| :: tail[k] == CellAt(bytes, relocs[1..], bases[1..], next + k, ptr))
    ensures forall k | 0 <= k < |head + tail| :: (head + tail)[k] == CellAt(bytes, relocs, bases, pos + k, ptr)
  {
    var off := relocs[0].offset;
    var next := off + ptr;
    forall k | 0 <= k < |head + tail| ensures (head + tail)[k] == CellAt(bytes, relocs, bases, pos + k, ptr) {
      if pos + k < off {
        BeforeAll(bytes, relocs[1..], bases[1..], next, pos + k, ptr);
      } else if k >= |head| {
        assert (head + tail)[k] == tail[k - |head|];
      }
    }
  }

  // ----- the addends of an initializer list -----

  /** The pointer initializers, in order. */
  function Pointers<B>(ds: seq<Designated<B>>): seq<Init<B>> {
    if ds == [] then [] else (if ds[0].init.PtrInit? then [ds[0].init] else []) + Pointers(ds[1..])
  }

  /** There is one pointer for each relocation, with the addend its bytes spell. */
  ghost predicate AddendsSpelled<T, B>(ds: seq<Designated<B>>, bytes: seq<int>, relocs: seq<Reloc<T>>, ptr: nat) {
    && |Pointers(ds)| == |relocs|
    && forall j | 0 <= j < |relocs| ::
         Pointers(ds)[j].PtrInit? && Spells(Pointers(ds)[j].addend, bytes, relocs[j].offset, ptr)
  }

  lemma {:induction false} InitsSpell<T, B>(bytes: seq<int>, relocs: seq<Reloc<T>>, bases: seq<B>, pos: nat, idx: nat,
                                            ptr: nat)
    requires AreBytes(bytes) && |bases| == |relocs| && Ordered(relocs, pos, |bytes|, ptr)
    ensures AddendsSpelled(InitsFrom(bytes, relocs, bases, pos, idx, ptr), bytes, relocs, ptr)
    decreases relocs
  {
    hide Spells, LittleEndian, Pointers, AddendsSpelled, AreBytes;
    if relocs == [] {
      NoPointers(bytes, relocs, bases, pos, idx, ptr);
    } else {
      var off, n := relocs[0].offset, if relocs[0].offset > pos then 2 else 1;
      OrderedBounds(relocs, pos, |bytes|, ptr);
      var p := PtrInit(bases[0], LittleEndian(bytes[off..off + ptr]));
      var tail := InitsFrom(bytes, relocs[1..], bases[1..], off + ptr, idx + n, ptr);
      InitsSpell(bytes, relocs[1..], bases[1..], off + ptr, idx + n, ptr);
      LittleEndianSpells(bytes, off, ptr);
      assert InitsFrom(bytes, relocs, bases, pos, idx, ptr) == Head(bytes, pos, off, p, idx) + tail;
      FirstPointer(Head(bytes, pos, off, p, idx), tail, p);
      SpelledStep(Head(bytes, pos, off, p, idx) + tail, tail, p, bytes, relocs, ptr);
    }
  }

  lemma NoPointers<T, B>(bytes: seq<int>, relocs: seq<Reloc<T>>, bases: seq<B>, pos: nat, idx: nat, ptr: nat)
    requires relocs == [] && bases == [] && Ordered(relocs, pos, |bytes|, ptr)
    ensures AddendsSpelled(InitsFrom(bytes, relocs, bases, pos, idx, ptr), bytes, relocs, ptr)
  {
    var ds := InitsFrom(bytes, relocs, bases, pos, idx, ptr);
    if ds != [] { assert Pointers(ds) == Pointers(ds[1..]) && ds[1..] == []; }
    assert Pointers(ds) == [];
  }

  lemma SpelledStep<T, B>(ds: seq<Designated<B>>, tail: seq<Designated<B>>, p: Init<B>, bytes: seq<int>,
                          relocs: seq<Reloc<T>>, ptr: nat)
    requires relocs != [] && p.PtrInit? && Pointers(ds) == [p] + Pointers(tail)
    requires Spells(p.addend, bytes, relocs[0].offset, ptr) && AddendsSpelled(tail, bytes, relocs[1..], ptr)
    ensures AddendsSpelled(ds, bytes, relocs, ptr)
  {
    hide Spells, Pointers;
    forall j | 0 <= j < |relocs|
      ensures Pointers(ds)[j].PtrInit? && Spells(Pointers(ds)[j].addend, bytes, relocs[j].offset, ptr)
    {
      if j > 0 { assert relocs[j] == relocs[1..][j - 1] && Pointers(ds)[j] == Pointers(tail)[j - 1]; }
    }
  }

  lemma FirstPointer<B>(head: seq<Designated<B>>, tail: seq<Designated<B>>, p: Init<B>)
    requires p.PtrInit? && 1 <= |head| <= 2 && head[|head| - 1].init == p && (|head| == 2 ==> head[0].init.ByteInit?)
    ensures Pointers(head + tail) == [p] + Pointers(tail)
  {
    assert (head + tail)[|head|..] == tail;
    if |head| == 2 { assert (head + tail)[1..][1..] == tail && (head + tail)[1..][0] == head[1]; }
  }
}

/** Emission of constants and statics: nested allocations are emitted first, under
    names drawn from a counter. */
module StaticEmission {
  import opened StaticLayout

  /** What a relocation points at; the numbers of Memory and VTable are allocations. */
  datatype Target = Function(name: string) | Static(name: string, weak: bool) | Memory(id: nat) | VTable(id: nat)
      | TypeId

  /** The symbol an emitted pointer starts from. `BytesRef(n, addr)` is `_bytesN`, or
      `&_bytesN` when addr. */
  datatype Base = FunctionSym(name: string) | StaticSym(name: string, weak: bool) | BytesRef(n: nat, addr: bool)
      | NoSymbol

  datatype Body = Plain(bytes: seq<int>) | Packed(fields: seq<FieldDecl>, inits: seq<Designated<Base>>)

  /** `static const ... _bytesN = ...;` */
  datatype Section = Section(n: nat, body: Body)

  type Env = map<nat, Alloc<Target>>

  /** Memory a constant stands for, followed through every pointer. */
  datatype Value = Value(cells: seq<Cell<Dest>>)
  datatype Dest = FunctionDest(name: string) | StaticDest(name: string, weak: bool) | DataDest(v: Value) | NoDest

  function Nested(t: Target): set<nat> {
    if t.Memory? || t.VTable? then {t.id} else {}
  }

  /** Allocations are well formed, and nested ones have a smaller rank. */
  ghost predicate Acyclic(env: Env, rank: map<nat, nat>, ptr: nat) {
    forall id | id in env ::
      && id in rank && WellFormed(env[id], ptr)
      && forall r, k | r in env[id].relocs && k in Nested(r.target) :: k in env && k in rank && rank[k] < rank[id]
  }

  // ----- the value of an allocation -----

  ghost predicate Below(env: Env, rank: map<nat, nat>, relocs: seq<Reloc<Target>>, bound: nat) {
    forall r, k | r in relocs && k in Nested(r.target) :: k in env && k in rank && rank[k] < bound
  }

  /** What the emitted text keeps of a pointer: `(void *)name` for a weak static has no
      addend. */
  function Rendered(c: Cell<Dest>): Cell<Dest> {
    if c.PtrByte? && c.base.StaticDest? && c.base.weak then PtrByte(c.base, 0, c.k) else c
  }

  ghost function DestOf(env: Env, rank: map<nat, nat>, t: Target, bound: nat, ptr: nat, meant: bool): Dest
    requires Acyclic(env, rank, ptr) && forall k | k in Nested(t) :: k in env && k in rank && rank[k] < bound
    decreases bound, 0, 0
  {
    match t
    case Function(name) => FunctionDest(name)
    case Static(name, weak) => StaticDest(name, weak)
    case Memory(id) => assert id in Nested(t); DataDest(AllocValue(env, rank, id, ptr, meant))
    case VTable(id) => assert id in Nested(t); DataDest(AllocValue(env, rank, id, ptr, meant))
    case TypeId => NoDest
  }

  ghost function DestsOf(env: Env, rank: map<nat, nat>, relocs: seq<Reloc<Target>>, bound: nat, ptr: nat,
                         meant: bool): (ds: seq<Dest>)
    requires Acyclic(env, rank, ptr) && Below(env, rank, relocs, bound)
    ensures |ds| == |relocs|
    ensures forall j | 0 <= j < |relocs| ::
              Below(env, rank, [relocs[j]], bound) && ds[j] == DestOf(env, rank, relocs[j].target, bound, ptr, meant)
    decreases bound, 1, |relocs|
  {
    if relocs == [] then []
    else
      assert relocs[0] in relocs;
      [DestOf(env, rank, relocs[0].target, bound, ptr, meant)] + DestsOf(env, rank, relocs[1..], bound, ptr, meant)
  }

  /** The value of an allocation as it is meant, or as far as the emitted text keeps
      it. */
  ghost function AllocValue(env: Env, rank: map<nat, nat>, id: nat, ptr: nat, meant: bool): Value
    requires Acyclic(env, rank, ptr) && id in env
    decreases rank[id], 2, 0
  {
    var a := env[id];
    var ds := DestsOf(env, rank, a.relocs, rank[id], ptr, meant);
    OrderedBounds(a.relocs, 0, |a.bytes|, ptr);
    Value(seq(|a.bytes|, i requires 0 <= i < |a.bytes| =>
      if meant then CellAt(a.bytes, a.relocs, ds, i, ptr) else Rendered(CellAt(a.bytes, a.relocs, ds, i, ptr))))
  }

  // ----- the value of an emitted name -----

  /** Index of the first of sections[..n] named _bytesN, or n. */
  function Find(sections: seq<Section>, n: nat, name: nat): (j: nat)
    requires n <= |sections|
    ensures j <= n && (j < n ==> sections[j].n == name)
    ensures forall i | 0 <= i < j :: sections[i].n != name
    decreases n
  {
    if n == 0 then 0
    else
      var j := Find(sections, n - 1, name);
      if j < n - 1 then j else if sections[n - 1].n == name then n - 1 else n
  }

  function BodyCells(b: Body, ptr: nat): seq<Cell<Base>> {
    match b
    case Plain(bytes) => seq(|bytes|, i requires 0 <= i < |bytes| => Cell<Base>.Byte(bytes[i]))
    case Packed(_, inits) => Image(inits, ptr)
  }

  /** What a base means to the C compiler that has seen sections[..n]. */
  function BaseDest(sections: seq<Section>, n: nat, b: Base, ptr: nat): Dest
    requires n <= |sections|
    decreases n, 1
  {
    match b
    case FunctionSym(name) => FunctionDest(name)
    case StaticSym(name, weak) => StaticDest(name, weak)
    case BytesRef(name, _) => DataDest(NameValue(sections, n, name, ptr))
    case NoSymbol => NoDest
  }

  function Follow(sections: seq<Section>, n: nat, c: Cell<Base>, ptr: nat): Cell<Dest>
    requires n <= |sections|
    decreases n, 2
  {
    match c
    case Byte(b) => Byte(b)
    case PtrByte(base, addend, k) => Rendered(PtrByte(BaseDest(sections, n, base, ptr), addend, k))
  }

  function NameValue(sections: seq<Section>, n: nat, name: nat, ptr: nat): Value
    requires n <= |sections|
    decreases n, 0
  {
    var j := Find(sections, n, name);
    if j == n then Value([])
    else
      var cells := BodyCells(sections[j].body, ptr);
      Value(seq(|cells|, k requires 0 <= k < |cells| => Follow(sections, j, cells[k], ptr)))
  }

  /** A base is defined in sections[..n], with the form its name is used in. */
  ghost predicate Defined(sections: seq<Section>, n: nat, b: Base)
    requires n <= |sections|
  {
    b.BytesRef? ==> Find(sections, n, b.n) < n && (b.addr <==> sections[Find(sections, n, b.n)].body.Packed?)
  }

  ghost predicate DefinedBeforeUse(sections: seq<Section>) {
    forall j, d | 0 <= j < |sections| && sections[j].body.Packed? && d in sections[j].body.inits ::
      d.init.PtrInit? ==> Defined(sections, j, d.init.base)
  }

  ghost predicate Distinct(sections: seq<Section>) {
    forall i, j | 0 <= i < j < |sections| :: sections[i].n != sections[j].n
  }

  // ----- later sections change nothing -----

  lemma {:induction false} FindStable(s: seq<Section>, t: seq<Section>, n: nat, m: nat, name: nat)
    requires n <= |s| && n <= m <= |t| && s[..n] == t[..n] && Find(s, n, name) < n
    ensures Find(t, m, name) == Find(s, n, name)
    decreases m
  {
    assert forall i | 0 <= i < n :: s[i] == s[..n][i] == t[i];
  }

  lemma {:induction false} ValueStable(s: seq<Section>, t: seq<Section>, n: nat, m: nat, name: nat, ptr: nat)
    requires n <= |s| && n <= m <= |t| && s[..n] == t[..n]
    requires n == m || Find(s, n, name) < n
    ensures NameValue(s, n, name, ptr) == NameValue(t, m, name, ptr)
    decreases n
  {
    var j := Find(s, n, name);
    assert forall i | 0 <= i < n :: s[i] == s[..n][i] == t[i];
    if j < n {
      FindStable(s, t, n, m, name);
      var cells := BodyCells(s[j].body, ptr);
      forall k | 0 <= k < |cells| ensures Follow(s, j, cells[k], ptr) == Follow(t, j, cells[k], ptr) {
        if cells[k].PtrByte? && cells[k].base.BytesRef? {
          assert s[..j] == s[..n][..j] == t[..j];
          ValueStable(s, t, j, j, cells[k].base.n, ptr);
        }
      }
    }
  }

  lemma BaseStable(s: seq<Section>, t: seq<Section>, b: Base, ptr: nat)
    requires s <= t && Defined(s, |s|, b)
    ensures Defined(t, |t|, b) && BaseDest(t, |t|, b, ptr) == BaseDest(s, |s|, b, ptr)
  {
    if b.BytesRef? {
      assert s[..|s|] == t[..|s|];
      ValueStable(s, t, |s|, |t|, b.n, ptr);
      FindStable(s, t, |s|, |t|, b.n);
    }
  }

  // ----- one loop iteration, as a function -----

  datatype Acc = Acc(fields: seq<FieldDecl>, inits: seq<Designated<Base>>, pos: nat, idx: nat)

  function Push(acc: Acc, bytes: seq<int>, off: nat, base: Base, ptr: nat): Acc
    requires acc.pos <= off && off + ptr <= |bytes|
  {
    var p := PtrInit(base, LittleEndian(bytes[off..off + ptr]));
    if off > acc.pos then
      Acc(acc.fields + [FieldDecl(acc.idx, ByteArray(off - acc.pos))] + [FieldDecl(acc.idx + 1, PointerField)],
          acc.inits + [Designated(acc.idx, ByteInit(bytes[acc.pos..off]))] + [Designated(acc.idx + 1, p)],
          off + ptr, acc.idx + 2)
    else
      Acc(acc.fields + [FieldDecl(acc.idx, PointerField)], acc.inits + [Designated(acc.idx, p)], off + ptr, acc.idx + 1)
  }

  /** The loop's lists so far, completed by what the rest would give. */
  ghost predicate OnTrack(acc: Acc, a: Alloc<Target>, i: nat, done: seq<Base>, ptr: nat)
    requires WellFormed(a, ptr)
  {
    && i <= |a.relocs| && |done| == i && Ordered(a.relocs[i..], acc.pos, |a.bytes|, ptr)
    && acc.fields + FieldsFrom(a.relocs[i..], acc.pos, acc.idx, |a.bytes|, ptr)
      == FieldsFrom(a.relocs, 0, 0, |a.bytes|, ptr)
    && forall rest: seq<Base> | |rest| == |a.relocs| - i ::
         acc.inits + InitsFrom(a.bytes, a.relocs[i..], rest, acc.pos, acc.idx, ptr)
           == InitsFrom(a.bytes, a.relocs, done + rest, 0, 0, ptr)
  }

  lemma TrackStart(a: Alloc<Target>, ptr: nat)
    requires WellFormed(a, ptr)
    ensures OnTrack(Acc([], [], 0, 0), a, 0, [], ptr)
  {
    assert a.relocs[0..] == a.relocs;
    forall rest: seq<Base> | |rest| == |a.relocs|
      ensures [] + InitsFrom(a.bytes, a.relocs, rest, 0, 0, ptr) == InitsFrom(a.bytes, a.relocs, [] + rest, 0, 0, ptr)
    {
      assert [] + rest == rest;
    }
  }

  lemma TrackStep(acc: Acc, a: Alloc<Target>, i: nat, done: seq<Base>, base: Base, ptr: nat)
    requires WellFormed(a, ptr) && i < |a.relocs| && OnTrack(acc, a, i, done, ptr)
    ensures acc.pos <= a.relocs[i].offset && a.relocs[i].offset + ptr <= |a.bytes|
    ensures OnTrack(Push(acc, a.bytes, a.relocs[i].offset, base, ptr), a, i + 1, done + [base], ptr)
  {
    hide FieldsFrom, InitsFrom, LittleEndian;
    var rs := a.relocs[i..];
    assert rs[0] == a.relocs[i] && rs[1..] == a.relocs[i + 1..];
    OrderedBounds(rs, acc.pos, |a.bytes|, ptr);
    var acc' := Push(acc, a.bytes, a.relocs[i].offset, base, ptr);
    StepFields(acc, a.bytes, rs, base, ptr);
    forall rest: seq<Base> | |rest| == |a.relocs| - (i + 1)
      ensures acc'.inits + InitsFrom(a.bytes, a.relocs[i + 1..], rest, acc'.pos, acc'.idx, ptr)
              == InitsFrom(a.bytes, a.relocs, done + [base] + rest, 0, 0, ptr)
    {
      StepInits(acc, a.bytes, rs, base, rest, ptr);
      assert done + [base] + rest == done + ([base] + rest);
    }
  }

  lemma StepFields(acc: Acc, bytes: seq<int>, rs: seq<Reloc<Target>>, base: Base, ptr: nat)
    requires rs != [] && Ordered(rs, acc.pos, |bytes|, ptr) && rs[0].offset + ptr <= |bytes|
    ensures var acc' := Push(acc, bytes, rs[0].offset, base, ptr);
            acc'.fields + FieldsFrom(rs[1..], acc'.pos, acc'.idx, |bytes|, ptr)
              == acc.fields + FieldsFrom(rs, acc.pos, acc.idx, |bytes|, ptr)
  {
    hide LittleEndian;
  }

  lemma StepInits(acc: Acc, bytes: seq<int>, rs: seq<Reloc<Target>>, base: Base, rest: seq<Base>, ptr: nat)
    requires rs != [] && Ordered(rs, acc.pos, |bytes|, ptr) && |rest| == |rs| - 1
    requires rs[0].offset + ptr <= |bytes|
    ensures var acc' := Push(acc, bytes, rs[0].offset, base, ptr);
            acc'.inits + InitsFrom(bytes, rs[1..], rest, acc'.pos, acc'.idx, ptr)
              == acc.inits + InitsFrom(bytes, rs, [base] + rest, acc.pos, acc.idx, ptr)
  {
    hide LittleEndian, InitsFrom;
    var off, bases := rs[0].offset, [base] + rest;
    var p := PtrInit(base, LittleEndian(bytes[off..off + ptr]));
    UnfoldInits(bytes, rs, bases, acc.pos, acc.idx, ptr);
    assert bases[1..] == rest;
    var tail := InitsFrom(bytes, rs[1..], rest, off + ptr, if off > acc.pos then acc.idx + 2 else acc.idx + 1, ptr);
    if off > acc.pos {
      Reassociate(acc.inits, Designated(acc.idx, ByteInit(bytes[acc.pos..off])), Designated(acc.idx + 1, p), tail);
    } else {
      assert acc.inits + [Designated(acc.idx, p)] + tail == acc.inits + ([Designated(acc.idx, p)] + tail);
    }
  }

  lemma Reassociate<X>(s: seq<X>, x: X, y: X, t: seq<X>)
    ensures s + [x] + [y] + t == s + ([x, y] + t)
  {
  }

  lemma UnfoldInits(bytes: seq<int>, rs: seq<Reloc<Target>>, bases: seq<Base>, pos: nat, idx: nat, ptr: nat)
    requires rs != [] && |bases| == |rs| && Ordered(rs, pos, |bytes|, ptr) && rs[0].offset + ptr <= |bytes|
    ensures var off := rs[0].offset;
            var p := PtrInit(bases[0], LittleEndian(bytes[off..off + ptr]));
            InitsFrom(bytes, rs, bases, pos, idx, ptr) ==
            if off > pos then [Designated(idx, ByteInit(bytes[pos..off])), Designated(idx + 1, p)]
            + InitsFrom(bytes, rs[1..], bases[1..], off + ptr, idx + 2, ptr)
            else [Designated(idx, p)] + InitsFrom(bytes, rs[1..], bases[1..], off + ptr, idx + 1, ptr)
  {
    hide LittleEndian;
  }

  lemma TrackEnd(acc: Acc, a: Alloc<Target>, done: seq<Base>, ptr: nat)
    requires WellFormed(a, ptr) && OnTrack(acc, a, |a.relocs|, done, ptr)
    ensures acc.pos <= |a.bytes|
    ensures acc.fields + (if acc.pos < |a.bytes| then [FieldDecl(acc.idx, ByteArray(|a.bytes| - acc.pos))] else [])
            == FieldsFrom(a.relocs, 0, 0, |a.bytes|, ptr)
    ensures acc.inits + (if acc.pos < |a.bytes| then [Designated(acc.idx, ByteInit(a.bytes[acc.pos..]))] else [])
            == InitsFrom(a.bytes, a.relocs, done, 0, 0, ptr)
  {
    assert a.relocs[|a.relocs|..] == [];
    var none: seq<Base> := [];
    assert done + none == done;
    assert InitsFrom(a.bytes, a.relocs[|a.relocs|..], none, acc.pos, acc.idx, ptr) ==
           if acc.pos < |a.bytes| then [Designated(acc.idx, ByteInit(a.bytes[acc.pos..]))] else [];
  }

  // ----- the packed body has the allocation's value -----

  ghost predicate Resolved(sections: seq<Section>, env: Env, rank: map<nat, nat>, id: nat, done: seq<Base>, ptr: nat)
    requires Acyclic(env, rank, ptr) && id in env
  {
    && |done| <= |env[id].relocs|
    && var ds := DestsOf(env, rank, env[id].relocs, rank[id], ptr, false);
       forall j | 0 <= j < |done| :: Defined(sections, |sections|, done[j])
           && BaseDest(sections, |sections|, done[j], ptr) == ds[j]
  }

  lemma ResolvedNone(sections: seq<Section>, env: Env, rank: map<nat, nat>, id: nat, ptr: nat)
    requires Acyclic(env, rank, ptr) && id in env
    ensures Resolved(sections, env, rank, id, [], ptr)
  {
  }

  lemma ResolvedMore(sections: seq<Section>, env: Env, rank: map<nat, nat>, id: nat, done: seq<Base>, base: Base,
                     ptr: nat)
    requires Acyclic(env, rank, ptr) && id in env && Resolved(sections, env, rank, id, done, ptr)
             && |done| < |env[id].relocs|
    requires Defined(sections, |sections|, base)
    requires BaseDest(sections, |sections|, base, ptr)
             == DestsOf(env, rank, env[id].relocs, rank[id], ptr, false)[|done|]
    ensures Resolved(sections, env, rank, id, done + [base], ptr)
  {
    hide BaseDest, Defined, DestsOf;
  }

  lemma ResolvedStable(s: seq<Section>, t: seq<Section>, env: Env, rank: map<nat, nat>, id: nat, done: seq<Base>,
                       ptr: nat)
    requires Acyclic(env, rank, ptr) && id in env && s <= t && Resolved(s, env, rank, id, done, ptr)
    ensures Resolved(t, env, rank, id, done, ptr)
  {
    hide BaseDest, Defined, DestsOf;
    forall j | 0 <= j < |done|
      ensures Defined(t, |t|, done[j]) && BaseDest(t, |t|, done[j], ptr) == BaseDest(s, |s|, done[j], ptr)
    {
      BaseStable(s, t, done[j], ptr);
    }
  }

  lemma {:induction false} FollowCell<T>(sections: seq<Section>, n: nat, bytes: seq<int>, relocs: seq<Reloc<T>>,
                                         bases: seq<Base>, ds: seq<Dest>, i: nat, ptr: nat)
    requires n <= |sections| && i < |bytes| && |bases| == |relocs| == |ds| && InBounds(relocs, |bytes|, ptr)
    requires forall j | 0 <= j < |ds| :: BaseDest(sections, n, bases[j], ptr) == ds[j]
    ensures Follow(sections, n, CellAt(bytes, relocs, bases, i, ptr), ptr)
            == Rendered(CellAt(bytes, relocs, ds, i, ptr))
    decreases relocs
  {
    hide BaseDest, LittleEndian;
    if relocs != [] {
      FollowCell(sections, n, bytes, relocs[1..], bases[1..], ds[1..], i, ptr);
    }
  }

  /** The section just appended under a new name has the allocation's value. */
  lemma PackedValue(sections: seq<Section>, env: Env, rank: map<nat, nat>, id: nat, bases: seq<Base>,
                    fields: seq<FieldDecl>, name: nat, ptr: nat)
    requires Acyclic(env, rank, ptr) && id in env && Resolved(sections, env, rank, id, bases, ptr)
             && |bases| == |env[id].relocs|
    requires forall j | 0 <= j < |sections| :: sections[j].n != name
    ensures var a := env[id];
            var t := sections + [Section(name, Packed(fields, InitsFrom(a.bytes, a.relocs, bases, 0, 0, ptr)))];
            Find(t, |t|, name) == |sections| && NameValue(t, |t|, name, ptr) == AllocValue(env, rank, id, ptr, false)
  {
    hide BaseDest, LittleEndian, Follow, CellAt, Image, Defined;
    var a := env[id];
    var ds := DestsOf(env, rank, a.relocs, rank[id], ptr, false);
    var inits := InitsFrom(a.bytes, a.relocs, bases, 0, 0, ptr);
    var t := sections + [Section(name, Packed(fields, inits))];
    OrderedBounds(a.relocs, 0, |a.bytes|, ptr);
    StructIsAllocation(a.bytes, a.relocs, bases, 0, 0, ptr);
    assert t[|sections|].n == name;
    var cells := Image(inits, ptr);
    forall k | 0 <= k < |cells|
      ensures Follow(t, |sections|, cells[k], ptr) == Rendered(CellAt(a.bytes, a.relocs, ds, k, ptr))
    {
      FollowPrefix(sections, t, cells[k], ptr);
      FollowCell(sections, |sections|, a.bytes, a.relocs, bases, ds, k, ptr);
    }
  }

  lemma FollowPrefix(s: seq<Section>, t: seq<Section>, c: Cell<Base>, ptr: nat)
    requires s <= t
    ensures Follow(t, |s|, c, ptr) == Follow(s, |s|, c, ptr)
  {
    if c.PtrByte? && c.base.BytesRef? {
      assert s[..|s|] == t[..|s|];
      ValueStable(s, t, |s|, |s|, c.base.n, ptr);
    }
  }

  lemma PlainValue(sections: seq<Section>, env: Env, rank: map<nat, nat>, id: nat, name: nat, ptr: nat)
    requires Acyclic(env, rank, ptr) && id in env && env[id].relocs == []
    requires forall j | 0 <= j < |sections| :: sections[j].n != name
    ensures var t := sections + [Section(name, Plain(env[id].bytes))];
            Find(t, |t|, name) == |sections| && NameValue(t, |t|, name, ptr) == AllocValue(env, rank, id, ptr, false)
  {
    var t := sections + [Section(name, Plain(env[id].bytes))];
    assert t[|sections|].n == name;
  }

  // ----- the emitter -----

  lemma AppendOk(s: seq<Section>, x: Section)
    requires Distinct(s) && DefinedBeforeUse(s) && forall j | 0 <= j < |s| :: s[j].n != x.n
    requires x.body.Packed? ==> forall d | d in x.body.inits :: d.init.PtrInit? ==> Defined(s, |s|, d.init.base)
    ensures Distinct(s + [x]) && DefinedBeforeUse(s + [x])
    ensures forall i, j | 0 <= i <= |s| && 0 <= j <= |s| && (s + [x])[i].n == (s + [x])[j].n :: i == j
  {
    var t := s + [x];
    forall j, d | 0 <= j < |t| && t[j].body.Packed? && d in t[j].body.inits
      ensures d.init.PtrInit? ==> Defined(t, j, d.init.base)
    {
      if d.init.PtrInit? { DefinedPrefix(s, t, j, d.init.base); }
    }
  }

  lemma DefinedPrefix(s: seq<Section>, t: seq<Section>, j: nat, b: Base)
    requires s <= t && j <= |s| && Defined(s, j, b)
    ensures Defined(t, j, b)
  {
    if b.BytesRef? {
      assert s[..j] == t[..j];
      FindStable(s, t, j, j, b.n);
    }
  }

  lemma {:induction false} InitBases<T>(bytes: seq<int>, relocs: seq<Reloc<T>>, bases: seq<Base>, pos: nat, idx: nat,
                                        ptr: nat)
    requires |bases| == |relocs| && Ordered(relocs, pos, |bytes|, ptr)
    ensures forall d | d in InitsFrom(bytes, relocs, bases, pos, idx, ptr) :: d.init.PtrInit? ==> d.init.base in bases
    decreases relocs
  {
    hide LittleEndian;
    if relocs != [] {
      var off := relocs[0].offset;
      InitBases(bytes, relocs[1..], bases[1..], off + ptr, idx + (if off > pos then 2 else 1), ptr);
      assert bases == [bases[0]] + bases[1..];
    }
  }

  lemma InitsDefined(sections: seq<Section>, env: Env, rank: map<nat, nat>, id: nat, done: seq<Base>, ptr: nat)
    requires Acyclic(env, rank, ptr) && id in env && Resolved(sections, env, rank, id, done, ptr)
             && |done| == |env[id].relocs|
    ensures forall d | d in InitsFrom(env[id].bytes, env[id].relocs, done, 0, 0, ptr) ::
              d.init.PtrInit? ==> Defined(sections, |sections|, d.init.base)
  {
    hide InitsFrom, Defined, BaseDest;
    InitBases(env[id].bytes, env[id].relocs, done, 0, 0, ptr);
  }

  lemma RefValue(t: seq<Section>, ref: Base, v: Value, ptr: nat)
    requires t != [] && ref.BytesRef? && Find(t, |t|, ref.n) == |t| - 1 && NameValue(t, |t|, ref.n, ptr) == v
    requires t[|t| - 1].body.Packed? <==> ref.addr
    ensures Defined(t, |t|, ref) && BaseDest(t, |t|, ref, ptr) == DataDest(v)
  {
    hide NameValue, Find;
  }

  lemma OldNames(before: seq<Section>, s: seq<Section>, n: nat)
    requires before <= s && (forall j | 0 <= j < |before| :: before[j].n < n)
             && (forall j | |before| <= j < |s| :: n < s[j].n)
    ensures forall j | 0 <= j < |s| :: s[j].n != n
  {
    assert forall j | 0 <= j < |before| :: s[j] == before[j];
  }

  function SymbolOf(t: Target): Base {
    match t
    case Function(name) => FunctionSym(name)
    case Static(name, weak) => StaticSym(name, weak)
    case _ => NoSymbol
  }

  /** From `before` to `now` one section was added for each number drawn from
      `first` on, and `next` is the next number. */
  ghost predicate Grew(before: seq<Section>, first: nat, now: seq<Section>, next: nat) {
    && before <= now && first <= next && |now| - |before| == next - first
    && forall j | |before| <= j < |now| :: first <= now[j].n
  }

  lemma GrewMore(before: seq<Section>, first: nat, mid: seq<Section>, next: nat, now: seq<Section>, last: nat)
    requires Grew(before, first, mid, next) && Grew(mid, next, now, last)
    ensures Grew(before, first, now, last)
  {
    assert forall j | 0 <= j < |mid| :: now[j] == mid[j];
  }

  lemma GrewPrefix(before: seq<Section>, first: nat, now: seq<Section>, next: nat)
    requires Grew(before, first, now, next)
    ensures before <= now && first <= next
  {
  }

  lemma GrewNone(s: seq<Section>, n: nat)
    ensures Grew(s, n, s, n)
  {
  }

  /** Padding bytes before the pointer, if any, and the pointer field. */
  method PushPointer(fields: seq<FieldDecl>, inits: seq<Designated<Base>>, pos: nat, idx: nat,
                     bytes: seq<int>, off: nat, base: Base, ptr: nat)
    returns (fields': seq<FieldDecl>, inits': seq<Designated<Base>>, pos': nat, idx': nat)
    requires pos <= off && off + ptr <= |bytes|
    ensures Acc(fields', inits', pos', idx') == Push(Acc(fields, inits, pos, idx), bytes, off, base, ptr)
  {
    fields', inits', idx' := fields, inits, idx;
    if off > pos {
      fields' := fields' + [FieldDecl(idx', ByteArray(off - pos))];
      inits' := inits' + [Designated(idx', ByteInit(bytes[pos..off]))];
      idx' := idx' + 1;
    }
    fields' := fields' + [FieldDecl(idx', PointerField)];
    inits' := inits' + [Designated(idx', PtrInit(base, LittleEndian(bytes[off..off + ptr])))];
    idx' := idx' + 1;
    pos' := off + ptr;
  }

  /** The bytes after the last pointer. */
  method PushRest(fields: seq<FieldDecl>, inits: seq<Designated<Base>>, pos: nat, idx: nat, bytes: seq<int>)
    returns (fields': seq<FieldDecl>, inits': seq<Designated<Base>>)
    requires pos <= |bytes|
    ensures fields' == fields + if pos < |bytes| then [FieldDecl(idx, ByteArray(|bytes| - pos))] else []
    ensures inits' == inits + if pos < |bytes| then [Designated(idx, ByteInit(bytes[pos..]))] else []
  {
    fields', inits' := fields, inits;
    if pos < |bytes| {
      fields' := fields' + [FieldDecl(idx, ByteArray(|bytes| - pos))];
      inits' := inits' + [Designated(idx, ByteInit(bytes[pos..]))];
    }
  }

  class Emitter {
    var counter: nat           // next _bytesN
    var sections: seq<Section> // data_sections

    ghost predicate Valid()
      reads this
    {
      && Distinct(sections) && DefinedBeforeUse(sections)
      && (forall j | 0 <= j < |sections| :: sections[j].n < counter)
    }

    constructor ()
      ensures Valid() && counter == 0 && sections == []
    {
      counter, sections := 0, [];
    }

    method AppendSection(n: nat, body: Body)
      requires Valid() && n < counter && (forall j | 0 <= j < |sections| :: sections[j].n != n)
      requires body.Packed? ==>
                 forall d | d in body.inits :: d.init.PtrInit? ==> Defined(sections, |sections|, d.init.base)
      modifies this`sections
      ensures Valid() && sections == old(sections) + [Section(n, body)]
    {
      AppendOk(sections, Section(n, body));
      sections := sections + [Section(n, body)];
    }

    /** `const_data_from_alloc`. */
    method ConstData(env: Env, ghost rank: map<nat, nat>, id: nat, ptr: nat) returns (ref: Base)
      requires Valid() && Acyclic(env, rank, ptr) && id in env
      modifies this
      ensures Valid() && Grew(old(sections), old(counter), sections, counter) && counter > old(counter)
      ensures ref == BytesRef(old(counter), env[id].relocs != [])
      ensures Defined(sections, |sections|, ref)
      ensures BaseDest(sections, |sections|, ref, ptr) == DataDest(AllocValue(env, rank, id, ptr, false))
      ensures sections != [] && EmittedFor(sections[|sections| - 1], old(counter), env[id], ptr)
      decreases rank[id], 1
    {
      hide BaseDest, AllocValue, Image, DestsOf, Find, NameValue, AddendsSpelled, AreBytes;
      var a := env[id];
      var n := counter;
      counter := counter + 1;
      ref := BytesRef(n, a.relocs != []);
      if a.relocs == [] {
        PlainValue(sections, env, rank, id, n, ptr);
        AppendSection(n, Plain(a.bytes));
      } else {
        ghost var before := sections;
        var fields, inits, done := EmitStruct(env, rank, id, ptr);
        OldNames(before, sections, n);
        PackedValue(sections, env, rank, id, done, fields, n, ptr);
        InitsDefined(sections, env, rank, id, done, ptr);
        AppendSection(n, Packed(fields, inits));
      }
      RefValue(sections, ref, AllocValue(env, rank, id, ptr, false), ptr);
    }

    /** The loop over relocations, shared in form by `const_data_from_alloc` and
        `codegen_static`: nested allocations are emitted on the way. */
    method EmitStruct(env: Env, ghost rank: map<nat, nat>, id: nat, ptr: nat)
      returns (fields: seq<FieldDecl>, inits: seq<Designated<Base>>, ghost done: seq<Base>)
      requires Valid() && Acyclic(env, rank, ptr) && id in env
      modifies this
      ensures Valid() && Grew(old(sections), old(counter), sections, counter)
      ensures |done| == |env[id].relocs| && Resolved(sections, env, rank, id, done, ptr)
      ensures fields == FieldsFrom(env[id].relocs, 0, 0, |env[id].bytes|, ptr)
      ensures inits == InitsFrom(env[id].bytes, env[id].relocs, done, 0, 0, ptr)
      ensures AreBytes(env[id].bytes) ==> AddendsSpelled(inits, env[id].bytes, env[id].relocs, ptr)
      decreases rank[id], 0
    {
      hide BaseDest, AllocValue, FieldsFrom, InitsFrom, LittleEndian, DestsOf, Find, Defined, Distinct,
           DefinedBeforeUse, Push, OnTrack, Resolved, Grew, AddendsSpelled, AreBytes;
      var a := env[id];
      fields, inits := [], [];
      var pos: nat, idx: nat, i := 0, 0, 0;
      done := [];
      TrackStart(a, ptr);
      ResolvedNone(sections, env, rank, id, ptr);
      GrewNone(sections, counter);
      while i < |a.relocs|
        invariant 0 <= i <= |a.relocs| && Valid() && Grew(old(sections), old(counter), sections, counter)
        invariant OnTrack(Acc(fields, inits, pos, idx), a, i, done, ptr)
        invariant |done| == i && Resolved(sections, env, rank, id, done, ptr)
      {
        ghost var before, drawn := sections, counter;
        var base := TargetBase(env, rank, id, i, ptr);
        GrewPrefix(before, drawn, sections, counter);
        GrewMore(old(sections), old(counter), before, drawn, sections, counter);
        ResolvedStable(before, sections, env, rank, id, done, ptr);
        TrackStep(Acc(fields, inits, pos, idx), a, i, done, base, ptr);
        ResolvedMore(sections, env, rank, id, done, base, ptr);
        done := done + [base];
        fields, inits, pos, idx := PushPointer(fields, inits, pos, idx, a.bytes, a.relocs[i].offset, base, ptr);
        i := i + 1;
      }
      TrackEnd(Acc(fields, inits, pos, idx), a, done, ptr);
      fields, inits := PushRest(fields, inits, pos, idx, a.bytes);
      if AreBytes(a.bytes) { InitsSpell(a.bytes, a.relocs, done, 0, 0, ptr); }
    }

    /** The symbol for one relocation; Memory and VTable targets are emitted first. */
    method TargetBase(env: Env, ghost rank: map<nat, nat>, id: nat, i: nat, ptr: nat) returns (base: Base)
      requires Valid() && Acyclic(env, rank, ptr) && id in env && i < |env[id].relocs|
      modifies this
      ensures Valid() && Grew(old(sections), old(counter), sections, counter)
      ensures Defined(sections, |sections|, base)
      ensures BaseDest(sections, |sections|, base, ptr) == DestsOf(env, rank, env[id].relocs, rank[id], ptr, false)[i]
      decreases rank[id], 0, 0
    {
      var r := env[id].relocs[i];
      assert r in env[id].relocs;
      if r.target.Memory? || r.target.VTable? {
        assert r.target.id in Nested(r.target);
        base := ConstData(env, rank, r.target.id, ptr);
      } else {
        base := SymbolOf(r.target);
      }
    }
  }

  /** The section an allocation gets: its bytes, or a struct whose pointers have the
      addends its bytes spell. */
  ghost predicate EmittedFor(x: Section, name: nat, a: Alloc<Target>, ptr: nat) {
    && x.n == name
    && if a.relocs == [] then x.body == Plain(a.bytes)
       else x.body.Packed? && (AreBytes(a.bytes) ==> AddendsSpelled(x.body.inits, a.bytes, a.relocs, ptr))
  }

  /** `emit_static_struct_fwd_decl`: the fields alone, from a loop of its own. */
  method ForwardFields(a: Alloc<Target>, ptr: nat) returns (fields: seq<FieldDecl>)
    requires WellFormed(a, ptr)
    ensures fields == FieldsFrom(a.relocs, 0, 0, |a.bytes|, ptr)
  {
    fields := [];
    var pos: nat, idx: nat, i := 0, 0, 0;
    assert a.relocs[0..] == a.relocs;
    while i < |a.relocs|
      invariant 0 <= i <= |a.relocs| && Ordered(a.relocs[i..], pos, |a.bytes|, ptr)
      invariant fields + FieldsFrom(a.relocs[i..], pos, idx, |a.bytes|, ptr)
                == FieldsFrom(a.relocs, 0, 0, |a.bytes|, ptr)
    {
      var off := a.relocs[i].offset;
      assert a.relocs[i..][0] == a.relocs[i] && a.relocs[i..][1..] == a.relocs[i + 1..];
      if off > pos {
        fields := fields + [FieldDecl(idx, ByteArray(off - pos))];
        idx := idx + 1;
      }
      fields := fields + [FieldDecl(idx, PointerField)];
      idx := idx + 1;
      pos := off + ptr;
      i := i + 1;
    }
    assert a.relocs[|a.relocs|..] == [];
    if pos < |a.bytes| {
      fields := fields + [FieldDecl(idx, ByteArray(|a.bytes| - pos))];
    }
  }

  /** `codegen_static` on a static with relocations: the initializer of the
      definition against the fields of the separately written declaration. Every
      designator names the field it initializes, the struct has the length and the
      contents of the allocation, and every constant it mentions is already there. */
  method CodegenStatic(e: Emitter, env: Env, ghost rank: map<nat, nat>, id: nat, ptr: nat)
    returns (declared: seq<FieldDecl>, inits: seq<Designated<Base>>)
    requires e.Valid() && Acyclic(env, rank, ptr) && id in env && env[id].relocs != []
    modifies e
    ensures e.Valid() && Grew(old(e.sections), old(e.counter), e.sections, e.counter)
    ensures |declared| == |inits| && forall k | 0 <= k < |inits| :: Fits(declared[k], inits[k], k)
    ensures forall d | d in inits :: d.init.PtrInit? ==> Defined(e.sections, |e.sections|, d.init.base)
    ensures Value(Followed(e.sections, Image(inits, ptr), ptr)) == AllocValue(env, rank, id, ptr, false)
    ensures AreBytes(env[id].bytes) ==> AddendsSpelled(inits, env[id].bytes, env[id].relocs, ptr)
  {
    var fields;
    ghost var done;
    fields, inits, done := e.EmitStruct(env, rank, id, ptr);
    declared := ForwardFields(env[id], ptr);
    DesignatorsFit(env[id].bytes, env[id].relocs, done, 0, 0, ptr);
    InitsDefined(e.sections, env, rank, id, done, ptr);
    StructValue(e.sections, env, rank, id, done, ptr);
  }

  function Followed(sections: seq<Section>, cells: seq<Cell<Base>>, ptr: nat): seq<Cell<Dest>> {
    seq(|cells|, k requires 0 <= k < |cells| => Follow(sections, |sections|, cells[k], ptr))
  }

  lemma StructValue(sections: seq<Section>, env: Env, rank: map<nat, nat>, id: nat, bases: seq<Base>, ptr: nat)
    requires Acyclic(env, rank, ptr) && id in env && Resolved(sections, env, rank, id, bases, ptr)
             && |bases| == |env[id].relocs|
    ensures Value(Followed(sections, Image(InitsFrom(env[id].bytes, env[id].relocs, bases, 0, 0, ptr), ptr), ptr))
            == AllocValue(env, rank, id, ptr, false)
  {
    hide BaseDest, LittleEndian, Follow, CellAt, Image, Defined;
    var a := env[id];
    var ds := DestsOf(env, rank, a.relocs, rank[id], ptr, false);
    OrderedBounds(a.relocs, 0, |a.bytes|, ptr);
    StructIsAllocation(a.bytes, a.relocs, bases, 0, 0, ptr);
    var cells := Image(InitsFrom(a.bytes, a.relocs, bases, 0, 0, ptr), ptr);
    forall k | 0 <= k < |cells|
      ensures Follow(sections, |sections|, cells[k], ptr) == Rendered(CellAt(a.bytes, a.relocs, ds, k, ptr))
    {
      FollowCell(sections, |sections|, a.bytes, a.relocs, bases, ds, k, ptr);
    }
  }

  // ----- addends of weak statics -----

  predicate ZeroBytes(bytes: seq<int>, off: nat, ptr: nat) {
    off + ptr <= |bytes| && forall k | off <= k < off + ptr :: bytes[k] == 0
  }

  ghost predicate KeptAt(env: Env, rank: map<nat, nat>, r: Reloc<Target>, bytes: seq<int>, bound: nat, ptr: nat)
    requires Acyclic(env, rank, ptr) && forall k | k in Nested(r.target) :: k in env && k in rank && rank[k] < bound
    decreases bound, 0
  {
    && (r.target.Static? && r.target.weak ==> ZeroBytes(bytes, r.offset, ptr))
    && forall k | k in Nested(r.target) :: Kept(env, rank, k, ptr)
  }

  /** No pointer to a weak static, here or in any allocation pointed at, has an addend. */
  ghost predicate Kept(env: Env, rank: map<nat, nat>, id: nat, ptr: nat)
    requires Acyclic(env, rank, ptr) && id in env
    decreases rank[id], 1
  {
    forall r | r in env[id].relocs :: KeptAt(env, rank, r, env[id].bytes, rank[id], ptr)
  }

  lemma {:induction false} ZeroAddend(bs: seq<int>)
    requires AreBytes(bs)
    ensures LittleEndian(bs) == 0 <==> forall k | 0 <= k < |bs| :: bs[k] == 0
    decreases bs
  {
    LittleEndianBytes(bs);
    if bs != [] {
      ZeroAddend(bs[1..]);
      LittleEndianBytes(bs[1..]);
      assert forall k | 0 < k < |bs| :: bs[k] == bs[1..][k - 1];
    }
  }

  lemma ZeroAt(bytes: seq<int>, off: nat, ptr: nat)
    requires AreBytes(bytes) && off + ptr <= |bytes|
    ensures LittleEndian(bytes[off..off + ptr]) == 0 <==> ZeroBytes(bytes, off, ptr)
  {
    var bs := bytes[off..off + ptr];
    ZeroAddend(bs);
    if forall k | 0 <= k < |bs| :: bs[k] == 0 {
      forall k | off <= k < off + ptr ensures bytes[k] == 0 { assert bs[k - off] == bytes[k]; }
    }
  }

  /** Both readings of one relocation's target agree exactly when nothing is lost in
      the allocation it points at. */
  lemma {:induction false} DestLost(env: Env, rank: map<nat, nat>, r: Reloc<Target>, bound: nat, ptr: nat)
    requires Acyclic(env, rank, ptr) && ptr > 0 && (forall id | id in env :: AreBytes(env[id].bytes))
    requires forall k | k in Nested(r.target) :: k in env && k in rank && rank[k] < bound
    ensures DestOf(env, rank, r.target, bound, ptr, true) == DestOf(env, rank, r.target, bound, ptr, false)
            <==> forall k | k in Nested(r.target) :: Kept(env, rank, k, ptr)
    decreases bound, 0
  {
    if r.target.Memory? || r.target.VTable? {
      assert r.target.id in Nested(r.target);
      AddendsLost(env, rank, r.target.id, ptr);
    }
  }

  /** The emitted constant has exactly the value meant if and only if no pointer to a
      weak static in it, at any depth, has an addend. */
  lemma {:induction false} AddendsLost(env: Env, rank: map<nat, nat>, id: nat, ptr: nat)
    requires Acyclic(env, rank, ptr) && id in env && ptr > 0 && (forall id | id in env :: AreBytes(env[id].bytes))
    ensures AllocValue(env, rank, id, ptr, true) == AllocValue(env, rank, id, ptr, false) <==> Kept(env, rank, id, ptr)
    decreases rank[id], 1
  {
    hide CellAt, LittleEndian, DestOf, DestsOf, AreBytes, Acyclic;
    var a := env[id];
    OrderedOf(env, rank, id, ptr);
    var ds, es := DestsOf(env, rank, a.relocs, rank[id], ptr, true), DestsOf(env, rank, a.relocs, rank[id], ptr, false);
    forall j | 0 <= j < |a.relocs|
      ensures NestedIn(env, rank, id, a.relocs[j])
      ensures KeptAt(env, rank, a.relocs[j], a.bytes, rank[id], ptr) <==> SamePointer(ds[j], es[j], Addend(a, j, ptr))
    {
      var r := a.relocs[j];
      assert r in a.relocs;
      NestedBelow(env, rank, id, r, ptr);
      DestLost(env, rank, r, rank[id], ptr);
      ZeroAt(a.bytes, r.offset, ptr);
      WeakDest(env, rank, r, rank[id], ptr);
    }
    CellsAgree(a, ds, es, ptr);
    KeptEach(env, rank, id, ptr);
    ValuesAgree(env, rank, id, ds, es, ptr);
  }

  lemma NestedBelow(env: Env, rank: map<nat, nat>, id: nat, r: Reloc<Target>, ptr: nat)
    requires Acyclic(env, rank, ptr) && id in env && r in env[id].relocs
    ensures NestedIn(env, rank, id, r)
  {
  }

  lemma OrderedOf(env: Env, rank: map<nat, nat>, id: nat, ptr: nat)
    requires Acyclic(env, rank, ptr) && id in env
    ensures id in rank && Below(env, rank, env[id].relocs, rank[id])
    ensures Ordered(env[id].relocs, 0, |env[id].bytes|, ptr) && InBounds(env[id].relocs, |env[id].bytes|, ptr)
  {
    OrderedBounds(env[id].relocs, 0, |env[id].bytes|, ptr);
  }

  ghost predicate NestedIn(env: Env, rank: map<nat, nat>, id: nat, r: Reloc<Target>) {
    id in rank && forall k | k in Nested(r.target) :: k in env && k in rank && rank[k] < rank[id]
  }

  lemma KeptEach(env: Env, rank: map<nat, nat>, id: nat, ptr: nat)
    requires Acyclic(env, rank, ptr) && id in env
    requires forall j | 0 <= j < |env[id].relocs| :: NestedIn(env, rank, id, env[id].relocs[j])
    ensures Kept(env, rank, id, ptr) <==> forall j | 0 <= j < |env[id].relocs| ::
              KeptAt(env, rank, env[id].relocs[j], env[id].bytes, rank[id], ptr)
  {
    hide KeptAt;
  }

  lemma WeakDest(env: Env, rank: map<nat, nat>, r: Reloc<Target>, bound: nat, ptr: nat)
    requires Acyclic(env, rank, ptr) && forall k | k in Nested(r.target) :: k in env && k in rank && rank[k] < bound
    ensures forall m ::
              var d := DestOf(env, rank, r.target, bound, ptr, m);
              d.StaticDest? && d.weak <==> r.target.Static? && r.target.weak
  {
    hide AllocValue;
  }

  function Addend(a: Alloc<Target>, j: nat, ptr: nat): int
    requires j < |a.relocs| && a.relocs[j].offset + ptr <= |a.bytes|
  {
    LittleEndian(a.bytes[a.relocs[j].offset..a.relocs[j].offset + ptr])
  }

  /** The pointer meant is the one the text keeps. */
  predicate SamePointer(d: Dest, e: Dest, addend: int) {
    d == e && (e.StaticDest? && e.weak ==> addend == 0)
  }

  /** Byte i of both readings. */
  predicate SameCell(a: Alloc<Target>, ds: seq<Dest>, es: seq<Dest>, i: nat, ptr: nat)
    requires i < |a.bytes| && |ds| == |es| == |a.relocs| && InBounds(a.relocs, |a.bytes|, ptr)
  {
    CellAt(a.bytes, a.relocs, ds, i, ptr) == Rendered(CellAt(a.bytes, a.relocs, es, i, ptr))
  }

  lemma ValuesAgree(env: Env, rank: map<nat, nat>, id: nat, ds: seq<Dest>, es: seq<Dest>, ptr: nat)
    requires Acyclic(env, rank, ptr) && id in env && id in rank && Below(env, rank, env[id].relocs, rank[id])
    requires ds == DestsOf(env, rank, env[id].relocs, rank[id], ptr, true)
    requires es == DestsOf(env, rank, env[id].relocs, rank[id], ptr, false)
    requires InBounds(env[id].relocs, |env[id].bytes|, ptr)
    ensures AllocValue(env, rank, id, ptr, true) == AllocValue(env, rank, id, ptr, false)
            <==> forall i | 0 <= i < |env[id].bytes| :: SameCell(env[id], ds, es, i, ptr)
  {
    hide CellAt, DestsOf, Rendered;
    var v, w := AllocValue(env, rank, id, ptr, true), AllocValue(env, rank, id, ptr, false);
    assert |v.cells| == |w.cells| == |env[id].bytes|;
    assert forall i | 0 <= i < |v.cells| :: v.cells[i] == w.cells[i] <==> SameCell(env[id], ds, es, i, ptr);
  }

  /** Two readings of one allocation agree at every byte exactly when they agree on
      every pointer. */
  lemma CellsAgree(a: Alloc<Target>, ds: seq<Dest>, es: seq<Dest>, ptr: nat)
    requires Ordered(a.relocs, 0, |a.bytes|, ptr) && InBounds(a.relocs, |a.bytes|, ptr) && ptr > 0
    requires |ds| == |es| == |a.relocs|
    ensures (forall i | 0 <= i < |a.bytes| :: SameCell(a, ds, es, i, ptr))
            <==> (forall j | 0 <= j < |a.relocs| :: SamePointer(ds[j], es[j], Addend(a, j, ptr)))
  {
    hide SameCell, SamePointer, Addend;
    if forall j | 0 <= j < |a.relocs| :: SamePointer(ds[j], es[j], Addend(a, j, ptr)) {
      forall i | 0 <= i < |a.bytes| ensures SameCell(a, ds, es, i, ptr) {
        CellFromPointers(a, ds, es, i, ptr);
      }
    }
    if forall i | 0 <= i < |a.bytes| :: SameCell(a, ds, es, i, ptr) {
      forall j | 0 <= j < |a.relocs| ensures SamePointer(ds[j], es[j], Addend(a, j, ptr)) {
        PointerFromCell(a, ds, es, j, ptr);
      }
    }
  }

  lemma CellFromPointers(a: Alloc<Target>, ds: seq<Dest>, es: seq<Dest>, i: nat, ptr: nat)
    requires Ordered(a.relocs, 0, |a.bytes|, ptr) && InBounds(a.relocs, |a.bytes|, ptr)
    requires |ds| == |es| == |a.relocs| && i < |a.bytes|
    requires forall j | 0 <= j < |a.relocs| :: SamePointer(ds[j], es[j], Addend(a, j, ptr))
    ensures SameCell(a, ds, es, i, ptr)
  {
    hide CellAt, LittleEndian;
    var j: nat := if exists j :: 0 <= j < |a.relocs| && Covers(a.relocs[j], i, ptr)
                  then (var j :| 0 <= j < |a.relocs| && Covers(a.relocs[j], i, ptr); j) else 0;
    CellAtMeans(a.bytes, a.relocs, ds, 0, i, j, ptr);
    CellAtMeans(a.bytes, a.relocs, es, 0, i, j, ptr);
  }

  lemma PointerFromCell(a: Alloc<Target>, ds: seq<Dest>, es: seq<Dest>, j: nat, ptr: nat)
    requires Ordered(a.relocs, 0, |a.bytes|, ptr) && InBounds(a.relocs, |a.bytes|, ptr) && ptr > 0
    requires |ds| == |es| == |a.relocs| && j < |a.relocs| && a.relocs[j].offset + ptr <= |a.bytes|
    requires SameCell(a, ds, es, a.relocs[j].offset, ptr)
    ensures SamePointer(ds[j], es[j], Addend(a, j, ptr))
  {
    hide CellAt, LittleEndian;
    var i := a.relocs[j].offset;
    assert Covers(a.relocs[j], i, ptr);
    CellAtMeans(a.bytes, a.relocs, ds, 0, i, j, ptr);
    CellAtMeans(a.bytes, a.relocs, es, 0, i, j, ptr);
  }

  /** A pointer 8 bytes into a weak static loses the 8. */
  lemma WeakAddendFails()
    ensures var env, rank := map[0 := Alloc([8, 0, 0, 0], [Reloc(0, Static("weak", true))])], map[0 := 0];
            Acyclic(env, rank, 4) && AllocValue(env, rank, 0, 4, true) != AllocValue(env, rank, 0, 4, false)
  {
    hide AllocValue;
    var a := Alloc([8, 0, 0, 0], [Reloc(0, Static("weak", true))]);
    var env, rank: map<nat, nat> := map[0 := a], map[0 := 0];
    assert a.relocs[1..] == [] && Nested(a.relocs[0].target) == {};
    assert Acyclic(env, rank, 4);
    AddendsLost(env, rank, 0, 4);
    assert a.relocs[0] in a.relocs;
    assert !ZeroBytes(a.bytes, 0, 4) by { assert a.bytes[0] == 8; }
  }
}
