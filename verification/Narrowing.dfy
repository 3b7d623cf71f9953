/** Wide fields as chains of 16-bit fields. */
module Narrowing {
  import opened Arithmetic
  import opened Positional
  import opened Platform
  import opened Records

  /** The low and the high half of a wide field. */
  function Halves(f: Field): (Field, Field)
    requires f.shape.width > 2
  {
    var half := Shape(f.shape.order, f.shape.width / 2);
    var p := Pow256(f.shape.width / 2);
    (Field(half, f.value % p), Field(half, DivNat(f.value, p)))
  }

  function DivNat(n: nat, d: nat): (q: nat)
    requires d > 0
    ensures q == n / d
  {
    n / d
  }

  /** The two halves in the order their stores are chained: low half first if little-endian. */
  function Chain(f: Field): (c: (Field, Field))
    requires f.shape.width > 2
    ensures var p := Pow256(f.shape.width / 2);
      && (f.shape.order.Little? ==> c.0.value == f.value % p && c.1.value == DivNat(f.value, p))
      && (f.shape.order.Big? ==> c.0.value == DivNat(f.value, p) && c.1.value == f.value % p)
  {
    var (lo, hi) := Halves(f);
    if f.shape.order.Little? then (lo, hi) else (hi, lo)
  }

  /** The chain of 16-bit fields for one field. */
  function NarrowField(f: Field): seq<Field>
    decreases f.shape.width
  {
    if f.shape.width == 2 then [f]
    else NarrowField(Chain(f).0) + NarrowField(Chain(f).1)
  }

  function Narrow(fs: seq<Field>): seq<Field> {
    if fs == [] then [] else NarrowField(fs[0]) + Narrow(fs[1..])
  }

  /** The chain of shapes does not depend on the value stored. */
  function NarrowShape(s: Shape): seq<Shape>
    decreases s.width
  {
    if s.width == 2 then [s]
    else
      var half := NarrowShape(Shape(s.order, s.width / 2));
      half + half
  }

  function NarrowShapes(ss: seq<Shape>): seq<Shape> {
    if ss == [] then [] else NarrowShape(ss[0]) + NarrowShapes(ss[1..])
  }

  /** Both halves of a value that fits are values that fit. */
  lemma HalvesFit(f: Field)
    requires f.Valid() && f.shape.width > 2
    ensures Halves(f).0.Valid() && Halves(f).1.Valid()
  {
    var h := f.shape.width / 2;
    var p := Pow256(h);
    Pow256Add(h, h);
    QuotientFits(f.value, p, p);
  }

  lemma {:induction false} NarrowFieldFits(f: Field)
    requires f.Valid()
    ensures AllValid(NarrowField(f))
    ensures forall g :: g in NarrowField(f) ==> g.shape == Shape(f.shape.order, 2)
    ensures Shapes(NarrowField(f)) == NarrowShape(f.shape)
    decreases f.shape.width
  {
    if f.shape.width > 2 {
      HalvesFit(f);
      var (a, c) := Chain(f);
      NarrowFieldFits(a);
      NarrowFieldFits(c);
      ShapesConcat(NarrowField(a), NarrowField(c));
    } else {
      assert Shapes([f])[1..] == [];
    }
  }

  lemma {:induction false} ShapesConcat(fs: seq<Field>, gs: seq<Field>)
    ensures Shapes(fs + gs) == Shapes(fs) + Shapes(gs)
  {
    if fs == [] {
      assert fs + gs == gs;
    } else {
      ShapesConcat(fs[1..], gs);
      assert (fs + gs)[0] == fs[0] && (fs + gs)[1..] == fs[1..] + gs;
      ConcatAssoc([fs[0].shape], Shapes(fs[1..]), Shapes(gs));
    }
  }

  /** In plain numbers: a wide store is the stores of its low and its high half, low half first or high half first. */
  lemma WideIsLowAndHigh(b: Build, o: Order, h: nat, v: nat)
    ensures var low, high := b.Wire(o, h, v % Pow256(h)), b.Wire(o, h, DivNat(v, Pow256(h)));
      && (o.Little? == b.Faithful() ==> b.Wire(o, h + h, v) == low + high)
      && (o.Big? == b.Faithful() ==> b.Wire(o, h + h, v) == high + low)
  {
    DigitsSplit(h, h, v, DivNat(v, Pow256(h)));
    DigitsLow(h, v);
    ReverseConcat(Digits(h, v), Digits(h, DivNat(v, Pow256(h))));
  }

  /** A wide store is two stores of half the width: chained in order on a faithful build, in reverse on another. */
  lemma WideIsTwoHalves(b: Build, f: Field)
    requires f.shape.width > 2
    ensures var (first, second) := Chain(f);
      f.Bytes(b) == if b.Faithful() then first.Bytes(b) + second.Bytes(b) else second.Bytes(b) + first.Bytes(b)
  {
    hide Digits;
    var h := f.shape.width / 2;
    assert f.shape.width == h + h;
    WideIsLowAndHigh(b, f.shape.order, h, f.value);
  }

  /** A wide store is its chain of 16-bit stores, on an unfaithful build the chain backwards. */
  lemma {:induction false} NarrowFieldBytes(b: Build, f: Field)
    ensures EncodeRecord(b, if b.Faithful() then NarrowField(f) else Reverse(NarrowField(f))) == f.Bytes(b)
    decreases f.shape.width
  {
    hide Chain, Digits, Shapes, TotalWidth;
    if f.shape.width > 2 {
      var a, c := Chain(f).0, Chain(f).1;
      WideIsTwoHalves(b, f);
      ChainNarrower(f);
      NarrowFieldBytes(b, a);
      NarrowFieldBytes(b, c);
      EncodeConcat(b, NarrowField(a), NarrowField(c));
      EncodeConcat(b, Reverse(NarrowField(c)), Reverse(NarrowField(a)));
      ReverseConcat(NarrowField(a), NarrowField(c));
    } else {
      assert Reverse([f]) == [f];
      EncodeFirst(b, f, []);
      assert [f] + [] == [f];
    }
  }

  lemma ChainNarrower(f: Field)
    requires f.shape.width > 2
    ensures Chain(f).0.shape == Chain(f).1.shape == Shape(f.shape.order, f.shape.width / 2)
  {
  }

  /** Replacing every wide store of a record by its chain of 16-bit stores leaves the same bytes. */
  lemma {:induction false} NarrowRecordBytes(b: Build, fs: seq<Field>)
    requires b.Faithful()
    ensures EncodeRecord(b, Narrow(fs)) == EncodeRecord(b, fs)
  {
    if fs != [] {
      NarrowFieldBytes(b, fs[0]);
      NarrowRecordBytes(b, fs[1..]);
      EncodeConcat(b, NarrowField(fs[0]), Narrow(fs[1..]));
    }
  }

  lemma {:induction false} NarrowFits(fs: seq<Field>)
    requires AllValid(fs)
    ensures AllValid(Narrow(fs)) && Shapes(Narrow(fs)) == NarrowShapes(Shapes(fs))
  {
    if fs != [] {
      NarrowFieldFits(fs[0]);
      NarrowFits(fs[1..]);
      ShapesConcat(NarrowField(fs[0]), Narrow(fs[1..]));
      assert Shapes(fs)[1..] == Shapes(fs[1..]);
    }
  }

  /** The 16-bit pieces of the value read the same both ways. */
  predicate PiecesSymmetric(f: Field) {
    Reverse(NarrowField(f)) == NarrowField(f)
  }

  lemma {:induction false} UniformShapes(fs: seq<Field>, gs: seq<Field>, s: Shape)
    requires |fs| == |gs|
    requires forall i :: 0 <= i < |fs| ==> fs[i].shape == gs[i].shape == s
    ensures Shapes(fs) == Shapes(gs)
  {
    if fs != [] { UniformShapes(fs[1..], gs[1..], s); }
  }

  /** The chain of 16-bit stores can replace one store exactly on a faithful build or if the pieces are symmetric. */
  lemma NarrowFieldIff(b: Build, f: Field)
    requires f.Valid()
    ensures EncodeRecord(b, NarrowField(f)) == f.Bytes(b) <==> b.Faithful() || PiecesSymmetric(f)
  {
    var fs := NarrowField(f);
    var gs := Reverse(fs);
    NarrowFieldBytes(b, f);
    NarrowFieldFits(f);
    assert forall g :: g in gs ==> g in fs;
    UniformShapes(fs, gs, Shape(f.shape.order, 2));
    if !b.Faithful() && EncodeRecord(b, fs) == f.Bytes(b) {
      EncodingInjective(b, fs, gs);
    }
  }

  lemma {:induction false} TotalWidthConcat(ss: seq<Shape>, ts: seq<Shape>)
    ensures TotalWidth(ss + ts) == TotalWidth(ss) + TotalWidth(ts)
  {
    if ss == [] {
      assert ss + ts == ts;
    } else {
      TotalWidthConcat(ss[1..], ts);
      assert (ss + ts)[1..] == ss[1..] + ts;
    }
  }

  lemma {:induction false} NarrowShapeWidth(s: Shape)
    ensures TotalWidth(NarrowShape(s)) == s.width
    decreases s.width
  {
    if s.width > 2 {
      var half := Shape(s.order, s.width / 2);
      NarrowShapeWidth(half);
      TotalWidthConcat(NarrowShape(half), NarrowShape(half));
    } else {
      assert TotalWidth([s]) == s.width + TotalWidth([]);
    }
  }

  lemma {:induction false} NarrowShapesWidth(ss: seq<Shape>)
    ensures TotalWidth(NarrowShapes(ss)) == TotalWidth(ss)
  {
    if ss != [] {
      NarrowShapeWidth(ss[0]);
      NarrowShapesWidth(ss[1..]);
      TotalWidthConcat(NarrowShape(ss[0]), NarrowShapes(ss[1..]));
    }
  }

  lemma SplitEqual(a: seq<Byte>, a': seq<Byte>, c: seq<Byte>, c': seq<Byte>)
    requires |a| == |c|
    ensures a + a' == c + c' <==> a == c && a' == c'
  {
    if a + a' == c + c' {
      assert a == (a + a')[..|a|] == c;
      assert a' == (a + a')[|a|..] == c';
    }
  }

  /** The chains can replace the stores of a record exactly on a faithful build or if all its pieces are symmetric. */
  lemma {:induction false} NarrowRecordIff(b: Build, fs: seq<Field>)
    requires AllValid(fs)
    ensures EncodeRecord(b, Narrow(fs)) == EncodeRecord(b, fs)
      <==> b.Faithful() || forall f :: f in fs ==> PiecesSymmetric(f)
  {
    hide PiecesSymmetric, NarrowField, Digits;
    if fs != [] {
      var f, rest := fs[0], fs[1..];
      NarrowFieldIff(b, f);
      NarrowRecordIff(b, rest);
      EncodeConcat(b, NarrowField(f), Narrow(rest));
      assert |EncodeRecord(b, NarrowField(f))| == f.shape.width by {
        NarrowFieldFits(f);
        NarrowShapeWidth(f.shape);
      }
      SplitEqual(EncodeRecord(b, NarrowField(f)), EncodeRecord(b, Narrow(rest)), f.Bytes(b), EncodeRecord(b, rest));
      assert fs == [f] + rest;
      assert (forall g :: g in fs ==> PiecesSymmetric(g))
        <==> PiecesSymmetric(f) && forall g :: g in rest ==> PiecesSymmetric(g);
    }
  }

  /** Loading a buffer in 16-bit pieces gives the 16-bit pieces of what loading it in wide fields gives. */
  ghost predicate PiecesLoaded(b: Build, ss: seq<Shape>, bs: seq<Byte>)
    requires |bs| == TotalWidth(ss)
  {
    NarrowShapesWidth(ss);
    DecodeRecord(b, NarrowShapes(ss), bs) == Values(Narrow(FieldsIn(b, ss, bs)))
  }

  /** It does so exactly when storing in pieces would have left the same bytes. */
  lemma PiecesLoadedIffStored(b: Build, ss: seq<Shape>, bs: seq<Byte>)
    requires |bs| == TotalWidth(ss)
    ensures PiecesLoaded(b, ss, bs)
      <==> EncodeRecord(b, Narrow(FieldsIn(b, ss, bs))) == EncodeRecord(b, FieldsIn(b, ss, bs))
  {
    var fs, ts := FieldsIn(b, ss, bs), NarrowShapes(ss);
    BufferRoundTrip(b, ss, bs);
    NarrowFits(fs);
    NarrowShapesWidth(ss);
    if PiecesLoaded(b, ss, bs) {
      BufferRoundTrip(b, ts, bs);
      FieldsOfRecord(Narrow(fs));
      assert FieldsIn(b, ts, bs) == Narrow(fs);
    }
    if EncodeRecord(b, Narrow(fs)) == bs {
      RecordRoundTrip(b, Narrow(fs));
    }
  }

  /** A byte string as 16-bit units. */
  function Units(bs: seq<Byte>): (us: seq<seq<Byte>>)
    ensures |us| == |bs| / 2
    ensures forall i :: 0 <= i < |us| ==> us[i] == bs[2 * i..2 * i + 2]
  {
    seq(|bs| / 2, i requires 0 <= i < |bs| / 2 => bs[2 * i..2 * i + 2])
  }

  /** The 16-bit units read the same both ways. */
  predicate UnitsSymmetric(bs: seq<Byte>) {
    Reverse(Units(bs)) == Units(bs)
  }

  /** The bytes of every wide field of the buffer have symmetric units. */
  predicate BufferSymmetric(ss: seq<Shape>, bs: seq<Byte>)
    requires |bs| == TotalWidth(ss)
  {
    ss == [] || (UnitsSymmetric(bs[..ss[0].width]) && BufferSymmetric(ss[1..], bs[ss[0].width..]))
  }

  lemma UnitsFirst(u: seq<Byte>, bs: seq<Byte>)
    requires |u| == 2
    ensures Units(u + bs) == [u] + Units(bs)
  {
    forall i | 0 <= i < |Units(u + bs)|
      ensures Units(u + bs)[i] == ([u] + Units(bs))[i]
    {
      var k := 2 * i;
      assert i > 0 ==> (u + bs)[k..k + 2] == bs[k - 2..k];
    }
  }

  /** What each field of a record stores. */
  function BytesOfEach(b: Build, fs: seq<Field>): (us: seq<seq<Byte>>)
    ensures |us| == |fs|
    ensures forall i :: 0 <= i < |us| ==> us[i] == fs[i].Bytes(b)
  {
    seq(|fs|, i requires 0 <= i < |fs| => fs[i].Bytes(b))
  }

  lemma {:induction false} UnitsOfRecord(b: Build, fs: seq<Field>)
    requires forall f :: f in fs ==> f.shape.width == 2
    ensures Units(EncodeRecord(b, fs)) == BytesOfEach(b, fs)
  {
    hide Field.Bytes;
    if fs != [] {
      UnitsOfRecord(b, fs[1..]);
      UnitsFirst(fs[0].Bytes(b), EncodeRecord(b, fs[1..]));
      assert BytesOfEach(b, fs) == [fs[0].Bytes(b)] + BytesOfEach(b, fs[1..]);
    }
  }

  /** Fields of one shape with the same bytes are the same field. */
  lemma SameBytesIff(b: Build, f: Field, g: Field)
    requires f.Valid() && g.Valid() && f.shape == g.shape
    ensures f.Bytes(b) == g.Bytes(b) <==> f == g
  {
    DecodeEncode(b.WireOrder(f.shape.order), f.shape.width, f.value);
    DecodeEncode(b.WireOrder(f.shape.order), f.shape.width, g.value);
  }

  /** A chain of 16-bit fields of one order reads the same both ways exactly if its bytes do, unit by unit. */
  lemma SymmetricChain(b: Build, gs: seq<Field>, s: Shape)
    requires s.width == 2 && AllValid(gs) && forall g :: g in gs ==> g.shape == s
    ensures Reverse(gs) == gs <==> UnitsSymmetric(EncodeRecord(b, gs))
  {
    hide Field.Bytes, EncodeRecord;
    UnitsOfRecord(b, gs);
    var us, n := BytesOfEach(b, gs), |gs|;
    forall i | 0 <= i < n
      ensures us[n - 1 - i] == us[i] <==> gs[n - 1 - i] == gs[i]
    {
      SameBytesIff(b, gs[n - 1 - i], gs[i]);
    }
    SymmetricPointwise(us);
    SymmetricPointwise(gs);
  }

  lemma SymmetricPointwise<T>(s: seq<T>)
    ensures Reverse(s) == s <==> forall i :: 0 <= i < |s| ==> s[|s| - 1 - i] == s[i]
  {
    if Reverse(s) == s {
      assert forall i :: 0 <= i < |s| ==> Reverse(s)[i] == s[i];
    }
  }

  /** What the pieces of a value show, its bytes show. */
  lemma SymmetricPiecesIff(b: Build, f: Field)
    requires f.Valid()
    ensures PiecesSymmetric(f) <==> UnitsSymmetric(f.Bytes(b))
  {
    hide NarrowField, Digits, UnitsSymmetric;
    var gs := if b.Faithful() then NarrowField(f) else Reverse(NarrowField(f));
    NarrowFieldBytes(b, f);
    NarrowFieldFits(f);
    assert forall g :: g in gs ==> g in NarrowField(f);
    ReverseReverse(NarrowField(f));
    SymmetricChain(b, gs, Shape(f.shape.order, 2));
  }

  lemma {:induction false} SymmetricBufferIff(b: Build, ss: seq<Shape>, bs: seq<Byte>)
    requires |bs| == TotalWidth(ss)
    ensures BufferSymmetric(ss, bs) <==> forall f :: f in FieldsIn(b, ss, bs) ==> PiecesSymmetric(f)
  {
    hide PiecesSymmetric, UnitsSymmetric, Digits;
    if ss != [] {
      var w := ss[0].width;
      var f, rest := Field(ss[0], b.Unwire(ss[0].order, bs[..w])), FieldsIn(b, ss[1..], bs[w..]);
      EncodeDecode(b.WireOrder(ss[0].order), bs[..w]);
      SymmetricPiecesIff(b, f);
      SymmetricBufferIff(b, ss[1..], bs[w..]);
      FieldsInHead(b, ss, bs);
      assert (forall g :: g in [f] + rest ==> PiecesSymmetric(g))
        <==> PiecesSymmetric(f) && forall g :: g in rest ==> PiecesSymmetric(g);
    }
  }

  /** Buffer by buffer: exactly on a faithful build or if the bytes of all its wide fields have symmetric units. */
  lemma NarrowLoads(b: Build, ss: seq<Shape>, bs: seq<Byte>)
    requires |bs| == TotalWidth(ss)
    ensures PiecesLoaded(b, ss, bs) <==> b.Faithful() || BufferSymmetric(ss, bs)
  {
    BufferRoundTrip(b, ss, bs);
    PiecesLoadedIffStored(b, ss, bs);
    NarrowRecordIff(b, FieldsIn(b, ss, bs));
    SymmetricBufferIff(b, ss, bs);
  }

  /** The 32-bit 1 has halves 0 and 1. */
  lemma OneHasAsymmetricPieces(o: Order)
    ensures Field(Shape(o, 4), 1).Valid() && !PiecesSymmetric(Field(Shape(o, 4), 1))
  {
    Pow256Values();
    var f := Field(Shape(o, 4), 1);
    var (first, second) := Chain(f);
    assert first.value != second.value && first.shape.width == 2 == second.shape.width;
    assert NarrowField(f) == [first, second];
    assert Reverse(NarrowField(f))[0] == second;
  }

  /** An unfaithful build takes a 32-bit 1 apart the wrong way, storing it and loading it. */
  lemma UnfaithfulMisordersHalves(b: Build, o: Order)
    requires !b.Faithful()
    ensures var f := Field(Shape(o, 4), 1);
      && f.Valid() && EncodeRecord(b, Narrow([f])) != EncodeRecord(b, [f])
      && !PiecesLoaded(b, Shapes([f]), EncodeRecord(b, [f]))
  {
    hide NarrowField, Digits, PiecesLoaded, PiecesSymmetric;
    var f := Field(Shape(o, 4), 1);
    var fs, bs := [f], EncodeRecord(b, [f]);
    OneHasAsymmetricPieces(o);
    assert f in fs;
    NarrowRecordIff(b, fs);
    RecordRoundTrip(b, fs);
    FieldsOfRecord(fs);
    assert FieldsIn(b, Shapes(fs), bs) == fs;
    PiecesLoadedIffStored(b, Shapes(fs), bs);
  }

  /** Chains of narrow stores replace wide stores in all records exactly on the faithful builds. */
  lemma NarrowingSoundIff(b: Build)
    ensures (forall fs | AllValid(fs) :: EncodeRecord(b, Narrow(fs)) == EncodeRecord(b, fs)) <==> b.Faithful()
  {
    if b.Faithful() {
      forall fs | AllValid(fs)
        ensures EncodeRecord(b, Narrow(fs)) == EncodeRecord(b, fs)
      {
        NarrowRecordBytes(b, fs);
      }
    } else {
      UnfaithfulMisordersHalves(b, Big);
      var f := Field(Shape(Big, 4), 1);
      assert AllValid([f]);
    }
  }

  /** Chains of narrow loads replace wide loads of all buffers exactly on the faithful builds. */
  lemma NarrowLoadsIff(b: Build)
    ensures (forall ss, bs: seq<Byte> | |bs| == TotalWidth(ss) :: PiecesLoaded(b, ss, bs)) <==> b.Faithful()
  {
    if b.Faithful() {
      forall ss, bs: seq<Byte> | |bs| == TotalWidth(ss)
        ensures PiecesLoaded(b, ss, bs)
      {
        NarrowLoads(b, ss, bs);
      }
    } else {
      UnfaithfulMisordersHalves(b, Big);
    }
  }
}
