/**
  Records: lists of fields written one after the other by passing on the
  returned cursor, and read back the same way.
 */
module Records {
  import opened Arithmetic
  import opened Positional
  import opened Platform

  datatype Shape = Shape(order: Order, width: Width)

  datatype Field = Field(shape: Shape, value: nat) {
    predicate Valid() { value < Pow256(shape.width) }

    function Bytes(b: Build): (bs: seq<Byte>)
      ensures |bs| == shape.width
    {
      b.Wire(shape.order, shape.width, value)
    }

    /** The value is its own byte swap. */
    predicate Symmetric() { ByteSwap(shape.width, value) == value }
  }

  predicate AllValid(fs: seq<Field>) {
    forall f :: f in fs ==> f.Valid()
  }

  function Shapes(fs: seq<Field>): (ss: seq<Shape>)
    ensures |ss| == |fs|
  {
    if fs == [] then [] else [fs[0].shape] + Shapes(fs[1..])
  }

  function Values(fs: seq<Field>): (vs: seq<nat>)
    ensures |vs| == |fs|
  {
    if fs == [] then [] else [fs[0].value] + Values(fs[1..])
  }

  function Fields(ss: seq<Shape>, vs: seq<nat>): (fs: seq<Field>)
    requires |ss| == |vs|
    ensures |fs| == |ss|
  {
    if ss == [] then [] else [Field(ss[0], vs[0])] + Fields(ss[1..], vs[1..])
  }

  function TotalWidth(ss: seq<Shape>): nat {
    if ss == [] then 0 else ss[0].width + TotalWidth(ss[1..])
  }

  /** The width of the widest field, 0 if there is none. */
  function MaxWidth(ss: seq<Shape>): (m: nat)
    ensures forall s :: s in ss ==> s.width <= m
  {
    if ss == [] then 0
    else
      var m := MaxWidth(ss[1..]);
      assert ss == [ss[0]] + ss[1..];
      if ss[0].width > m then ss[0].width else m
  }

  /** It is the width of one of the fields. */
  lemma {:induction false} MaxWidthAttained(ss: seq<Shape>)
    ensures if ss == [] then MaxWidth(ss) == 0 else exists s :: s in ss && s.width == MaxWidth(ss)
  {
    if ss != [] {
      MaxWidthAttained(ss[1..]);
      assert ss == [ss[0]] + ss[1..] && ss[0] in ss;
      if ss[0].width <= MaxWidth(ss[1..]) {
        var s :| s in ss[1..] && s.width == MaxWidth(ss[1..]);
        assert s in ss;
      }
    }
  }

  lemma MaxWidthRest(ss: seq<Shape>)
    requires ss != []
    ensures ss[0].width <= MaxWidth(ss) && MaxWidth(ss[1..]) <= MaxWidth(ss)
  {
  }

  function EncodeRecord(b: Build, fs: seq<Field>): (bs: seq<Byte>)
    ensures |bs| == TotalWidth(Shapes(fs))
  {
    if fs == [] then [] else fs[0].Bytes(b) + EncodeRecord(b, fs[1..])
  }

  function DecodeRecord(b: Build, ss: seq<Shape>, bs: seq<Byte>): (vs: seq<nat>)
    requires |bs| == TotalWidth(ss)
    ensures |vs| == |ss|
  {
    if ss == [] then []
    else
      var w := ss[0].width;
      [b.Unwire(ss[0].order, bs[..w])] + DecodeRecord(b, ss[1..], bs[w..])
  }

  lemma ConcatAssoc<T>(a: seq<T>, b: seq<T>, c: seq<T>)
    ensures a + (b + c) == (a + b) + c
  {
  }

  lemma {:induction false} EncodeConcat(b: Build, fs: seq<Field>, gs: seq<Field>)
    ensures EncodeRecord(b, fs + gs) == EncodeRecord(b, fs) + EncodeRecord(b, gs)
  {
    hide Shapes, TotalWidth, Digits;
    if fs == [] {
      assert fs + gs == gs;
    } else {
      EncodeConcat(b, fs[1..], gs);
      EncodeFirst(b, fs[0], fs[1..] + gs);
      assert [fs[0]] + (fs[1..] + gs) == fs + gs;
      ConcatAssoc(fs[0].Bytes(b), EncodeRecord(b, fs[1..]), EncodeRecord(b, gs));
    }
  }

  lemma {:induction false} FieldsOfRecord(fs: seq<Field>)
    ensures Fields(Shapes(fs), Values(fs)) == fs
  {
    if fs != [] { FieldsOfRecord(fs[1..]); }
  }

  lemma {:induction false} RecordOfFields(ss: seq<Shape>, vs: seq<nat>)
    requires |ss| == |vs|
    ensures Shapes(Fields(ss, vs)) == ss && Values(Fields(ss, vs)) == vs
  {
    if ss != [] { RecordOfFields(ss[1..], vs[1..]); }
  }

  /** A byte string that reads the same in both byte orders. */
  predicate Palindrome(bs: seq<Byte>) { Reverse(bs) == bs }

  /** The bytes of a field are a palindrome, in whatever order they are stored, exactly if its value is symmetric. */
  lemma SymmetricIff(b: Build, f: Field)
    requires f.Valid()
    ensures Palindrome(f.Bytes(b)) <==> f.Symmetric()
  {
    OwnByteSwapIff(f.shape.width, f.value);
    ReverseReverse(Digits(f.shape.width, f.value));
  }

  /** A field stored by one build and loaded by another survives exactly if they match or its value is symmetric. */
  lemma FieldAcrossBuilds(b1: Build, b2: Build, f: Field)
    requires f.Valid()
    ensures b2.Unwire(f.shape.order, f.Bytes(b1)) == f.value
      <==> (b1.Faithful() <==> b2.Faithful()) || f.Symmetric()
  {
    var o, bs := b1.WireOrder(f.shape.order), f.Bytes(b1);
    SymmetricIff(b1, f);
    DecodeEncode(o, f.shape.width, f.value);
    if b1.Faithful() != b2.Faithful() {
      EncodeDecode(o.Flip(), bs);
      EndianDuality(o, f.shape.width, f.value, bs);
    }
  }

  /** The same for whole records of any length. */
  lemma {:induction false} RecordAcrossBuilds(b1: Build, b2: Build, fs: seq<Field>)
    requires AllValid(fs)
    ensures DecodeRecord(b2, Shapes(fs), EncodeRecord(b1, fs)) == Values(fs)
      <==> (b1.Faithful() <==> b2.Faithful()) || forall f :: f in fs ==> f.Symmetric()
  {
    if fs != [] {
      var f, rest := fs[0], fs[1..];
      var u := b2.Unwire(f.shape.order, f.Bytes(b1));
      var us := DecodeRecord(b2, Shapes(rest), EncodeRecord(b1, rest));
      FieldAcrossBuilds(b1, b2, f);
      RecordAcrossBuilds(b1, b2, rest);
      assert fs == [f] + rest;
      assert (forall g :: g in fs ==> g.Symmetric()) <==> f.Symmetric() && forall g :: g in rest ==> g.Symmetric();
      assert DecodeRecord(b2, Shapes(fs), EncodeRecord(b1, fs)) == [u] + us by { DecodeHead(b1, b2, fs); }
      assert [u] + us == [f.value] + Values(rest) <==> u == f.value && us == Values(rest) by {
        assert ([u] + us)[1..] == us && ([f.value] + Values(rest))[1..] == Values(rest);
      }
    }
  }

  lemma DecodeHead(b1: Build, b2: Build, fs: seq<Field>)
    requires fs != []
    ensures DecodeRecord(b2, Shapes(fs), EncodeRecord(b1, fs))
      == [b2.Unwire(fs[0].shape.order, fs[0].Bytes(b1))] + DecodeRecord(b2, Shapes(fs[1..]), EncodeRecord(b1, fs[1..]))
  {
    var w, bs := fs[0].shape.width, EncodeRecord(b1, fs);
    assert bs[..w] == fs[0].Bytes(b1) && bs[w..] == EncodeRecord(b1, fs[1..]);
    assert Shapes(fs)[1..] == Shapes(fs[1..]);
  }

  /** Round trip within one build, whatever its platform and byte order. */
  lemma RecordRoundTrip(b: Build, fs: seq<Field>)
    requires AllValid(fs)
    ensures DecodeRecord(b, Shapes(fs), EncodeRecord(b, fs)) == Values(fs)
  {
    RecordAcrossBuilds(b, b, fs);
  }

  /** What `writer` stores, `reader` loads as the values that went in. */
  predicate Survives(writer: Build, reader: Build, fs: seq<Field>) {
    DecodeRecord(reader, Shapes(fs), EncodeRecord(writer, fs)) == Values(fs)
  }

  /** A field holding 1 does not survive between builds that do not match. */
  lemma OneDoesNotSurvive(writer: Build, reader: Build, s: Shape)
    requires writer.Faithful() != reader.Faithful()
    ensures AllValid([Field(s, 1)]) && !Survives(writer, reader, [Field(s, 1)])
  {
    hide EncodeRecord, DecodeRecord, Digits;
    var f := Field(s, 1);
    OneIsAsymmetric(Little, s.width);
    SwapThenStore(Little, s.width, 1);
    assert !f.Symmetric() && f in [f];
    RecordAcrossBuilds(writer, reader, [f]);
  }

  /** Two builds can exchange all records exactly if both or neither are faithful. */
  lemma InteroperableIff(writer: Build, reader: Build)
    ensures (forall fs | AllValid(fs) :: Survives(writer, reader, fs)) <==> (writer.Faithful() <==> reader.Faithful())
  {
    if writer.Faithful() == reader.Faithful() {
      forall fs | AllValid(fs) ensures Survives(writer, reader, fs) {
        RecordAcrossBuilds(writer, reader, fs);
      }
    } else {
      OneDoesNotSurvive(writer, reader, Shape(Little, 2));
    }
  }

  /** The record that a buffer holds, by shape. */
  function FieldsIn(b: Build, ss: seq<Shape>, bs: seq<Byte>): (fs: seq<Field>)
    requires |bs| == TotalWidth(ss)
    ensures |fs| == |ss|
  {
    Fields(ss, DecodeRecord(b, ss, bs))
  }

  lemma FieldsInHead(b: Build, ss: seq<Shape>, bs: seq<Byte>)
    requires ss != [] && |bs| == TotalWidth(ss)
    ensures var w := ss[0].width;
      FieldsIn(b, ss, bs) == [Field(ss[0], b.Unwire(ss[0].order, bs[..w]))] + FieldsIn(b, ss[1..], bs[w..])
  {
  }

  /** The values loaded fit their fields. */
  lemma {:induction false} LoadedFieldsFit(b: Build, ss: seq<Shape>, bs: seq<Byte>)
    requires |bs| == TotalWidth(ss)
    ensures AllValid(FieldsIn(b, ss, bs))
    ensures Shapes(FieldsIn(b, ss, bs)) == ss && Values(FieldsIn(b, ss, bs)) == DecodeRecord(b, ss, bs)
  {
    RecordOfFields(ss, DecodeRecord(b, ss, bs));
    if ss != [] {
      var w := ss[0].width;
      UnwireFits(b, ss[0].order, bs[..w]);
      LoadedFieldsFit(b, ss[1..], bs[w..]);
      FieldsInHead(b, ss, bs);
    }
  }

  /** Storing them reproduces the buffer. */
  lemma {:induction false} LoadedFieldsBytes(b: Build, ss: seq<Shape>, bs: seq<Byte>)
    requires |bs| == TotalWidth(ss)
    ensures EncodeRecord(b, FieldsIn(b, ss, bs)) == bs
  {
    if ss != [] {
      var w := ss[0].width;
      var head, rest := bs[..w], bs[w..];
      EncodeDecode(b.WireOrder(ss[0].order), head);
      LoadedFieldsBytes(b, ss[1..], rest);
      FieldsInHead(b, ss, bs);
      EncodeFirst(b, Field(ss[0], b.Unwire(ss[0].order, head)), FieldsIn(b, ss[1..], rest));
      assert head + rest == bs;
    }
  }

  lemma EncodeFirst(b: Build, f: Field, fs: seq<Field>)
    ensures EncodeRecord(b, [f] + fs) == f.Bytes(b) + EncodeRecord(b, fs)
  {
    assert ([f] + fs)[1..] == fs;
  }

  /** Loading a buffer gives a valid record of the shape, and storing that reproduces the buffer. */
  lemma BufferRoundTrip(b: Build, ss: seq<Shape>, bs: seq<Byte>)
    requires |bs| == TotalWidth(ss)
    ensures var fs := FieldsIn(b, ss, bs);
      AllValid(fs) && Shapes(fs) == ss && Values(fs) == DecodeRecord(b, ss, bs) && EncodeRecord(b, fs) == bs
  {
    LoadedFieldsFit(b, ss, bs);
    LoadedFieldsBytes(b, ss, bs);
  }

  /** Records of one shape with the same bytes are the same record. */
  lemma EncodingInjective(b: Build, fs: seq<Field>, gs: seq<Field>)
    requires AllValid(fs) && AllValid(gs) && Shapes(fs) == Shapes(gs)
    requires EncodeRecord(b, fs) == EncodeRecord(b, gs)
    ensures fs == gs
  {
    RecordRoundTrip(b, fs);
    RecordRoundTrip(b, gs);
    FieldsOfRecord(fs);
    FieldsOfRecord(gs);
  }

  /** Every string of the right length is the encoding of exactly one record of a shape. */
  lemma ShapeBijection(b: Build, ss: seq<Shape>, bs: seq<Byte>)
    requires |bs| == TotalWidth(ss)
    ensures exists fs ::
      && AllValid(fs) && Shapes(fs) == ss && EncodeRecord(b, fs) == bs
      && forall gs | AllValid(gs) && Shapes(gs) == ss && EncodeRecord(b, gs) == bs :: gs == fs
  {
    var fs := FieldsIn(b, ss, bs);
    BufferRoundTrip(b, ss, bs);
    forall gs | AllValid(gs) && Shapes(gs) == ss && EncodeRecord(b, gs) == bs
      ensures gs == fs
    {
      EncodingInjective(b, fs, gs);
    }
  }
}
