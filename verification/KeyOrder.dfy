/** Composite keys: when comparing stored records byte by byte compares their values. */
module KeyOrder {
  import opened Arithmetic
  import opened Positional
  import opened Platform
  import opened Records

  /** Dictionary order of concatenations whose first parts have one length. */
  lemma {:induction false} LexLessConcat(a: seq<nat>, a': seq<nat>, b: seq<nat>, b': seq<nat>)
    requires |a| == |b|
    ensures LexLess(a + a', b + b') <==> LexLess(a, b) || (a == b && LexLess(a', b'))
  {
    if a == [] {
      assert a + a' == a' && b + b' == b';
    } else {
      LexLessConcat(a[1..], a', b[1..], b');
      assert (a + a')[1..] == a[1..] + a' && (b + b')[1..] == b[1..] + b';
      assert a == [a[0]] + a[1..] && b == [b[0]] + b[1..];
    }
  }

  /** Every field of the shape goes onto the wire big-endian. */
  predicate WireBig(b: Build, ss: seq<Shape>) {
    forall s :: s in ss ==> b.WireOrder(s.order).Big?
  }

  /** memcmp order of the stored fields is numeric order, for a field stored big-endian. */
  lemma FieldOrder(b: Build, f: Field, g: Field)
    requires f.Valid() && g.Valid() && f.shape == g.shape && b.WireOrder(f.shape.order).Big?
    ensures LexLess(f.Bytes(b), g.Bytes(b)) <==> f.value < g.value
    ensures f.Bytes(b) == g.Bytes(b) <==> f.value == g.value
  {
    BigEndianOrder(f.Bytes(b), g.Bytes(b));
    DecodeEncode(Big, f.shape.width, f.value);
    DecodeEncode(Big, g.shape.width, g.value);
  }

  /** Records stored big-endian throughout compare like their value lists. */
  lemma {:induction false} BigRecordsOrdered(b: Build, fs: seq<Field>, gs: seq<Field>)
    requires AllValid(fs) && AllValid(gs) && Shapes(fs) == Shapes(gs) && WireBig(b, Shapes(fs))
    ensures LexLess(EncodeRecord(b, fs), EncodeRecord(b, gs)) <==> LexLess(Values(fs), Values(gs))
  {
    if fs != [] {
      assert fs[0].shape == Shapes(fs)[0] == Shapes(gs)[0] == gs[0].shape;
      assert Shapes(fs)[1..] == Shapes(fs[1..]) && Shapes(gs)[1..] == Shapes(gs[1..]);
      FieldOrder(b, fs[0], gs[0]);
      BigRecordsOrdered(b, fs[1..], gs[1..]);
      LexLessConcat(fs[0].Bytes(b), EncodeRecord(b, fs[1..]), gs[0].Bytes(b), EncodeRecord(b, gs[1..]));
    }
  }

  function Zeros(ss: seq<Shape>): (fs: seq<Field>)
    ensures Shapes(fs) == ss && AllValid(fs)
  {
    if ss == [] then [] else [Field(ss[0], 0)] + Zeros(ss[1..])
  }

  /** A field stored little-endian puts 256 before 1. */
  lemma LittleMisorders(w: Width)
    ensures 256 < Pow256(w)
    ensures LexLess(Encode(Little, w, 256), Encode(Little, w, 1))
  {
    Pow256Values();
    assert Encode(Little, w, 256)[0] == 0 && Encode(Little, w, 1)[0] == 1;
  }

  lemma {:induction false} LexLessAsymmetric(a: seq<nat>, b: seq<nat>)
    ensures !(LexLess(a, b) && LexLess(b, a))
  {
    if a != [] && b != [] { LexLessAsymmetric(a[1..], b[1..]); }
  }

  /** A shape with a little-endian field on the wire has two records that memcmp puts in the wrong order. */
  lemma {:induction false} LittleFieldMisorders(b: Build, ss: seq<Shape>) returns (fs: seq<Field>, gs: seq<Field>)
    requires !WireBig(b, ss)
    ensures AllValid(fs) && AllValid(gs) && Shapes(fs) == Shapes(gs) == ss
    ensures LexLess(Values(fs), Values(gs))
    ensures LexLess(EncodeRecord(b, gs), EncodeRecord(b, fs))
  {
    var s, zs := ss[0], Zeros(ss[1..]);
    if b.WireOrder(s.order).Little? {
      LittleMisorders(s.width);
      fs, gs := [Field(s, 1)] + zs, [Field(s, 256)] + zs;
      LexLessConcat(gs[0].Bytes(b), EncodeRecord(b, zs), fs[0].Bytes(b), EncodeRecord(b, zs));
    } else {
      assert ss == [s] + ss[1..];
      var fs', gs' := LittleFieldMisorders(b, ss[1..]);
      fs, gs := [Field(s, 0)] + fs', [Field(s, 0)] + gs';
      LexLessConcat(gs[0].Bytes(b), EncodeRecord(b, gs'), fs[0].Bytes(b), EncodeRecord(b, fs'));
    }
    assert fs[1..] + [] == fs[1..] && gs[1..] + [] == gs[1..];
  }

  /** Byte order of stored records is the order of their values for exactly the shapes stored big-endian throughout. */
  lemma OrderPreservedIff(b: Build, ss: seq<Shape>)
    ensures
      (forall fs, gs | AllValid(fs) && AllValid(gs) && Shapes(fs) == ss && Shapes(gs) == ss ::
        LexLess(EncodeRecord(b, fs), EncodeRecord(b, gs)) <==> LexLess(Values(fs), Values(gs)))
      <==> WireBig(b, ss)
  {
    if WireBig(b, ss) {
      forall fs, gs | AllValid(fs) && AllValid(gs) && Shapes(fs) == ss && Shapes(gs) == ss
        ensures LexLess(EncodeRecord(b, fs), EncodeRecord(b, gs)) <==> LexLess(Values(fs), Values(gs))
      {
        BigRecordsOrdered(b, fs, gs);
      }
    } else {
      var fs, gs := LittleFieldMisorders(b, ss);
      LexLessAsymmetric(EncodeRecord(b, fs), EncodeRecord(b, gs));
    }
  }
}
