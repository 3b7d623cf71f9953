/**
  Base-256 positional notation: the meaning that every store and load is
  measured against. Digits come least significant first; a byte order says
  whether memory holds them in that order or in reverse.
 */
module Positional {
  import opened Arithmetic

  type Byte = b: nat | b < 256

  datatype Order = Little | Big {
    function Flip(): Order { if Little? then Big else Little }
  }

  function Reverse<T>(s: seq<T>): (r: seq<T>)
    ensures |r| == |s|
    ensures forall i :: 0 <= i < |s| ==> r[i] == s[|s| - 1 - i]
  {
    seq(|s|, i requires 0 <= i < |s| => s[|s| - 1 - i])
  }

  lemma ReverseReverse<T>(s: seq<T>)
    ensures Reverse(Reverse(s)) == s
  {
  }

  lemma ReverseConcat<T>(a: seq<T>, b: seq<T>)
    ensures Reverse(a + b) == Reverse(b) + Reverse(a)
  {
  }

  /** The `w` low base-256 digits of `v`. */
  function Digits(w: nat, v: nat): (ds: seq<Byte>)
    ensures |ds| == w
  {
    if w == 0 then [] else [v % 256] + Digits(w - 1, v / 256)
  }

  /** The number whose digits are `ds`. */
  function Value(ds: seq<Byte>): nat {
    if ds == [] then 0 else ds[0] + 256 * Value(ds[1..])
  }

  /** `w` bytes holding `v` in byte order `o`. */
  function Encode(o: Order, w: nat, v: nat): (bs: seq<Byte>)
    ensures |bs| == w
  {
    if o.Little? then Digits(w, v) else Reverse(Digits(w, v))
  }

  /** The number that bytes `bs` hold in byte order `o`. */
  function Decode(o: Order, bs: seq<Byte>): nat {
    if o.Little? then Value(bs) else Value(Reverse(bs))
  }

  /** Sum of ds[i] * 256^i over the first `n` digits. */
  function PositionalSum(ds: seq<Byte>, n: nat): nat
    requires n <= |ds|
  {
    if n == 0 then 0 else PositionalSum(ds, n - 1) + Pow256(n - 1) * ds[n - 1]
  }

  lemma {:induction false} ValueBound(ds: seq<Byte>)
    ensures Value(ds) < Pow256(|ds|)
  {
    if ds != [] { ValueBound(ds[1..]); }
  }

  lemma {:induction false} ValueConcat(xs: seq<Byte>, ys: seq<Byte>)
    ensures Value(xs + ys) == Value(xs) + Pow256(|xs|) * Value(ys)
  {
    if xs == [] {
      assert xs + ys == ys;
    } else {
      ValueConcat(xs[1..], ys);
      assert (xs + ys)[1..] == xs[1..] + ys;
      Pow256Step(|xs|, Value(ys));
    }
  }

  /** Horner's rule agrees with the weighted sum. */
  lemma {:induction false} ValueIsPositionalSum(ds: seq<Byte>, n: nat)
    requires n <= |ds|
    ensures Value(ds[..n]) == PositionalSum(ds, n)
  {
    if n > 0 {
      var low, d := ds[..n - 1], ds[n - 1];
      ValueIsPositionalSum(ds, n - 1);
      ValueConcat(low, [d]);
      assert ds[..n] == low + [d];
      assert Value([d]) == d;
    }
  }

  /** Writing out digits and reading them back truncates to the width. */
  lemma {:induction false} ValueDigits(w: nat, v: nat)
    ensures Value(Digits(w, v)) == v % Pow256(w)
  {
    if w > 0 {
      ValueDigits(w - 1, v / 256);
      assert Digits(w, v)[1..] == Digits(w - 1, v / 256);
      DivDiv(v, 256, Pow256(w - 1));
    }
  }

  lemma {:induction false} DigitsValue(ds: seq<Byte>)
    ensures Digits(|ds|, Value(ds)) == ds
  {
    if ds != [] {
      DigitsValue(ds[1..]);
      DivModUnique(Value(ds), 256, Value(ds[1..]), ds[0]);
    }
  }

  lemma {:induction false} DigitAt(w: nat, v: nat, i: nat)
    requires i < w
    ensures Digits(w, v)[i] == v / Pow256(i) % 256
  {
    if i > 0 {
      DigitAt(w - 1, v / 256, i - 1);
      DivDiv(v, 256, Pow256(i - 1));
    }
  }

  /** Only the low part of a number matters to its low digits. */
  lemma {:induction false} DigitsLow(w: nat, v: nat)
    ensures Digits(w, v % Pow256(w)) == Digits(w, v)
  {
    if w > 0 {
      LowPartStep(v, w);
      DigitsLow(w - 1, v / 256);
    }
  }

  /** The digits of a wide number are those of its low part, then those of its high part. */
  lemma {:induction false} DigitsSplit(a: nat, b: nat, v: nat, hi: nat)
    requires hi == v / Pow256(a)
    ensures Digits(a + b, v) == Digits(a, v) + Digits(b, hi)
  {
    if a > 0 {
      assert hi == v / 256 / Pow256(a - 1) by { LowPartStep(v, a); }
      DigitsSplit(a - 1, b, v / 256, hi);
      assert Digits(a + b, v)[1..] == Digits(a, v)[1..] + Digits(b, hi);
    }
  }

  /** Encoding then decoding keeps what fits the width, */
  lemma DecodeEncodeTruncates(o: Order, w: nat, v: nat)
    ensures Decode(o, Encode(o, w, v)) == v % Pow256(w)
  {
    ValueDigits(w, v);
    ReverseReverse(Digits(w, v));
  }

  /** and gives back exactly the values that fit. */
  lemma DecodeEncode(o: Order, w: nat, v: nat)
    ensures Decode(o, Encode(o, w, v)) == v <==> v < Pow256(w)
  {
    DecodeEncodeTruncates(o, w, v);
    if v < Pow256(w) { DivModUnique(v, Pow256(w), 0, v); }
  }

  /** Every byte string encodes the value it decodes to, and that value fits. */
  lemma EncodeDecode(o: Order, bs: seq<Byte>)
    ensures Encode(o, |bs|, Decode(o, bs)) == bs
    ensures Decode(o, bs) < Pow256(|bs|)
  {
    var ds := if o.Little? then bs else Reverse(bs);
    DigitsValue(ds);
    ValueBound(ds);
    ReverseReverse(bs);
  }

  /** The two byte orders are mirror images, for encoding and for decoding. */
  lemma EndianDuality(o: Order, w: nat, v: nat, bs: seq<Byte>)
    ensures Encode(o.Flip(), w, v) == Reverse(Encode(o, w, v))
    ensures Decode(o.Flip(), bs) == Decode(o, Reverse(bs))
  {
    ReverseReverse(Digits(w, v));
    ReverseReverse(bs);
  }

  /** Dictionary order, the order in which memcmp compares byte strings of equal length. */
  predicate LexLess(a: seq<nat>, b: seq<nat>) {
    b != [] && (a == [] || a[0] < b[0] || (a[0] == b[0] && LexLess(a[1..], b[1..])))
  }

  /** For equal lengths: the first position where the two differ decides. */
  lemma {:induction false} LexLessIff(a: seq<nat>, b: seq<nat>)
    requires |a| == |b|
    ensures LexLess(a, b) <==> exists i :: 0 <= i < |a| && a[..i] == b[..i] && a[i] < b[i]
  {
    if a != [] {
      LexLessIff(a[1..], b[1..]);
      if LexLess(a, b) && a[0] == b[0] {
        var i :| 0 <= i < |a[1..]| && a[1..][..i] == b[1..][..i] && a[1..][i] < b[1..][i];
        assert a[..i + 1] == [a[0]] + a[1..][..i] && b[..i + 1] == [b[0]] + b[1..][..i];
        assert a[i + 1] < b[i + 1];
      } else if LexLess(a, b) {
        assert a[..0] == b[..0] && a[0] < b[0];
      }
      if i :| 0 <= i < |a| && a[..i] == b[..i] && a[i] < b[i] {
        if i > 0 {
          assert a[0] == a[..i][0] == b[..i][0] == b[0];
          assert a[1..][..i - 1] == a[..i][1..] && b[1..][..i - 1] == b[..i][1..];
          assert a[1..][i - 1] < b[1..][i - 1];
        }
      }
    }
  }

  /** Big-endian strings of one width compare like the numbers they hold. */
  lemma {:induction false} BigEndianOrder(a: seq<Byte>, b: seq<Byte>)
    requires |a| == |b|
    ensures LexLess(a, b) <==> Decode(Big, a) < Decode(Big, b)
  {
    if a != [] {
      var p := Pow256(|a| - 1);
      BigEndianOrder(a[1..], b[1..]);
      HighDigit(a);
      HighDigit(b);
      if a[0] < b[0] {
        MulRoom(p, a[0], b[0]);
      } else if b[0] < a[0] {
        MulRoom(p, b[0], a[0]);
      }
    }
  }

  lemma HighDigit(a: seq<Byte>)
    requires a != []
    ensures Decode(Big, a) == Decode(Big, a[1..]) + Pow256(|a| - 1) * a[0]
    ensures Decode(Big, a[1..]) < Pow256(|a| - 1)
  {
    assert a == [a[0]] + a[1..];
    ReverseConcat([a[0]], a[1..]);
    assert Reverse([a[0]]) == [a[0]];
    ValueConcat(Reverse(a[1..]), [a[0]]);
    ValueBound(Reverse(a[1..]));
    assert Value([a[0]]) == a[0];
  }
}
