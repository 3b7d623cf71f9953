/**
  The platform section of byteorder.h: which macros a compilation defines, what
  each expands to, and how a native integer lies in memory.
 */
module Platform {
  import opened Arithmetic
  import opened Positional

  datatype Option<+T> = None | Some(value: T)

  /** Byte counts of the three integer types. */
  type Width = w: nat | w == 2 || w == 4 || w == 8 witness 2

  /** The predefined macros that the section tests. */
  datatype Predefined = Predefined(
    mscVer: Option<nat>,
    glibc: Option<(nat, nat)>,
    glibcPrereq: bool,
    defaultSource: bool,
    freeBsd: bool,
    netBsd: bool,
    openBsd: bool,
    apple: bool)

  datatype Section = Msvc | GlibcEndian | BsdEndian | AppleByteOrder | NoMacros

  /** __GLIBC_PREREQ(2, 19) */
  predicate GlibcHasEndian(version: (nat, nat)): (r: bool)
    ensures version.1 < 0x1_0000 ==> (r <==> version.0 > 2 || (version.0 == 2 && version.1 >= 19))
  {
    version.0 * 0x1_0000 + version.1 >= 2 * 0x1_0000 + 19
  }

  /** The branch taken. An old glibc stops the search without defining anything. */
  function Select(p: Predefined): (s: Section)
    ensures s.Msvc? <==> p.mscVer.Some? && p.mscVer.value >= 1300
    ensures s.GlibcEndian? <==>
      !s.Msvc? && p.glibc.Some? && p.glibcPrereq && GlibcHasEndian(p.glibc.value) && p.defaultSource
    ensures s.BsdEndian? <==>
      !s.Msvc? && !(p.glibc.Some? && p.glibcPrereq) && (p.freeBsd || p.netBsd || p.openBsd)
    ensures s.AppleByteOrder? <==>
      !s.Msvc? && !(p.glibc.Some? && p.glibcPrereq) && !p.freeBsd && !p.netBsd && !p.openBsd && p.apple
    ensures s.NoMacros? <==>
      && !s.Msvc?
      && (p.glibc.Some? && p.glibcPrereq ==> !GlibcHasEndian(p.glibc.value) || !p.defaultSource)
      && ((p.freeBsd || p.netBsd || p.openBsd || p.apple) ==> p.glibc.Some? && p.glibcPrereq)
  {
    if p.mscVer.Some? && p.mscVer.value >= 1300 then Msvc
    else if p.glibc.Some? && p.glibcPrereq then
      if GlibcHasEndian(p.glibc.value) && p.defaultSource then GlibcEndian else NoMacros
    else if p.freeBsd || p.netBsd || p.openBsd then BsdEndian
    else if p.apple then AppleByteOrder
    else NoMacros
  }

  /** OSSL_HTOLE16 is HostTo(Little, 2), OSSL_BE64TOH is ToHost(Big, 8), and so on. */
  datatype Macro = HostTo(order: Order, width: Width) | ToHost(order: Order, width: Width)

  /** What a macro does to its argument. */
  datatype Expansion = Identity | Swap | SwapUnlessHost(order: Order)

  function Define(s: Section, m: Macro): Option<Expansion> {
    match s
    case NoMacros => None
    case Msvc => Some(if m.order.Big? then Swap else Identity)
    case _ => Some(SwapUnlessHost(m.order))
  }

  /** The order a function's name announces, or for an unfaithful build the other one. */
  function Actual(faithful: bool, o: Order): Order {
    if faithful then o else o.Flip()
  }

  /** One compilation: predefined macros and the byte order of the machine. */
  datatype Build = Build(predefined: Predefined, host: Order) {

    /** The macros come all together or not at all, so a guard on one of them vouches for every other. */
    predicate Defined(m: Macro): (r: bool)
      ensures r <==> !Select(predefined).NoMacros?
    {
      Define(Select(predefined), m).Some?
    }

    /** The value of the macro call `m(x)`. */
    function Expand(m: Macro, x: nat): nat
      requires Defined(m)
    {
      match Define(Select(predefined), m).value
      case Identity => x
      case Swap => ByteSwap(m.width, x)
      case SwapUnlessHost(o) => if host == o then x else ByteSwap(m.width, x)
    }

    /** MSVC's macros assume a little-endian machine; the others ask the machine. */
    predicate Faithful(): (r: bool)
      ensures !r <==> predefined.mscVer.Some? && predefined.mscVer.value >= 1300 && host.Big?
    {
      Select(predefined).Msvc? ==> host.Little?
    }

    /** The byte order that a function named for order `o` really produces and consumes. */
    function WireOrder(o: Order): Order {
      Actual(Faithful(), o)
    }

    /** The bytes that a store of `v` leaves behind. */
    function Wire(o: Order, w: nat, v: nat): (bs: seq<Byte>)
      ensures |bs| == w
    {
      Encode(WireOrder(o), w, v)
    }

    /** The value that a load makes of bytes `bs`. */
    function Unwire(o: Order, bs: seq<Byte>): nat {
      Decode(WireOrder(o), bs)
    }
  }

  /** Reverses the bytes of a `w`-byte integer. */
  function ByteSwap(w: nat, x: nat): nat {
    Value(Reverse(Digits(w, x)))
  }

  /** Laying out a swapped integer is laying it out in the other order. */
  lemma SwapThenStore(host: Order, w: nat, x: nat)
    ensures Encode(host, w, ByteSwap(w, x)) == Encode(host.Flip(), w, x)
    ensures ByteSwap(w, x) < Pow256(w)
  {
    DigitsValue(Reverse(Digits(w, x)));
    ValueBound(Reverse(Digits(w, x)));
    ReverseReverse(Digits(w, x));
  }

  /** Swapping what was read is reading in the other order. */
  lemma LoadThenSwap(host: Order, bs: seq<Byte>)
    ensures ByteSwap(|bs|, Decode(host, bs)) == Decode(host.Flip(), bs)
  {
    DigitsValue(if host.Little? then bs else Reverse(bs));
    ReverseReverse(bs);
  }

  /** A number is its own byte swap exactly if its digits read the same both ways. */
  lemma OwnByteSwapIff(w: nat, x: nat)
    requires x < Pow256(w)
    ensures ByteSwap(w, x) == x <==> Reverse(Digits(w, x)) == Digits(w, x)
  {
    DigitsValue(Reverse(Digits(w, x)));
    DecodeEncode(Little, w, x);
  }

  lemma ByteSwapTwice(w: nat, x: nat)
    requires x < Pow256(w)
    ensures ByteSwap(w, ByteSwap(w, x)) == x
  {
    DecodeEncode(Little, w, x);
    LoadThenSwap(Big, Digits(w, x));
  }

  /** A macro and its partner undo each other, in either direction, on every machine. */
  lemma MacrosInvert(b: Build, o: Order, w: Width, x: nat)
    requires b.Defined(HostTo(o, w)) && x < Pow256(w)
    ensures b.Expand(HostTo(o, w), x) < Pow256(w)
    ensures b.Expand(ToHost(o, w), b.Expand(HostTo(o, w), x)) == x
    ensures b.Expand(HostTo(o, w), b.Expand(ToHost(o, w), x)) == x
  {
    var e := Define(Select(b.predefined), HostTo(o, w)).value;
    assert e == Define(Select(b.predefined), ToHost(o, w)).value;
    SwapThenStore(b.host, w, x);
    ByteSwapTwice(w, x);
  }

  /** Fast store: expand the macro, then copy the native integer's own bytes. */
  lemma FastStoreWire(b: Build, o: Order, w: Width, v: nat)
    requires b.Defined(HostTo(o, w))
    ensures Encode(b.host, w, b.Expand(HostTo(o, w), v)) == b.Wire(o, w, v)
  {
    SwapThenStore(b.host, w, v);
  }

  /** Fast load: copy the bytes into a native integer, then expand the macro. */
  lemma FastLoadUnwire(b: Build, o: Order, w: Width, bs: seq<Byte>)
    requires |bs| == w && b.Defined(ToHost(o, w))
    ensures b.Expand(ToHost(o, w), Decode(b.host, bs)) == b.Unwire(o, bs)
  {
    LoadThenSwap(b.host, bs);
  }

  /** A loaded value fits its integer, so writing it natively and reading it natively gives it back. */
  lemma UnwireFits(b: Build, o: Order, bs: seq<Byte>)
    ensures b.Unwire(o, bs) < Pow256(|bs|)
    ensures Decode(b.host, Encode(b.host, |bs|, b.Unwire(o, bs))) == b.Unwire(o, bs)
  {
    var v := b.Unwire(o, bs);
    EncodeDecode(b.WireOrder(o), bs);
    DecodeEncode(b.host, |bs|, v);
  }

  lemma {:induction false} ZeroDigits(w: nat, i: nat)
    requires i < w
    ensures Digits(w, 0)[i] == 0
  {
    if i > 0 { ZeroDigits(w - 1, i - 1); }
  }

  lemma OneDigits(w: nat)
    requires w >= 2
    ensures Digits(w, 1)[0] == 1 && Digits(w, 1)[w - 1] == 0
    ensures 1 < Pow256(w)
  {
    ZeroDigits(w - 1, w - 2);
    assert Digits(w, 1) == [1] + Digits(w - 1, 0);
    assert Pow256(w) == 256 * Pow256(w - 1);
  }

  /**
    Byte `i` of a store: the digit of weight 256^i if the function is named
    little-endian and the build is faithful, or neither; else counted from the
    other end.
   */
  lemma WireDigit(b: Build, o: Order, w: nat, v: nat, i: nat)
    requires i < w
    ensures b.Faithful() && o.Little? ==> b.Wire(o, w, v)[i] == v / Pow256(i) % 256
    ensures b.Faithful() && o.Big? ==> b.Wire(o, w, v)[w - 1 - i] == v / Pow256(i) % 256
    ensures !b.Faithful() && o.Little? ==> b.Wire(o, w, v)[w - 1 - i] == v / Pow256(i) % 256
    ensures !b.Faithful() && o.Big? ==> b.Wire(o, w, v)[i] == v / Pow256(i) % 256
  {
    DigitAt(w, v, i);
  }

  /** A load: the sum of byte i times 256^i, over the bytes as they lie or over their mirror image. */
  lemma UnwireSum(b: Build, o: Order, bs: seq<Byte>)
    ensures b.Faithful() && o.Little? ==> b.Unwire(o, bs) == PositionalSum(bs, |bs|)
    ensures b.Faithful() && o.Big? ==> b.Unwire(o, bs) == PositionalSum(Reverse(bs), |bs|)
    ensures !b.Faithful() && o.Little? ==> b.Unwire(o, bs) == PositionalSum(Reverse(bs), |bs|)
    ensures !b.Faithful() && o.Big? ==> b.Unwire(o, bs) == PositionalSum(bs, |bs|)
  {
    ValueIsPositionalSum(bs, |bs|);
    ValueIsPositionalSum(Reverse(bs), |bs|);
    assert bs[..|bs|] == bs && Reverse(bs)[..|bs|] == Reverse(bs);
  }

  /** 1 is a value that tells the two byte orders apart. */
  lemma OneIsAsymmetric(o: Order, w: nat)
    requires w >= 2
    ensures Encode(o, w, 1) != Encode(o.Flip(), w, 1)
    ensures Decode(o, Encode(o, w, 1)) == 1 != Decode(o.Flip(), Encode(o, w, 1))
    ensures 1 < Pow256(w)
  {
    OneDigits(w);
    var bs := Encode(o, w, 1);
    assert bs != Encode(o.Flip(), w, 1) by {
      assert Encode(Little, w, 1)[0] != Encode(Big, w, 1)[0];
    }
    DecodeEncode(o, w, 1);
    EncodeDecode(o.Flip(), bs);
  }

  /** Two builds store every value alike exactly if both or neither are faithful. */
  lemma StoresAgreeIff(a: Build, b: Build, o: Order, w: Width)
    ensures (forall v: nat | v < Pow256(w) :: a.Wire(o, w, v) == b.Wire(o, w, v))
      <==> (a.Faithful() <==> b.Faithful())
  {
    if a.Faithful() != b.Faithful() {
      OneIsAsymmetric(a.WireOrder(o), w);
      assert a.Wire(o, w, 1) != b.Wire(o, w, 1);
    }
  }

  /** Two builds load every string alike exactly if both or neither are faithful. */
  lemma LoadsAgreeIff(a: Build, b: Build, o: Order, w: Width)
    ensures (forall bs: seq<Byte> | |bs| == w :: a.Unwire(o, bs) == b.Unwire(o, bs))
      <==> (a.Faithful() <==> b.Faithful())
  {
    if a.Faithful() != b.Faithful() {
      var bs := a.Wire(o, w, 1);
      OneIsAsymmetric(a.WireOrder(o), w);
      assert a.Unwire(o, bs) != b.Unwire(o, bs);
    }
  }
}
