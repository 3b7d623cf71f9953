/**
  The twelve functions of byteorder.h over one flat byte memory. Pointers are
  offsets into it: `p` moves as `*out++` and `*in++` move, and a load writes its
  result through `val`, in the machine's own layout. Each body has the macro
  branch and the portable branch of the original.
 */
module ByteOrder {
  import opened Bits
  import opened Positional
  import opened ShiftMask
  import opened Platform
  import opened Memory

  type U16 = n: nat | n < 0x1_0000
  type U32 = n: nat | n < 0x1_0000_0000
  type U64 = n: nat | n < 0x1_0000_0000_0000_0000

  /** Assignment to a uint16_t of a value of the promoted type. */
  function ToU16(x: nat): (t: U16)
    ensures x < 0x1_0000 ==> t == x
  {
    x % 0x1_0000
  }

  /** The object representation of a local native integer holding `t`. */
  method NativeObject(host: Order, w: nat, t: nat) returns (obj: array<Byte>)
    ensures fresh(obj) && obj[..] == Encode(host, w, t)
  {
    var bs := Encode(host, w, t);
    obj := new Byte[w](i requires 0 <= i < w => bs[i]);
  }

  /** `*val = t` for a `w`-byte integer at offset `val`. */
  method Assign(host: Order, mem: array<Byte>, val: nat, w: nat, t: nat)
    requires val + w <= mem.Length
    modifies mem
    ensures mem[..] == Splice(old(mem[..]), val, Encode(host, w, t))
  {
    var obj := NativeObject(host, w, t);
    assert obj[0..w] == obj[..];
    Memcpy(mem, val, obj, 0, w);
  }

  /** A native integer filled by memcpy from memory. */
  method CopyIn(host: Order, mem: array<Byte>, src: nat, w: nat) returns (t: nat)
    requires src + w <= mem.Length
    ensures t == Decode(host, mem[src..src + w])
  {
    var obj := new Byte[w];
    Memcpy(obj, 0, mem, src, w);
    assert obj[..] == mem[src..src + w];
    t := Decode(host, obj[..]);
  }

  /** What a whole store does to memory. */
  ghost predicate Stored(b: Build, o: Order, w: Width,
      before: seq<Byte>, out: nat, v: nat, after: seq<Byte>, next: nat)
  {
    && out + w <= |before|
    && after == Splice(before, out, b.Wire(o, w, v))
    && next == out + w
  }

  /** What a whole load does: the source bytes are those before the call, wherever `val` points. */
  ghost predicate Loaded(b: Build, o: Order, w: Width,
      before: seq<Byte>, val: nat, src: nat, after: seq<Byte>, next: nat)
  {
    && val + w <= |before| && src + w <= |before|
    && after == Splice(before, val, Encode(b.host, w, b.Unwire(o, before[src..src + w])))
    && next == src + w
  }

  /** The integer then holds the value of the source bytes from before the call, even if the two overlap. */
  lemma LoadedValue(b: Build, o: Order, w: Width,
      before: seq<Byte>, val: nat, src: nat, after: seq<Byte>, next: nat)
    requires Loaded(b, o, w, before, val, src, after, next)
    ensures Decode(b.host, after[val..val + w]) == b.Unwire(o, before[src..src + w])
  {
    var bs := before[src..src + w];
    UnwireFits(b, o, bs);
    SpliceRead(before, val, Encode(b.host, w, b.Unwire(o, bs)));
  }

  method StoreU16Le(b: Build, mem: array<Byte>, out: nat, val: U16) returns (next: nat)
    requires out + 2 <= mem.Length
    modifies mem
    ensures Stored(b, Little, 2, old(mem[..]), out, val, mem[..], next)
    ensures b.Faithful() ==> mem[..] == Splice(old(mem[..]), out, Encode(Little, 2, val))
  {
    if b.Defined(HostTo(Little, 2)) {
      FastStoreWire(b, Little, 2, val);
      var t := NativeObject(b.host, 2, b.Expand(HostTo(Little, 2), val));
      assert t[0..2] == t[..];
      Memcpy(mem, out, t, 0, 2);
      return out + 2;
    } else {
      Extracted2(val);
      var p := out;
      mem[p], p := Low8(val), p + 1;
      mem[p], p := Low8(Shr(val, 8)), p + 1;
      return p;
    }
  }

  method StoreU16Be(b: Build, mem: array<Byte>, out: nat, val: U16) returns (next: nat)
    requires out + 2 <= mem.Length
    modifies mem
    ensures Stored(b, Big, 2, old(mem[..]), out, val, mem[..], next)
    ensures b.Faithful() ==> mem[..] == Splice(old(mem[..]), out, Encode(Big, 2, val))
  {
    if b.Defined(HostTo(Big, 2)) {
      FastStoreWire(b, Big, 2, val);
      var t := NativeObject(b.host, 2, b.Expand(HostTo(Big, 2), val));
      assert t[0..2] == t[..];
      Memcpy(mem, out, t, 0, 2);
      return out + 2;
    } else {
      Extracted2(val);
      var p := out;
      mem[p], p := Low8(Shr(val, 8)), p + 1;
      mem[p], p := Low8(val), p + 1;
      return p;
    }
  }

  method StoreU32Le(b: Build, mem: array<Byte>, out: nat, val: U32) returns (next: nat)
    requires out + 4 <= mem.Length
    modifies mem
    ensures Stored(b, Little, 4, old(mem[..]), out, val, mem[..], next)
    ensures b.Faithful() ==> mem[..] == Splice(old(mem[..]), out, Encode(Little, 4, val))
  {
    hide Shr, Digits;
    if b.Defined(HostTo(Little, 4)) {
      FastStoreWire(b, Little, 4, val);
      var t := NativeObject(b.host, 4, b.Expand(HostTo(Little, 4), val));
      assert t[0..4] == t[..];
      Memcpy(mem, out, t, 0, 4);
      return out + 4;
    } else {
      Extracted4(val);
      var p := out;
      mem[p], p := Low8(val), p + 1;
      mem[p], p := Low8(Shr(val, 8)), p + 1;
      mem[p], p := Low8(Shr(val, 16)), p + 1;
      mem[p], p := Low8(Shr(val, 24)), p + 1;
      return p;
    }
  }

  method StoreU32Be(b: Build, mem: array<Byte>, out: nat, val: U32) returns (next: nat)
    requires out + 4 <= mem.Length
    modifies mem
    ensures Stored(b, Big, 4, old(mem[..]), out, val, mem[..], next)
    ensures b.Faithful() ==> mem[..] == Splice(old(mem[..]), out, Encode(Big, 4, val))
  {
    hide Shr, Digits;
    if b.Defined(HostTo(Big, 4)) {
      FastStoreWire(b, Big, 4, val);
      var t := NativeObject(b.host, 4, b.Expand(HostTo(Big, 4), val));
      assert t[0..4] == t[..];
      Memcpy(mem, out, t, 0, 4);
      return out + 4;
    } else {
      Extracted4(val);
      var p := out;
      mem[p], p := Low8(Shr(val, 24)), p + 1;
      mem[p], p := Low8(Shr(val, 16)), p + 1;
      mem[p], p := Low8(Shr(val, 8)), p + 1;
      mem[p], p := Low8(val), p + 1;
      return p;
    }
  }

  method StoreU64Le(b: Build, mem: array<Byte>, out: nat, val: U64) returns (next: nat)
    requires out + 8 <= mem.Length
    modifies mem
    ensures Stored(b, Little, 8, old(mem[..]), out, val, mem[..], next)
    ensures b.Faithful() ==> mem[..] == Splice(old(mem[..]), out, Encode(Little, 8, val))
  {
    hide Shr, Digits;
    if b.Defined(HostTo(Little, 8)) {
      FastStoreWire(b, Little, 8, val);
      var t := NativeObject(b.host, 8, b.Expand(HostTo(Little, 8), val));
      assert t[0..8] == t[..];
      Memcpy(mem, out, t, 0, 8);
      return out + 8;
    } else {
      Extracted8(val);
      var p := out;
      mem[p], p := Low8(val), p + 1;
      mem[p], p := Low8(Shr(val, 8)), p + 1;
      mem[p], p := Low8(Shr(val, 16)), p + 1;
      mem[p], p := Low8(Shr(val, 24)), p + 1;
      mem[p], p := Low8(Shr(val, 32)), p + 1;
      mem[p], p := Low8(Shr(val, 40)), p + 1;
      mem[p], p := Low8(Shr(val, 48)), p + 1;
      mem[p], p := Low8(Shr(val, 56)), p + 1;
      return p;
    }
  }

  method StoreU64Be(b: Build, mem: array<Byte>, out: nat, val: U64) returns (next: nat)
    requires out + 8 <= mem.Length
    modifies mem
    ensures Stored(b, Big, 8, old(mem[..]), out, val, mem[..], next)
    ensures b.Faithful() ==> mem[..] == Splice(old(mem[..]), out, Encode(Big, 8, val))
  {
    hide Shr, Digits;
    if b.Defined(HostTo(Little, 8)) {
      FastStoreWire(b, Big, 8, val);
      var t := NativeObject(b.host, 8, b.Expand(HostTo(Big, 8), val));
      assert t[0..8] == t[..];
      Memcpy(mem, out, t, 0, 8);
      return out + 8;
    } else {
      Extracted8(val);
      var p := out;
      mem[p], p := Low8(Shr(val, 56)), p + 1;
      mem[p], p := Low8(Shr(val, 48)), p + 1;
      mem[p], p := Low8(Shr(val, 40)), p + 1;
      mem[p], p := Low8(Shr(val, 32)), p + 1;
      mem[p], p := Low8(Shr(val, 24)), p + 1;
      mem[p], p := Low8(Shr(val, 16)), p + 1;
      mem[p], p := Low8(Shr(val, 8)), p + 1;
      mem[p], p := Low8(val), p + 1;
      return p;
    }
  }

  method LoadU16Le(b: Build, mem: array<Byte>, val: nat, src: nat) returns (next: nat)
    requires val + 2 <= mem.Length && src + 2 <= mem.Length
    modifies mem
    ensures Loaded(b, Little, 2, old(mem[..]), val, src, mem[..], next)
    ensures b.Faithful() ==>
      mem[..] == Splice(old(mem[..]), val, Encode(b.host, 2, Decode(Little, old(mem[src..src + 2]))))
  {
    ghost var bytes := mem[src..src + 2];
    if b.Defined(ToHost(Little, 2)) {
      FastLoadUnwire(b, Little, 2, bytes);
      var t := CopyIn(b.host, mem, src, 2);
      Assign(b.host, mem, val, 2, b.Expand(ToHost(Little, 2), t));
      return src + 2;
    } else {
      var p := src;
      var b0 := mem[p]; p := p + 1;
      var b1 := mem[p]; p := p + 1;
      assert bytes == [b0, b1];
      Assembled2(32, [b0, b1]);
      Assign(b.host, mem, val, 2, ToU16(Or(b0, Shl(32, b1, 8))));
      return p;
    }
  }

  method LoadU16Be(b: Build, mem: array<Byte>, val: nat, src: nat) returns (next: nat)
    requires val + 2 <= mem.Length && src + 2 <= mem.Length
    modifies mem
    ensures Loaded(b, Big, 2, old(mem[..]), val, src, mem[..], next)
    ensures b.Faithful() ==>
      mem[..] == Splice(old(mem[..]), val, Encode(b.host, 2, Decode(Big, old(mem[src..src + 2]))))
  {
    ghost var bytes := mem[src..src + 2];
    if b.Defined(ToHost(Little, 2)) {
      FastLoadUnwire(b, Big, 2, bytes);
      var t := CopyIn(b.host, mem, src, 2);
      Assign(b.host, mem, val, 2, b.Expand(ToHost(Big, 2), t));
      return src + 2;
    } else {
      var p := src;
      var b1 := mem[p]; p := p + 1;
      var b0 := mem[p]; p := p + 1;
      assert Reverse(bytes) == [b0, b1];
      Assembled2(32, [b0, b1]);
      Assign(b.host, mem, val, 2, ToU16(Or(b0, Shl(32, b1, 8))));
      return p;
    }
  }

  method LoadU32Le(b: Build, mem: array<Byte>, val: nat, src: nat) returns (next: nat)
    requires val + 4 <= mem.Length && src + 4 <= mem.Length
    modifies mem
    ensures Loaded(b, Little, 4, old(mem[..]), val, src, mem[..], next)
    ensures b.Faithful() ==>
      mem[..] == Splice(old(mem[..]), val, Encode(b.host, 4, Decode(Little, old(mem[src..src + 4]))))
  {
    ghost var bytes := mem[src..src + 4];
    if b.Defined(ToHost(Little, 4)) {
      FastLoadUnwire(b, Little, 4, bytes);
      var t := CopyIn(b.host, mem, src, 4);
      Assign(b.host, mem, val, 4, b.Expand(ToHost(Little, 4), t));
      return src + 4;
    } else {
      var p := src;
      var b0 := mem[p]; p := p + 1;
      var b1 := mem[p]; p := p + 1;
      var b2 := mem[p]; p := p + 1;
      var b3 := mem[p]; p := p + 1;
      assert bytes == [b0, b1, b2, b3];
      Assembled4(32, [b0, b1, b2, b3]);
      Assign(b.host, mem, val, 4, Or(Or(Or(b0, Shl(32, b1, 8)), Shl(32, b2, 16)), Shl(32, b3, 24)));
      return p;
    }
  }

  method LoadU32Be(b: Build, mem: array<Byte>, val: nat, src: nat) returns (next: nat)
    requires val + 4 <= mem.Length && src + 4 <= mem.Length
    modifies mem
    ensures Loaded(b, Big, 4, old(mem[..]), val, src, mem[..], next)
    ensures b.Faithful() ==>
      mem[..] == Splice(old(mem[..]), val, Encode(b.host, 4, Decode(Big, old(mem[src..src + 4]))))
  {
    ghost var bytes := mem[src..src + 4];
    if b.Defined(ToHost(Little, 4)) {
      FastLoadUnwire(b, Big, 4, bytes);
      var t := CopyIn(b.host, mem, src, 4);
      Assign(b.host, mem, val, 4, b.Expand(ToHost(Big, 4), t));
      return src + 4;
    } else {
      var p := src;
      var b3 := mem[p]; p := p + 1;
      var b2 := mem[p]; p := p + 1;
      var b1 := mem[p]; p := p + 1;
      var b0 := mem[p]; p := p + 1;
      assert Reverse(bytes) == [b0, b1, b2, b3];
      Assembled4(32, [b0, b1, b2, b3]);
      Assign(b.host, mem, val, 4, Or(Or(Or(b0, Shl(32, b1, 8)), Shl(32, b2, 16)), Shl(32, b3, 24)));
      return p;
    }
  }

  method LoadU64Le(b: Build, mem: array<Byte>, val: nat, src: nat) returns (next: nat)
    requires val + 8 <= mem.Length && src + 8 <= mem.Length
    modifies mem
    ensures Loaded(b, Little, 8, old(mem[..]), val, src, mem[..], next)
    ensures b.Faithful() ==>
      mem[..] == Splice(old(mem[..]), val, Encode(b.host, 8, Decode(Little, old(mem[src..src + 8]))))
  {
    hide Or, Shl, Digits;
    ghost var bytes := mem[src..src + 8];
    if b.Defined(ToHost(Little, 8)) {
      FastLoadUnwire(b, Little, 8, bytes);
      var t := CopyIn(b.host, mem, src, 8);
      Assign(b.host, mem, val, 8, b.Expand(ToHost(Little, 8), t));
      return src + 8;
    } else {
      var p := src;
      var b0 := mem[p]; p := p + 1;
      var b1 := mem[p]; p := p + 1;
      var b2 := mem[p]; p := p + 1;
      var b3 := mem[p]; p := p + 1;
      var b4 := mem[p]; p := p + 1;
      var b5 := mem[p]; p := p + 1;
      var b6 := mem[p]; p := p + 1;
      var b7 := mem[p]; p := p + 1;
      assert bytes == [b0, b1, b2, b3, b4, b5, b6, b7];
      Assembled8(64, [b0, b1, b2, b3, b4, b5, b6, b7]);
      var low := Or(Or(Or(b0, Shl(64, b1, 8)), Shl(64, b2, 16)), Shl(64, b3, 24));
      var t := Or(Or(Or(Or(low, Shl(64, b4, 32)), Shl(64, b5, 40)), Shl(64, b6, 48)), Shl(64, b7, 56));
      Assign(b.host, mem, val, 8, t);
      return p;
    }
  }

  method LoadU64Be(b: Build, mem: array<Byte>, val: nat, src: nat) returns (next: nat)
    requires val + 8 <= mem.Length && src + 8 <= mem.Length
    modifies mem
    ensures Loaded(b, Big, 8, old(mem[..]), val, src, mem[..], next)
    ensures b.Faithful() ==>
      mem[..] == Splice(old(mem[..]), val, Encode(b.host, 8, Decode(Big, old(mem[src..src + 8]))))
  {
    hide Or, Shl, Digits;
    ghost var bytes := mem[src..src + 8];
    if b.Defined(ToHost(Little, 8)) {
      FastLoadUnwire(b, Big, 8, bytes);
      var t := CopyIn(b.host, mem, src, 8);
      Assign(b.host, mem, val, 8, b.Expand(ToHost(Big, 8), t));
      return src + 8;
    } else {
      var p := src;
      var b7 := mem[p]; p := p + 1;
      var b6 := mem[p]; p := p + 1;
      var b5 := mem[p]; p := p + 1;
      var b4 := mem[p]; p := p + 1;
      var b3 := mem[p]; p := p + 1;
      var b2 := mem[p]; p := p + 1;
      var b1 := mem[p]; p := p + 1;
      var b0 := mem[p]; p := p + 1;
      assert Reverse(bytes) == [b0, b1, b2, b3, b4, b5, b6, b7];
      Assembled8(64, [b0, b1, b2, b3, b4, b5, b6, b7]);
      var low := Or(Or(Or(b0, Shl(64, b1, 8)), Shl(64, b2, 16)), Shl(64, b3, 24));
      var t := Or(Or(Or(Or(low, Shl(64, b4, 32)), Shl(64, b5, 40)), Shl(64, b6, 48)), Shl(64, b7, 56));
      Assign(b.host, mem, val, 8, t);
      return p;
    }
  }
}
