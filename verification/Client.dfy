/** Callers that thread the returned cursor through the twelve functions. */
module Client {
  import opened Arithmetic
  import opened Positional
  import opened Platform
  import opened Memory
  import opened ByteOrder
  import opened Records
  import opened Overwrites
  import opened Machine

  /** Store one field with the function for its shape. */
  method StoreField(b: Build, mem: array<Byte>, out: nat, f: Field) returns (next: nat)
    requires f.Valid() && out + f.shape.width <= mem.Length
    modifies mem
    ensures Stored(b, f.shape.order, f.shape.width, old(mem[..]), out, f.value, mem[..], next)
  {
    Pow256Values();
    match f.shape.order
    case Little =>
      if f.shape.width == 2 { next := StoreU16Le(b, mem, out, f.value); }
      else if f.shape.width == 4 { next := StoreU32Le(b, mem, out, f.value); }
      else { next := StoreU64Le(b, mem, out, f.value); }
    case Big =>
      if f.shape.width == 2 { next := StoreU16Be(b, mem, out, f.value); }
      else if f.shape.width == 4 { next := StoreU32Be(b, mem, out, f.value); }
      else { next := StoreU64Be(b, mem, out, f.value); }
  }

  /** Load one field with the function for its shape, into the integer at `val`. */
  method LoadField(b: Build, mem: array<Byte>, val: nat, src: nat, s: Shape) returns (next: nat)
    requires val + s.width <= mem.Length && src + s.width <= mem.Length
    modifies mem
    ensures Loaded(b, s.order, s.width, old(mem[..]), val, src, mem[..], next)
  {
    match s.order
    case Little =>
      if s.width == 2 { next := LoadU16Le(b, mem, val, src); }
      else if s.width == 4 { next := LoadU32Le(b, mem, val, src); }
      else { next := LoadU64Le(b, mem, val, src); }
    case Big =>
      if s.width == 2 { next := LoadU16Be(b, mem, val, src); }
      else if s.width == 4 { next := LoadU32Be(b, mem, val, src); }
      else { next := LoadU64Be(b, mem, val, src); }
  }

  /** A record written from `out` on: its bytes, nothing else, and the cursor behind them. */
  method StoreRecord(b: Build, mem: array<Byte>, out: nat, fs: seq<Field>) returns (next: nat)
    requires AllValid(fs) && out + TotalWidth(Shapes(fs)) <= mem.Length
    modifies mem
    ensures mem[..] == Splice(old(mem[..]), out, EncodeRecord(b, fs))
    ensures next == out + TotalWidth(Shapes(fs))
    decreases |fs|
  {
    if fs == [] { return out; }
    ghost var before := mem[..];
    next := StoreField(b, mem, out, fs[0]);
    next := StoreRecord(b, mem, next, fs[1..]);
    SpliceConcat(before, out, fs[0].Bytes(b), EncodeRecord(b, fs[1..]));
  }

  /** Load one field and read the integer it was loaded into. */
  method LoadValue(b: Build, mem: array<Byte>, slot: nat, src: nat, s: Shape) returns (v: nat, next: nat)
    requires slot + s.width <= mem.Length && src + s.width <= mem.Length
    modifies mem
    ensures Loaded(b, s.order, s.width, old(mem[..]), slot, src, mem[..], next)
    ensures v == b.Unwire(s.order, old(mem[src..src + s.width]))
    ensures next == src + s.width
    ensures forall i :: 0 <= i < mem.Length && !(slot <= i < slot + s.width) ==> mem[i] == old(mem[i])
  {
    ghost var before := mem[..];
    assert before[src..src + s.width] == mem[src..src + s.width];
    next := LoadField(b, mem, slot, src, s);
    LoadedValue(b, s.order, s.width, before, slot, src, mem[..], next);
    v := Decode(b.host, mem[slot..slot + s.width]);
    assert mem[..][slot..slot + s.width] == mem[slot..slot + s.width];
    assert forall i :: 0 <= i < mem.Length ==> mem[i] == mem[..][i];
  }

  /** A record read from `src` on through one local integer at `slot`, which must not lie in the record. */
  method LoadRecord(b: Build, mem: array<Byte>, slot: nat, src: nat, ss: seq<Shape>) returns (vs: seq<nat>, next: nat)
    requires slot + MaxWidth(ss) <= mem.Length && src + TotalWidth(ss) <= mem.Length
    requires slot + MaxWidth(ss) <= src || src + TotalWidth(ss) <= slot
    modifies mem
    ensures vs == DecodeRecord(b, ss, old(mem[src..src + TotalWidth(ss)]))
    ensures next == src + TotalWidth(ss)
    ensures forall i :: 0 <= i < mem.Length && !(slot <= i < slot + MaxWidth(ss)) ==> mem[i] == old(mem[i])
    decreases |ss|
  {
    hide Digits, Value, MaxWidth, Loaded;
    if ss == [] { return [], src; }
    MaxWidthRest(ss);
    ghost var before := mem[..];
    var v;
    v, next := LoadValue(b, mem, slot, src, ss[0]);
    DecodeStep(b, ss, before, mem[..], src);
    vs, next := LoadRecord(b, mem, slot, next, ss[1..]);
    vs := [v] + vs;
  }

  /** Taking the first field off a record in memory, the rest of which did not change. */
  lemma DecodeStep(b: Build, ss: seq<Shape>, before: seq<Byte>, after: seq<Byte>, src: nat)
    requires ss != [] && src + TotalWidth(ss) <= |before| == |after|
    requires forall i :: src + ss[0].width <= i < src + TotalWidth(ss) ==> after[i] == before[i]
    ensures var next := src + ss[0].width;
      DecodeRecord(b, ss, before[src..src + TotalWidth(ss)])
        == [b.Unwire(ss[0].order, before[src..next])]
          + DecodeRecord(b, ss[1..], after[next..next + TotalWidth(ss[1..])])
  {
    var w, end := ss[0].width, src + TotalWidth(ss);
    assert before[src..end][..w] == before[src..src + w];
    assert before[src..end][w..] == after[src + w..end];
  }

  /** One build writes a record into shared memory and another reads it. */
  method Exchange(writer: Build, reader: Build, mem: array<Byte>, at: nat, slot: nat, fs: seq<Field>)
      returns (vs: seq<nat>, written: nat, read: nat)
    requires AllValid(fs)
    requires slot + MaxWidth(Shapes(fs)) <= mem.Length && at + TotalWidth(Shapes(fs)) <= mem.Length
    requires slot + MaxWidth(Shapes(fs)) <= at || at + TotalWidth(Shapes(fs)) <= slot
    modifies mem
    ensures vs == Values(fs)
      <==> (writer.Faithful() <==> reader.Faithful()) || forall f :: f in fs ==> f.Symmetric()
    ensures vs == DecodeRecord(reader, Shapes(fs), EncodeRecord(writer, fs))
    ensures written == read == at + TotalWidth(Shapes(fs))
    ensures mem[at..written] == EncodeRecord(writer, fs)
    ensures forall i :: 0 <= i < mem.Length && !(at <= i < written) && !(slot <= i < slot + MaxWidth(Shapes(fs))) ==>
      mem[i] == old(mem[i])
  {
    hide Digits, Value, EncodeRecord, DecodeRecord, Shapes, TotalWidth, MaxWidth;
    written := StoreRecord(writer, mem, at, fs);
    ghost var bytes := EncodeRecord(writer, fs);
    assert mem[at..written] == bytes;
    vs, read := LoadRecord(reader, mem, slot, at, Shapes(fs));
    assert forall i :: 0 <= i < |bytes| ==> mem[at + i] == bytes[i];
    RecordAcrossBuilds(writer, reader, fs);
  }

  /** Any run of the twelve functions leaves the memory that `Exec` describes. */
  method RunCalls(b: Build, mem: array<Byte>, calls: seq<Call>)
    requires AllInBounds(calls, mem.Length)
    modifies mem
    ensures mem[..] == Exec(b, old(mem[..]), calls)
    decreases |calls|
  {
    if calls == [] { return; }
    assert calls[0].InBounds(mem.Length);
    match calls[0] {
      case Store(out, f) => var _ := StoreField(b, mem, out, f);
      case Load(s, val, src) => var _ := LoadField(b, mem, val, src, s);
    }
    RunCalls(b, mem, calls[1..]);
  }

  /** Runs the calls, then looks for the value of call `k` where it wrote: by a load, or by reading the integer. */
  method RunAndFind(b: Build, mem: array<Byte>, calls: seq<Call>, k: nat, slot: nat) returns (v: nat)
    requires AllInBounds(calls, mem.Length) && k < |calls| && slot + 8 <= mem.Length
    modifies mem
    ensures v == FoundAfter(b, Exec(b, old(mem[..]), calls), calls[k])
    ensures v == Transferred(b, Exec(b, old(mem[..]), calls[..k]), calls[k])
      <==> Intact(Trace(b, old(mem[..]), calls), k)
  {
    hide Digits, Value, Exec, Trace, Intact;
    ghost var before := mem[..];
    RunCalls(b, mem, calls);
    ghost var after := mem[..];
    assert calls[k].InBounds(|after|);
    FoundAfterRunIff(b, before, calls, k);
    match calls[k] {
      case Store(out, f) =>
        assert after[out..out + f.shape.width] == mem[out..out + f.shape.width];
        var next;
        v, next := LoadValue(b, mem, slot, out, f.shape);
      case Load(s, val, _) =>
        assert after[val..val + s.width] == mem[val..val + s.width];
        v := Decode(b.host, mem[val..val + s.width]);
    }
  }
}
