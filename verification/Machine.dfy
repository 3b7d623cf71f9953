/** Whole runs of the twelve functions over one memory, stores and loads in any order and at any place. */
module Machine {
  import opened Arithmetic
  import opened Positional
  import opened Platform
  import opened Records
  import opened Overwrites

  /** One call: a store of `field` at `out`, or a load from `src` into the integer at `val`. */
  datatype Call = Store(out: nat, field: Field) | Load(shape: Shape, val: nat, src: nat) {

    predicate InBounds(n: nat) {
      match this
      case Store(out, f) => f.Valid() && out + f.shape.width <= n
      case Load(s, val, src) => val + s.width <= n && src + s.width <= n
    }

    /** Where the call writes: from `Start`, `Width` bytes. */
    function Start(): nat {
      match this
      case Store(out, _) => out
      case Load(_, val, _) => val
    }

    function Width(): nat {
      match this
      case Store(_, f) => f.shape.width
      case Load(s, _, _) => s.width
    }

    predicate Writes(p: nat) { Start() <= p < Start() + Width() }

    predicate Reads(p: nat) { Load? && src <= p < src + shape.width }

    /** The two calls write to different bytes. */
    predicate Apart(that: Call) {
      Start() + Width() <= that.Start() || that.Start() + that.Width() <= Start()
    }

    /** What the call writes, given the memory it starts from. */
    function Effect(b: Build, m: seq<Byte>): (w: Write)
      requires InBounds(|m|)
      ensures w.Fits(|m|) && w.at == Start() && |w.bytes| == Width()
    {
      match this
      case Store(out, f) => Write(out, f.Bytes(b))
      case Load(s, val, src) => Write(val, Encode(b.host, s.width, b.Unwire(s.order, m[src..src + s.width])))
    }
  }

  /** Calls are apart exactly if they write no byte in common. */
  lemma ApartIff(c: Call, d: Call)
    ensures c.Apart(d) <==> forall p: nat :: !(c.Writes(p) && d.Writes(p))
  {
    if !c.Apart(d) {
      var p := if c.Start() < d.Start() then d.Start() else c.Start();
      assert c.Writes(p) && d.Writes(p);
    }
  }

  /** A call is in bounds exactly if its value fits and every byte it reads or writes lies in the memory. */
  lemma InBoundsIff(c: Call, n: nat)
    ensures c.InBounds(n) <==>
      && (c.Store? ==> c.field.value < Pow256(c.field.shape.width))
      && (forall p: nat :: c.Writes(p) || c.Reads(p) ==> p < n)
  {
    assert c.Writes(c.Start() + c.Width() - 1);
    assert c.Load? ==> c.Reads(c.src + c.shape.width - 1);
  }

  predicate AllInBounds(calls: seq<Call>, n: nat): (r: bool)
    ensures r <==> forall c :: c in calls ==> c.InBounds(n)
  {
    forall i :: 0 <= i < |calls| ==> calls[i].InBounds(n)
  }

  /** Memory after the calls, in order. */
  function Exec(b: Build, m: seq<Byte>, calls: seq<Call>): (r: seq<Byte>)
    requires AllInBounds(calls, |m|)
    ensures |r| == |m|
    decreases |calls|
  {
    if calls == [] then m else Exec(b, Put(m, calls[0].Effect(b, m)), calls[1..])
  }

  /** The writes that the run performs. */
  function Trace(b: Build, m: seq<Byte>, calls: seq<Call>): (ws: seq<Write>)
    requires AllInBounds(calls, |m|)
    ensures |ws| == |calls| && AllFit(ws, |m|)
    decreases |calls|
  {
    if calls == [] then []
    else
      var w := calls[0].Effect(b, m);
      [w] + Trace(b, Put(m, w), calls[1..])
  }

  lemma {:induction false} ExecIsRun(b: Build, m: seq<Byte>, calls: seq<Call>)
    requires AllInBounds(calls, |m|)
    ensures Exec(b, m, calls) == Run(m, Trace(b, m, calls))
    decreases |calls|
  {
    if calls != [] {
      ExecIsRun(b, Put(m, calls[0].Effect(b, m)), calls[1..]);
    }
  }

  /** Call `k` acts on the memory that the calls before it leave. */
  lemma {:induction false} TraceAt(b: Build, m: seq<Byte>, calls: seq<Call>, k: nat)
    requires AllInBounds(calls, |m|) && k < |calls|
    ensures Trace(b, m, calls)[k] == calls[k].Effect(b, Exec(b, m, calls[..k]))
    decreases k
  {
    if k > 0 {
      TraceAt(b, Put(m, calls[0].Effect(b, m)), calls[1..], k - 1);
      assert calls[..k][1..] == calls[1..][..k - 1];
    }
  }

  /** The value a call transfers: the one stored, or the one loaded from memory `m`. */
  function Transferred(b: Build, m: seq<Byte>, c: Call): nat
    requires c.InBounds(|m|)
  {
    match c
    case Store(_, f) => f.value
    case Load(s, _, src) => b.Unwire(s.order, m[src..src + s.width])
  }

  /** The value found where call `k` wrote: by loading it if a store wrote it, as a native integer if a load did. */
  function FoundAfter(b: Build, r: seq<Byte>, c: Call): nat
    requires c.InBounds(|r|)
  {
    match c
    case Store(out, f) => b.Unwire(f.shape.order, r[out..out + f.shape.width])
    case Load(s, val, _) => Decode(b.host, r[val..val + s.width])
  }

  /** A byte string of the right length decodes to a value that fits only if it encodes that value. */
  lemma DecodesToIff(o: Order, w: nat, v: nat, bs: seq<Byte>)
    requires |bs| == w && v < Pow256(w)
    ensures Decode(o, bs) == v <==> bs == Encode(o, w, v)
  {
    DecodeEncode(o, w, v);
    EncodeDecode(o, bs);
  }

  /** One call's value is found in a memory exactly if the memory holds what the call wrote. */
  lemma FoundIff(b: Build, before: seq<Byte>, c: Call, r: seq<Byte>)
    requires c.InBounds(|before|) && |r| == |before|
    ensures FoundAfter(b, r, c) == Transferred(b, before, c) <==> Holds(r, c.Effect(b, before))
  {
    hide Digits, Value;
    HoldsIsSlice(r, c.Effect(b, before));
    match c
    case Store(out, f) =>
      DecodesToIff(b.WireOrder(f.shape.order), f.shape.width, f.value, r[out..out + f.shape.width]);
    case Load(s, val, src) =>
      UnwireFits(b, s.order, before[src..src + s.width]);
      DecodesToIff(b.host, s.width, Transferred(b, before, c), r[val..val + s.width]);
  }

  /** After any run a call's value is still there exactly if the latest writers over its bytes left them as it did, */
  lemma FoundAfterRunIff(b: Build, m: seq<Byte>, calls: seq<Call>, k: nat)
    requires AllInBounds(calls, |m|) && k < |calls|
    ensures FoundAfter(b, Exec(b, m, calls), calls[k]) == Transferred(b, Exec(b, m, calls[..k]), calls[k])
      <==> Intact(Trace(b, m, calls), k)
  {
    var r := Exec(b, m, calls);
    FoundIff(b, Exec(b, m, calls[..k]), calls[k], r);
    assert Holds(r, Trace(b, m, calls)[k]) <==> Intact(Trace(b, m, calls), k) by {
      ExecIsRun(b, m, calls);
      HeldIff(m, Trace(b, m, calls), k);
    }
    TraceAt(b, m, calls, k);
  }

  /** in particular whenever no later call wrote over its bytes. */
  lemma FoundIfUntouched(b: Build, m: seq<Byte>, calls: seq<Call>, k: nat)
    requires AllInBounds(calls, |m|) && k < |calls|
    requires forall j :: k < j < |calls| ==> calls[j].Apart(calls[k])
    ensures FoundAfter(b, Exec(b, m, calls), calls[k]) == Transferred(b, Exec(b, m, calls[..k]), calls[k])
  {
    forall j | k < j < |calls|
      ensures Disjoint(Trace(b, m, calls)[j], Trace(b, m, calls)[k])
    {
      ApartIsDisjoint(b, m, calls, j, k);
    }
    UntouchedIsIntact(Trace(b, m, calls), k);
    FoundAfterRunIff(b, m, calls, k);
  }

  lemma ApartIsDisjoint(b: Build, m: seq<Byte>, calls: seq<Call>, i: nat, j: nat)
    requires AllInBounds(calls, |m|) && i < |calls| && j < |calls| && calls[i].Apart(calls[j])
    ensures Disjoint(Trace(b, m, calls)[i], Trace(b, m, calls)[j])
  {
    TraceAt(b, m, calls, i);
    TraceAt(b, m, calls, j);
  }

  /** Every byte a run leaves was written by the latest call over it, or was there before. */
  lemma LatestCallWins(b: Build, m: seq<Byte>, calls: seq<Call>, p: nat)
    requires AllInBounds(calls, |m|) && p < |m|
    ensures Quiet(Trace(b, m, calls), 0, p) || exists k: nat :: Latest(Trace(b, m, calls), k, p)
    ensures Quiet(Trace(b, m, calls), 0, p) ==> Exec(b, m, calls)[p] == m[p]
    ensures forall k: nat :: Latest(Trace(b, m, calls), k, p) ==>
      var w := calls[k].Effect(b, Exec(b, m, calls[..k]));
      w.Covers(p) && Exec(b, m, calls)[p] == w.ByteAt(p)
  {
    var ws := Trace(b, m, calls);
    ExecIsRun(b, m, calls);
    if Quiet(ws, 0, p) {
      UntouchedByte(m, ws, p);
    } else {
      var i :| 0 <= i < |ws| && ws[i].Covers(p);
      var k := LatestExists(ws, i, p);
    }
    forall k: nat | Latest(ws, k, p)
      ensures var w := calls[k].Effect(b, Exec(b, m, calls[..k]));
        w.Covers(p) && Exec(b, m, calls)[p] == w.ByteAt(p)
    {
      LastWriterWins(m, ws, k, p);
      TraceAt(b, m, calls, k);
    }
  }

  /** What a store writes does not depend on the memory it finds. */
  lemma StoreTrace(b: Build, m: seq<Byte>, calls: seq<Call>, i: nat)
    requires AllInBounds(calls, |m|) && (forall c :: c in calls ==> c.Store?) && i < |calls|
    ensures Trace(b, m, calls)[i] == Write(calls[i].out, calls[i].field.Bytes(b))
  {
    TraceAt(b, m, calls, i);
  }

  lemma SameStoresTraced(b: Build, m: seq<Byte>, cs: seq<Call>, ds: seq<Call>, w: Write)
    requires AllInBounds(cs, |m|) && (forall c :: c in cs ==> c.Store?)
    requires AllInBounds(ds, |m|) && (forall c :: c in ds ==> c.Store?)
    requires (forall c :: c in cs ==> c in ds) && w in Trace(b, m, cs)
    ensures w in Trace(b, m, ds)
  {
    var i :| 0 <= i < |cs| && Trace(b, m, cs)[i] == w;
    assert cs[i] in ds;
    var j :| 0 <= j < |ds| && ds[j] == cs[i];
    StoreTrace(b, m, cs, i);
    StoreTrace(b, m, ds, j);
    assert Trace(b, m, ds)[j] == w;
  }

  /** Stores of pairwise disjoint ranges leave the same memory in every order. */
  lemma StoresCommute(b: Build, m: seq<Byte>, cs: seq<Call>, ds: seq<Call>)
    requires AllInBounds(cs, |m|) && (forall c :: c in cs ==> c.Store?) && multiset(cs) == multiset(ds)
    requires forall i, j :: 0 <= i < j < |cs| ==> cs[i].Apart(cs[j])
    ensures AllInBounds(ds, |m|) && Exec(b, m, cs) == Exec(b, m, ds)
  {
    SameElements(cs, ds);
    forall i | 0 <= i < |ds| ensures ds[i].InBounds(|m|) && ds[i].Store? {
      assert ds[i] in cs;
    }
    var us, vs := Trace(b, m, cs), Trace(b, m, ds);
    forall w ensures w in us <==> w in vs {
      if w in us { SameStoresTraced(b, m, cs, ds, w); }
      if w in vs { SameStoresTraced(b, m, ds, cs, w); }
    }
    forall i, j | 0 <= i < j < |us| ensures Disjoint(us[i], us[j]) {
      ApartIsDisjoint(b, m, cs, i, j);
    }
    DisjointStoresCommute(m, us, vs);
    ExecIsRun(b, m, cs);
    ExecIsRun(b, m, ds);
  }

  lemma SameElements(cs: seq<Call>, ds: seq<Call>)
    requires multiset(cs) == multiset(ds)
    ensures forall c :: c in cs <==> c in ds
  {
    forall c ensures c in cs <==> c in ds {
      assert c in multiset(cs) <==> c in cs;
      assert c in multiset(ds) <==> c in ds;
    }
  }
}
