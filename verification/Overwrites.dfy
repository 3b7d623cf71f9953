/** Runs of stores at arbitrary, possibly overlapping places of one memory. */
module Overwrites {
  import opened Positional
  import opened Memory

  /** One store: `bytes` at offset `at`. */
  datatype Write = Write(at: nat, bytes: seq<Byte>) {
    predicate Fits(n: nat) { at + |bytes| <= n }

    predicate Covers(p: nat) { at <= p < at + |bytes| }

    function ByteAt(p: nat): Byte
      requires Covers(p)
    {
      bytes[p - at]
    }
  }

  predicate AllFit(ws: seq<Write>, n: nat) {
    forall w :: w in ws ==> w.Fits(n)
  }

  /** Memory after one store. */
  function Put(m: seq<Byte>, w: Write): (r: seq<Byte>)
    requires w.Fits(|m|)
    ensures |r| == |m|
    ensures forall p: nat :: p < |m| ==> r[p] == if w.Covers(p) then w.ByteAt(p) else m[p]
  {
    Splice(m, w.at, w.bytes)
  }

  /** Memory after the stores `ws`, in order. */
  function Run(m: seq<Byte>, ws: seq<Write>): (r: seq<Byte>)
    requires AllFit(ws, |m|)
    ensures |r| == |m|
    decreases ws
  {
    if ws == [] then m
    else
      assert ws[0] in ws && forall w :: w in ws[1..] ==> w in ws;
      Run(Put(m, ws[0]), ws[1..])
  }

  /** No store of `ws` from index `k` on touches byte `p`. */
  ghost predicate Quiet(ws: seq<Write>, k: nat, p: nat) {
    forall j :: k <= j < |ws| ==> !ws[j].Covers(p)
  }

  /** Store `k` is the latest one to touch byte `p`. */
  ghost predicate Latest(ws: seq<Write>, k: nat, p: nat) {
    k < |ws| && ws[k].Covers(p) && Quiet(ws, k + 1, p)
  }

  lemma {:induction false} LatestExists(ws: seq<Write>, k: nat, p: nat) returns (j: nat)
    requires k < |ws| && ws[k].Covers(p)
    ensures k <= j && Latest(ws, j, p)
    decreases |ws| - k
  {
    if Quiet(ws, k + 1, p) {
      j := k;
    } else {
      var i :| k + 1 <= i < |ws| && ws[i].Covers(p);
      j := LatestExists(ws, i, p);
    }
  }

  lemma {:induction false} UntouchedByte(m: seq<Byte>, ws: seq<Write>, p: nat)
    requires AllFit(ws, |m|) && p < |m| && Quiet(ws, 0, p)
    ensures Run(m, ws)[p] == m[p]
    decreases ws
  {
    if ws != [] {
      assert ws[0] in ws && !ws[0].Covers(p);
      assert AllFit(ws[1..], |m|);
      UntouchedByte(Put(m, ws[0]), ws[1..], p);
    }
  }

  /** Every byte of the final memory comes from the latest store over it. */
  lemma {:induction false} LastWriterWins(m: seq<Byte>, ws: seq<Write>, k: nat, p: nat)
    requires AllFit(ws, |m|) && Latest(ws, k, p)
    ensures p < |m| && Run(m, ws)[p] == ws[k].ByteAt(p)
    decreases ws
  {
    assert ws[k] in ws && ws[0] in ws;
    assert AllFit(ws[1..], |m|);
    var m' := Put(m, ws[0]);
    if k == 0 {
      assert Quiet(ws[1..], 0, p) by {
        forall j | 0 <= j < |ws[1..]| ensures !ws[1..][j].Covers(p) { assert ws[1..][j] == ws[j + 1]; }
      }
      UntouchedByte(m', ws[1..], p);
    } else {
      assert Latest(ws[1..], k - 1, p) by {
        forall j | k <= j < |ws[1..]| ensures !ws[1..][j].Covers(p) { assert ws[1..][j] == ws[j + 1]; }
      }
      LastWriterWins(m', ws[1..], k - 1, p);
    }
  }

  ghost predicate Disjoint(u: Write, v: Write) {
    u.at + |u.bytes| <= v.at || v.at + |v.bytes| <= u.at
  }

  /** Non-empty writes are disjoint exactly if no byte is covered by both. */
  lemma DisjointIff(u: Write, v: Write)
    requires |u.bytes| > 0 && |v.bytes| > 0
    ensures Disjoint(u, v) <==> forall p: nat :: !(u.Covers(p) && v.Covers(p))
  {
    if !Disjoint(u, v) {
      var p := if u.at < v.at then v.at else u.at;
      assert u.Covers(p) && v.Covers(p);
    }
  }

  /** Over the bytes of store `k`, the latest writer always wrote what store `k` wrote. */
  ghost predicate Intact(ws: seq<Write>, k: nat)
    requires k < |ws|
  {
    forall p: nat, j: nat :: ws[k].Covers(p) && Latest(ws, j, p) ==> ws[j].ByteAt(p) == ws[k].ByteAt(p)
  }

  /** Memory `r` holds the bytes of `u` where `u` put them. */
  ghost predicate Holds(r: seq<Byte>, u: Write)
    requires u.Fits(|r|)
  {
    forall p: nat :: u.Covers(p) ==> r[p] == u.ByteAt(p)
  }

  lemma HoldsIsSlice(r: seq<Byte>, u: Write)
    requires u.Fits(|r|)
    ensures Holds(r, u) <==> r[u.at..u.at + |u.bytes|] == u.bytes
  {
    var got := r[u.at..u.at + |u.bytes|];
    if got == u.bytes {
      forall p: nat | u.Covers(p) ensures r[p] == u.ByteAt(p) {
        assert r[p] == got[p - u.at];
      }
    }
    if Holds(r, u) {
      forall i | 0 <= i < |u.bytes| ensures got[i] == u.bytes[i] {
        assert u.Covers(u.at + i);
      }
    }
  }

  /** The final memory still holds the bytes of store `k` exactly if they are intact. */
  lemma HeldIff(m: seq<Byte>, ws: seq<Write>, k: nat)
    requires AllFit(ws, |m|) && k < |ws|
    ensures ws[k].Fits(|m|)
    ensures Holds(Run(m, ws), ws[k]) <==> Intact(ws, k)
  {
    var u := ws[k];
    assert u in ws;
    if Intact(ws, k) {
      forall p: nat | u.Covers(p) ensures Run(m, ws)[p] == u.ByteAt(p) {
        var j := LatestExists(ws, k, p);
        LastWriterWins(m, ws, j, p);
      }
    } else {
      var p: nat, j: nat :| u.Covers(p) && Latest(ws, j, p) && ws[j].ByteAt(p) != u.ByteAt(p);
      LastWriterWins(m, ws, j, p);
    }
  }

  /** Bytes that no later store touched are intact. */
  lemma UntouchedIsIntact(ws: seq<Write>, k: nat)
    requires k < |ws|
    requires forall j :: k < j < |ws| ==> Disjoint(ws[j], ws[k])
    ensures Intact(ws, k)
  {
    forall p: nat, j: nat | ws[k].Covers(p) && Latest(ws, j, p)
      ensures ws[j].ByteAt(p) == ws[k].ByteAt(p)
    {
      assert j >= k;
    }
  }

  /** Two stores put the same byte wherever both of them write. */
  ghost predicate Agree(u: Write, v: Write) {
    forall p: nat :: u.Covers(p) && v.Covers(p) ==> u.ByteAt(p) == v.ByteAt(p)
  }

  /** If the stores of two runs are the same and agree pairwise, the runs end in the same memory. */
  lemma SameStoresSameMemory(m: seq<Byte>, us: seq<Write>, vs: seq<Write>)
    requires AllFit(us, |m|) && forall w :: w in us <==> w in vs
    requires forall u, v :: u in us && v in us ==> Agree(u, v)
    ensures AllFit(vs, |m|) && Run(m, us) == Run(m, vs)
  {
    forall p | 0 <= p < |m|
      ensures Run(m, us)[p] == Run(m, vs)[p]
    {
      if Quiet(us, 0, p) {
        forall j | 0 <= j < |vs| ensures !vs[j].Covers(p) {
          assert vs[j] in us;
        }
        UntouchedByte(m, us, p);
        UntouchedByte(m, vs, p);
      } else {
        var i :| 0 <= i < |us| && us[i].Covers(p);
        i := LatestExists(us, i, p);
        assert us[i] in vs;
        var j :| 0 <= j < |vs| && vs[j] == us[i];
        j := LatestExists(vs, j, p);
        assert vs[j] in us && Agree(us[i], vs[j]);
        LastWriterWins(m, us, i, p);
        LastWriterWins(m, vs, j, p);
      }
    }
  }

  /** Stores with pairwise disjoint ranges can run in any order. */
  lemma DisjointStoresCommute(m: seq<Byte>, us: seq<Write>, vs: seq<Write>)
    requires AllFit(us, |m|) && forall w :: w in us <==> w in vs
    requires forall i, j :: 0 <= i < j < |us| ==> Disjoint(us[i], us[j])
    ensures AllFit(vs, |m|) && Run(m, us) == Run(m, vs)
  {
    forall u, v | u in us && v in us ensures Agree(u, v) {
      var i :| 0 <= i < |us| && us[i] == u;
      var j :| 0 <= j < |us| && us[j] == v;
      assert i < j ==> Disjoint(us[i], us[j]);
      assert j < i ==> Disjoint(us[j], us[i]);
    }
    SameStoresSameMemory(m, us, vs);
  }

  ghost predicate CommuteOn(m: seq<Byte>, u: Write, v: Write)
    requires u.Fits(|m|) && v.Fits(|m|)
  {
    Put(Put(m, u), v) == Put(Put(m, v), u)
  }

  lemma AgreeingStoresCommute(m: seq<Byte>, u: Write, v: Write)
    requires u.Fits(|m|) && v.Fits(|m|) && Agree(u, v)
    ensures CommuteOn(m, u, v)
  {
    assert forall p: nat | p < |m| :: Put(Put(m, u), v)[p] == Put(Put(m, v), u)[p];
  }

  lemma DisagreeingStoresDiffer(m: seq<Byte>, u: Write, v: Write, p: nat)
    requires u.Fits(|m|) && v.Fits(|m|)
    requires u.Covers(p) && v.Covers(p) && u.ByteAt(p) != v.ByteAt(p)
    ensures !CommuteOn(m, u, v)
  {
    assert Put(Put(m, u), v)[p] == v.ByteAt(p);
    assert Put(Put(m, v), u)[p] == u.ByteAt(p);
  }

  ghost predicate AlwaysCommute(u: Write, v: Write, n: nat)
    requires u.Fits(n) && v.Fits(n)
  {
    forall m: seq<Byte> | |m| == n :: CommuteOn(m, u, v)
  }

  /** Two stores commute on every memory exactly if they agree wherever they overlap. */
  lemma CommuteIff(u: Write, v: Write, n: nat)
    requires u.Fits(n) && v.Fits(n)
    ensures AlwaysCommute(u, v, n) <==> Agree(u, v)
  {
    if Agree(u, v) {
      forall m: seq<Byte> | |m| == n ensures CommuteOn(m, u, v) {
        AgreeingStoresCommute(m, u, v);
      }
    } else {
      var p: nat :| u.Covers(p) && v.Covers(p) && u.ByteAt(p) != v.ByteAt(p);
      var m := Digits(n, 0);
      DisagreeingStoresDiffer(m, u, v, p);
    }
  }
}
