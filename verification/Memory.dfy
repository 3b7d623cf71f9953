/** Byte memory seen as a sequence, and the copying that C's memcpy does. */
module Memory {
  import opened Positional

  /** Memory `m` with `bs` written at offset `p`. */
  function Splice(m: seq<Byte>, p: nat, bs: seq<Byte>): (r: seq<Byte>)
    requires p + |bs| <= |m|
    ensures |r| == |m|
    ensures forall i :: 0 <= i < |m| ==> r[i] == if p <= i < p + |bs| then bs[i - p] else m[i]
  {
    m[..p] + bs + m[p + |bs|..]
  }

  /** Writing two strings one after the other is writing their concatenation. */
  lemma SpliceConcat(m: seq<Byte>, p: nat, a: seq<Byte>, b: seq<Byte>)
    requires p + |a| + |b| <= |m|
    ensures Splice(Splice(m, p, a), p + |a|, b) == Splice(m, p, a + b)
  {
  }

  lemma SpliceRead(m: seq<Byte>, p: nat, bs: seq<Byte>)
    requires p + |bs| <= |m|
    ensures Splice(m, p, bs)[p..p + |bs|] == bs
  {
  }

  lemma SpliceElsewhere(m: seq<Byte>, p: nat, bs: seq<Byte>, i: nat, j: nat)
    requires p + |bs| <= |m| && i <= j <= |m|
    requires j <= p || p + |bs| <= i
    ensures Splice(m, p, bs)[i..j] == m[i..j]
  {
  }

  /** memcpy between distinct objects. */
  method Memcpy(dst: array<Byte>, d: nat, src: array<Byte>, s: nat, n: nat)
    requires dst != src
    requires d + n <= dst.Length && s + n <= src.Length
    modifies dst
    ensures dst[..] == Splice(old(dst[..]), d, src[s..s + n])
  {
    forall k | 0 <= k < n {
      dst[d + k] := src[s + k];
    }
  }
}
