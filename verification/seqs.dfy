/** Fixed-width chunking of sequences: the shape shared by a file of
    groups, a group of records, a payload of rows and a row of words. */
module Seqs {

  /** The length of `n` pieces of width `w` laid end to end. This is
      `n * w` (see `TimesIsMul`), written as a sum of `n` widths so that
      each step of a scan adds one width. */
  function Times(n: nat, w: nat): nat {
    if n == 0 then 0 else Times(n - 1, w) + w
  }

  lemma {:induction false} TimesIsMul(n: nat, w: nat)
    ensures Times(n, w) == n * w
  {
    if n > 0 {
      TimesIsMul(n - 1, w);
      assert (n - 1) * w + w == n * w;
    }
  }

  /** Fewer pieces never take more room. */
  lemma {:induction false} TimesMono(a: nat, b: nat, w: nat)
    requires a <= b
    ensures Times(a, w) <= Times(b, w)
  {
    if a < b {
      TimesMono(a, b - 1, w);
    }
  }

  /** Every element of `cs` has length `w`. */
  predicate Uniform<T>(cs: seq<seq<T>>, w: nat) {
    forall i :: 0 <= i < |cs| ==> |cs[i]| == w
  }

  /** The elements of `cs` laid end to end. */
  function Concat<T>(cs: seq<seq<T>>): seq<T> {
    if cs == [] then [] else cs[0] + Concat(cs[1..])
  }

  /** Splits `s` into `n` consecutive pieces of width `w`. */
  function Chunks<T>(s: seq<T>, w: nat, n: nat): (cs: seq<seq<T>>)
    requires |s| == Times(n, w)
    ensures |cs| == n && Uniform(cs, w)
  {
    if n == 0 then [] else [s[..w]] + Chunks(s[w..], w, n - 1)
  }

  lemma {:induction false} ConcatLength<T>(cs: seq<seq<T>>, w: nat)
    requires Uniform(cs, w)
    ensures |Concat(cs)| == Times(|cs|, w)
  {
    if cs != [] {
      ConcatLength(cs[1..], w);
    }
  }

  /** Cutting into chunks and gluing them back gives the original sequence. */
  lemma {:induction false} ConcatChunks<T>(s: seq<T>, w: nat, n: nat)
    requires |s| == Times(n, w)
    ensures Concat(Chunks(s, w, n)) == s
  {
    if n > 0 {
      var rest := s[w..];
      ConcatChunks(rest, w, n - 1);
      var cs := Chunks(s, w, n);
      assert cs[0] == s[..w] && cs[1..] == Chunks(rest, w, n - 1);
      assert s == s[..w] + rest;
    }
  }

  /** Gluing pieces of width `w` and cutting again gives the same pieces. */
  lemma {:induction false} ChunksConcat<T>(cs: seq<seq<T>>, w: nat)
    requires Uniform(cs, w)
    ensures |Concat(cs)| == Times(|cs|, w)
    ensures Chunks(Concat(cs), w, |cs|) == cs
  {
    ConcatLength(cs, w);
    if cs != [] {
      ChunksConcat(cs[1..], w);
      var s := Concat(cs);
      assert s[..w] == cs[0];
      assert s[w..] == Concat(cs[1..]);
    }
  }

  /** The `i`-th chunk is the `w` elements starting at `Times(i, w)`. */
  lemma {:induction false} ChunkAt<T>(s: seq<T>, w: nat, n: nat, i: nat)
    requires |s| == Times(n, w) && i < n
    ensures Times(i, w) + w <= |s|
    ensures Chunks(s, w, n)[i] == s[Times(i, w)..Times(i, w) + w]
  {
    if i > 0 {
      var rest := s[w..];
      var o := Times(i - 1, w);
      ChunkAt(rest, w, n - 1, i - 1);
      assert Chunks(s, w, n)[i] == Chunks(rest, w, n - 1)[i - 1];
      SliceOfSlice(s, w, |s|, o, o + w);
      assert Times(i, w) == w + o;
    }
  }

  lemma SliceOfSlice<T>(s: seq<T>, a: nat, b: nat, c: nat, d: nat)
    requires a <= b <= |s| && c <= d <= b - a
    ensures s[a..b][c..d] == s[a + c..a + d]
  {
    forall k | 0 <= k < d - c ensures s[a..b][c..d][k] == s[a + c..a + d][k] {
      assert s[a..b][c..d][k] == s[a..b][c + k] == s[a + c + k];
    }
  }
}
