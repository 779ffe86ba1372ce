/** What the structured head decoder promises about a whole file: which
    keys it stores, which array wins, how many total times it returns,
    when it fails, and that it inverts the file layout. */
module HeadFileProps {
  import opened Bytes
  import opened Seqs
  import opened HeadRecord
  import opened HeadFile

  /** No two groups share a `(kper, kstp)` key. */
  predicate DistinctKeys(gs: seq<seq<HeadRecord>>)
    requires NonEmpty(gs)
  {
    forall i, j :: 0 <= i < j < |gs| ==> Key(gs[i]) != Key(gs[j])
  }

  /** Lays groups out one after another, each as its records in order. */
  function EncodeGroup(g: seq<HeadRecord>, nrow: nat, ncol: nat): seq<byte>
    requires forall i :: 0 <= i < |g| ==> WellFormed(g[i], nrow, ncol)
  {
    Concat(seq(|g|, i requires 0 <= i < |g| && WellFormed(g[i], nrow, ncol) => EncodeRecord(g[i])))
  }

  function EncodeFile(gs: seq<seq<HeadRecord>>, nlay: nat, nrow: nat, ncol: nat): seq<byte>
    requires forall i :: 0 <= i < |gs| ==> WellFormedGroup(gs[i], nlay, nrow, ncol)
  {
    Concat(seq(|gs|, i requires 0 <= i < |gs| && WellFormedGroup(gs[i], nlay, nrow, ncol) =>
                       EncodeGroup(gs[i], nrow, ncol)))
  }

  // ---------------------------------------------------------------------
  // The dictionary and the time list, over a list of groups
  // ---------------------------------------------------------------------

  /** The dictionary's keys are exactly the keys of the groups read. */
  lemma {:induction false} CollectKeys(gs: seq<seq<HeadRecord>>)
    requires NonEmpty(gs)
    ensures forall key :: key in Collect(gs) <==> exists i :: 0 <= i < |gs| && Key(gs[i]) == key
  {
    if gs != [] {
      var pre := gs[..|gs| - 1];
      var last := |gs| - 1;
      CollectKeys(pre);
      assert Collect(gs) == Collect(pre)[Key(gs[last]) := Layers(gs[last])];
      forall key | key in Collect(gs)
        ensures exists i :: 0 <= i < |gs| && Key(gs[i]) == key
      {
        if key != Key(gs[last]) {
          var i :| 0 <= i < |pre| && Key(pre[i]) == key;
          assert gs[i] == pre[i];
        }
      }
      forall key | exists i :: 0 <= i < |gs| && Key(gs[i]) == key
        ensures key in Collect(gs)
      {
        var i :| 0 <= i < |gs| && Key(gs[i]) == key;
        if i < last {
          assert pre[i] == gs[i];
        }
      }
    }
  }

  /** A key holds the array of the LAST group filed under it: a group whose
      key no later group repeats is the one stored. */
  lemma {:induction false} LastWins(gs: seq<seq<HeadRecord>>, i: nat)
    requires NonEmpty(gs) && i < |gs|
    requires forall j :: i < j < |gs| ==> Key(gs[j]) != Key(gs[i])
    ensures Key(gs[i]) in Collect(gs) && Collect(gs)[Key(gs[i])] == Layers(gs[i])
  {
    if i < |gs| - 1 {
      var pre := gs[..|gs| - 1];
      assert Key(gs[|gs| - 1]) != Key(gs[i]);
      assert pre[i] == gs[i];
      LastWins(pre, i);
    }
  }

  /** The dictionary has one entry per group exactly when no key repeats;
      otherwise it is strictly smaller than the time list. */
  lemma {:induction false} DistinctIffFull(gs: seq<seq<HeadRecord>>)
    requires NonEmpty(gs)
    ensures |Collect(gs)| <= |gs|
    ensures |Collect(gs)| == |gs| <==> DistinctKeys(gs)
  {
    if gs != [] {
      var pre := gs[..|gs| - 1];
      DistinctIffFull(pre);
      DistinctSnoc(gs);
    }
  }

  /** One more group keeps the keys distinct exactly when the earlier keys
      are distinct and the new key is not yet in the dictionary. */
  lemma DistinctSnoc(gs: seq<seq<HeadRecord>>)
    requires NonEmpty(gs) && gs != []
    ensures var pre := gs[..|gs| - 1];
            DistinctKeys(gs) <==> DistinctKeys(pre) && Key(gs[|gs| - 1]) !in Collect(pre)
  {
    var pre := gs[..|gs| - 1];
    if DistinctKeys(gs) {
      DistinctPrefix(gs);
      CollectKeys(pre);
    }
    if DistinctKeys(pre) && Key(gs[|gs| - 1]) !in Collect(pre) {
      DistinctExtend(gs);
    }
  }

  /** Distinct keys stay distinct in a prefix, and the last key is new. */
  lemma DistinctPrefix(gs: seq<seq<HeadRecord>>)
    requires NonEmpty(gs) && gs != [] && DistinctKeys(gs)
    ensures var pre := gs[..|gs| - 1];
            DistinctKeys(pre) && forall i :: 0 <= i < |pre| ==> Key(pre[i]) != Key(gs[|gs| - 1])
  {
    var pre := gs[..|gs| - 1];
    forall i | 0 <= i < |pre| ensures pre[i] == gs[i] {
    }
  }

  /** A new key after distinct keys keeps them distinct. */
  lemma DistinctExtend(gs: seq<seq<HeadRecord>>)
    requires NonEmpty(gs) && gs != []
    requires var pre := gs[..|gs| - 1];
             DistinctKeys(pre) && Key(gs[|gs| - 1]) !in Collect(pre)
    ensures DistinctKeys(gs)
  {
    var pre := gs[..|gs| - 1];
    var last := |gs| - 1;
    CollectKeys(pre);
    forall i, j | 0 <= i < j < |gs| ensures Key(gs[i]) != Key(gs[j]) {
      assert gs[i] == pre[i];
      if j < last {
        assert gs[j] == pre[j];
      } else {
        assert Key(pre[i]) in Collect(pre);
      }
    }
  }

  /** Only the first record's `kper`, `kstp` and `totim` and every record's
      payload reach the result: groups that agree on those decode alike,
      whatever their `pertim`, `desc`, `ncol`, `nrow` and `ilay`. */
  predicate SameObservable(g1: seq<HeadRecord>, g2: seq<HeadRecord>) {
    |g1| == |g2| > 0 &&
    g1[0].kper == g2[0].kper && g1[0].kstp == g2[0].kstp && g1[0].totim == g2[0].totim &&
    forall i :: 0 <= i < |g1| ==> g1[i].data == g2[i].data
  }

  lemma {:induction false} CollectObservable(gs1: seq<seq<HeadRecord>>, gs2: seq<seq<HeadRecord>>)
    requires NonEmpty(gs1) && NonEmpty(gs2) && |gs1| == |gs2|
    requires forall i :: 0 <= i < |gs1| ==> SameObservable(gs1[i], gs2[i])
    ensures Collect(gs1) == Collect(gs2) && Order(gs1) == Order(gs2) && Totims(gs1) == Totims(gs2)
  {
    if gs1 != [] {
      var n := |gs1| - 1;
      var p1, p2 := gs1[..n], gs2[..n];
      forall i | 0 <= i < n ensures SameObservable(p1[i], p2[i]) {
        assert p1[i] == gs1[i] && p2[i] == gs2[i];
      }
      CollectObservable(p1, p2);
      assert Key(gs1[n]) == Key(gs2[n]);
      assert Layers(gs1[n]) == Layers(gs2[n]);
    }
    forall i | 0 <= i < |gs1| ensures Totims(gs1)[i] == Totims(gs2)[i] {
    }
  }

  // ---------------------------------------------------------------------
  // The dictionary's key order
  // ---------------------------------------------------------------------

  /** No key is listed twice. */
  predicate NoRepeats(ks: seq<StepKey>) {
    forall i, j :: 0 <= i < j < |ks| ==> ks[i] != ks[j]
  }

  /** The listed keys are the dictionary's keys, each once. */
  lemma {:induction false} OrderKeys(gs: seq<seq<HeadRecord>>)
    requires NonEmpty(gs)
    ensures NoRepeats(Order(gs))
    ensures forall key :: key in Order(gs) <==> key in Collect(gs)
    ensures |Order(gs)| == |Collect(gs)|
  {
    if gs != [] {
      var pre := gs[..|gs| - 1];
      var key := Key(gs[|gs| - 1]);
      OrderKeys(pre);
      assert Collect(gs) == Collect(pre)[key := Layers(gs[|gs| - 1])];
      if key in Order(pre) {
        assert Collect(gs).Keys == Collect(pre).Keys;
      } else {
        assert Order(gs) == Order(pre) + [key];
        assert Collect(gs).Keys == Collect(pre).Keys + {key};
      }
    }
  }

  /** Once listed, a key keeps its place: the order after the first `k`
      groups is a prefix of the final order. */
  lemma {:induction false} OrderPrefix(gs: seq<seq<HeadRecord>>, k: nat)
    requires NonEmpty(gs) && k <= |gs|
    ensures NonEmpty(gs[..k]) && Order(gs[..k]) <= Order(gs)
    decreases |gs|
  {
    if k < |gs| {
      var pre := gs[..|gs| - 1];
      assert pre[..k] == gs[..k];
      OrderPrefix(pre, k);
    } else {
      assert gs[..k] == gs;
    }
  }

  /** A key takes its place when its first group is filed, after the keys
      of the groups before it, and a later group with the same key does not
      move it. */
  lemma FirstPlace(gs: seq<seq<HeadRecord>>, i: nat)
    requires NonEmpty(gs) && i < |gs|
    requires forall j :: 0 <= j < i ==> Key(gs[j]) != Key(gs[i])
    ensures NonEmpty(gs[..i])
    ensures |Order(gs[..i])| < |Order(gs)| && Order(gs)[|Order(gs[..i])|] == Key(gs[i])
  {
    var key := Key(gs[i]);
    var before := gs[..i];
    var upto := gs[..i + 1];
    assert upto[..i] == before && upto[i] == gs[i];
    CollectKeys(before);
    OrderKeys(before);
    assert key !in Collect(before) by {
      forall j | 0 <= j < i ensures Key(before[j]) != key {
        assert before[j] == gs[j];
      }
    }
    assert Order(upto) == Order(before) + [key];
    OrderPrefix(gs, i + 1);
  }

  /** With no key repeated, the `i`-th listed key is the `i`-th group's:
      it holds that group's array, and `totim[i]` is that group's time. */
  lemma {:induction false} OrderMatchesTimes(gs: seq<seq<HeadRecord>>)
    requires NonEmpty(gs) && DistinctKeys(gs)
    ensures |Order(gs)| == |gs|
    ensures forall i :: 0 <= i < |gs| ==> Order(gs)[i] == Key(gs[i])
  {
    if gs != [] {
      var pre := gs[..|gs| - 1];
      var key := Key(gs[|gs| - 1]);
      DistinctPrefix(gs);
      OrderMatchesTimes(pre);
      assert key !in Order(pre);
      assert Order(gs) == Order(pre) + [key];
      forall i | 0 <= i < |pre| ensures Order(gs)[i] == Key(gs[i]) {
        assert pre[i] == gs[i];
      }
    }
  }

  /** `keys` lists the keys of `hds`, each once; and when no key repeats
      among the groups `gs`, the `i`-th listed key is the `i`-th group's,
      so it holds the array whose total time is the `i`-th. */
  ghost predicate ListedFrom(keys: seq<StepKey>, hds: map<StepKey, Field>, gs: seq<seq<HeadRecord>>)
    requires NonEmpty(gs)
  {
    NoRepeats(keys) &&
    (forall key :: key in keys <==> key in hds) && |keys| == |hds| &&
    (DistinctKeys(gs) ==>
       |keys| == |gs| &&
       forall i :: 0 <= i < |gs| ==> keys[i] == Key(gs[i]) && keys[i] in hds && hds[keys[i]] == Layers(gs[i]))
  }

  /** The key order `Order` builds lists the dictionary `Collect` builds. */
  lemma OrderFacts(gs: seq<seq<HeadRecord>>)
    requires NonEmpty(gs)
    ensures ListedFrom(Order(gs), Collect(gs), gs)
  {
    OrderKeys(gs);
    if DistinctKeys(gs) {
      OrderMatchesTimes(gs);
      forall i | 0 <= i < |gs|
        ensures Key(gs[i]) in Collect(gs) && Collect(gs)[Key(gs[i])] == Layers(gs[i])
      {
        LastWins(gs, i);
      }
    }
  }

  // ---------------------------------------------------------------------
  // Where each part of the result comes from in the file
  // ---------------------------------------------------------------------

  /** Within one group's bytes, the key is `(kper, kstp)` from bytes 4..8
      and 0..4 and the total time is bytes 12..16, all of the first record. */
  lemma GroupHeader(seg: seq<byte>, nlay: nat, nrow: nat, ncol: nat)
    requires |seg| == Stride(nlay, nrow, ncol) && nlay > 0
    ensures Key(DecodeGroup(seg, nlay, nrow, ncol)) == StepKey(seg[4..8], seg[0..4])
    ensures DecodeGroup(seg, nlay, nrow, ncol)[0].totim == seg[12..16]
  {
    var rb := RecordBytes(nrow, ncol);
    ChunkAt(seg, rb, nlay, 0);
    var first := seg[0..rb];
    assert DecodeGroup(seg, nlay, nrow, ncol)[0] == DecodeRecord(first, nrow, ncol);
    assert first[0..4] == seg[0..4] && first[4..8] == seg[4..8] && first[12..16] == seg[12..16];
  }

  /** Within one group's bytes, layer `j` of the stored array is the
      payload of the `j`-th record. */
  lemma GroupLayer(seg: seq<byte>, nlay: nat, nrow: nat, ncol: nat, j: nat)
    requires |seg| == Stride(nlay, nrow, ncol) && j < nlay
    ensures Times(j, RecordBytes(nrow, ncol)) + RecordBytes(nrow, ncol) <= |seg|
    ensures Layers(DecodeGroup(seg, nlay, nrow, ncol))[j] ==
            DecodeGrid(seg[Times(j, RecordBytes(nrow, ncol)) + HEADER_BYTES..Times(j, RecordBytes(nrow, ncol)) + RecordBytes(nrow, ncol)],
                       nrow, ncol)
  {
    var rb := RecordBytes(nrow, ncol);
    var o := Times(j, rb);
    ChunkAt(seg, rb, nlay, j);
    var rec := seg[o..o + rb];
    var g := DecodeGroup(seg, nlay, nrow, ncol);
    assert g[j] == DecodeRecord(rec, nrow, ncol);
    assert rec[HEADER_BYTES..] == seg[o + HEADER_BYTES..o + rb];
  }

  /** A group read at offset `o` of the file takes its key and total time
      from the bytes at `o + 4`, `o` and `o + 12`. */
  lemma GroupHeaderAt(file: seq<byte>, o: nat, st: nat, nlay: nat, nrow: nat, ncol: nat)
    requires nlay > 0 && st == Stride(nlay, nrow, ncol) && o + st <= |file|
    ensures Key(DecodeGroup(file[o..o + st], nlay, nrow, ncol)) == StepKey(file[o + 4..o + 8], file[o..o + 4])
    ensures DecodeGroup(file[o..o + st], nlay, nrow, ncol)[0].totim == file[o + 12..o + 16]
  {
    GroupHeader(file[o..o + st], nlay, nrow, ncol);
    SliceOfSlice(file, o, o + st, 0, 4);
    SliceOfSlice(file, o, o + st, 4, 8);
    SliceOfSlice(file, o, o + st, 12, 16);
  }

  /** Group `i` of the file starts at byte `o = Times(i, stride)`, which
      is `i * stride` (`TimesIsMul`): its key and total time are read from
      the first record there. */
  lemma GroupKeyInFile(file: seq<byte>, n: nat, nlay: nat, nrow: nat, ncol: nat, st: nat, i: nat, o: nat)
    requires nlay > 0 && st == Stride(nlay, nrow, ncol) && Times(n, st) <= |file| && i < n && o == Times(i, st)
    ensures o + st <= |file|
    ensures Key(Groups(file, n, nlay, nrow, ncol)[i]) == StepKey(file[o + 4..o + 8], file[o..o + 4])
    ensures Totims(Groups(file, n, nlay, nrow, ncol))[i] == file[o + 12..o + 16]
  {
    var gs := Groups(file, n, nlay, nrow, ncol);
    GroupAt(file, n, st, nlay, nrow, ncol, i);
    var g := DecodeGroup(file[o..o + st], nlay, nrow, ncol);
    assert gs[i] == g;
    GroupHeaderAt(file, o, st, nlay, nrow, ncol);
    assert Totims(gs)[i] == g[0].totim;
  }

  // ---------------------------------------------------------------------
  // The decoder on whole files
  // ---------------------------------------------------------------------

  /** The closed form unfolded once: with positive dimensions the file
      holds `n = Fit(|file|, stride)` whole groups; the outcome is the
      decoded groups when they fill the file, else a failure at the offset
      just past them. */
  lemma FileOutcome(file: seq<byte>, nlay: nat, nrow: nat, ncol: nat)
    requires nlay > 0 && nrow > 0 && ncol > 0
    ensures var st := Stride(nlay, nrow, ncol);
            var n := Fit(|file|, st);
            var r := ParseHdsSpec(Some(file), nlay, nrow, ncol);
            Times(n, st) <= |file| < Times(n, st) + st &&
            !r.Empty? &&
            (r.Ok? <==> Times(n, st) == |file|) &&
            (r.Truncated? ==> r.offset == Times(n, st)) &&
            (r.Ok? ==> var gs := Groups(file, n, nlay, nrow, ncol);
                       r == Ok(Collect(gs), Order(gs), Totims(gs)))
  {
    FitBounds(|file|, Stride(nlay, nrow, ncol));
  }

  /** The number of whole groups is the size divided by the stride. */
  lemma FitIsDiv(size: nat, st: nat)
    requires st > 0
    ensures Fit(size, st) == size / st
    ensures Times(Fit(size, st), st) == size / st * st
    ensures size % st == size - Times(Fit(size, st), st)
  {
    FitBounds(size, st);
    TimesIsMul(Fit(size, st), st);
    DivUnique(size, st, Fit(size, st));
  }

  /** A file decodes without error exactly when its size is a whole number
      of groups; the scan then stops with its offset at the file size, one
      total time per group. Otherwise it fails at the start of the group
      that would run past the end. */
  lemma WholeGroups(file: seq<byte>, nlay: nat, nrow: nat, ncol: nat)
    requires nlay > 0 && nrow > 0 && ncol > 0
    ensures var st := Stride(nlay, nrow, ncol);
            var r := ParseHdsSpec(Some(file), nlay, nrow, ncol);
            (r.Ok? <==> |file| % st == 0) &&
            (r.Ok? ==> |r.totim| * st == |file|) &&
            (r.Truncated? ==> r.offset % st == 0 && r.offset < |file| < r.offset + st)
  {
    var st := Stride(nlay, nrow, ncol);
    var n := Fit(|file|, st);
    FileOutcome(file, nlay, nrow, ncol);
    FitIsDiv(|file|, st);
    TimesIsMul(n, st);
    DivUnique(n * st, st, n);
  }

  /** Dropping the last byte of a well-formed, non-empty file makes the
      last group fail, at the offset where that group starts. */
  lemma OneByteShort(file: seq<byte>, nlay: nat, nrow: nat, ncol: nat)
    requires nlay > 0 && nrow > 0 && ncol > 0
    requires ParseHdsSpec(Some(file), nlay, nrow, ncol).Ok? && |file| > 0
    ensures var r := ParseHdsSpec(Some(file[..|file| - 1]), nlay, nrow, ncol);
            r.Truncated? && r.offset + Stride(nlay, nrow, ncol) == |file|
  {
    var st := Stride(nlay, nrow, ncol);
    var n := Fit(|file|, st);
    FileOutcome(file, nlay, nrow, ncol);
    assert n > 0;
    assert Times(n, st) == Times(n - 1, st) + st;
    var short := file[..|file| - 1];
    FitUnique(|short|, st, n - 1);
    FileOutcome(short, nlay, nrow, ncol);
  }

  /** The dictionary `hds` as filed from the groups `gs`: no larger than
      the number of groups and as large only when no key repeats, its keys
      exactly the groups' keys, and each key holding the array of the last
      group filed under it. */
  ghost predicate FiledFrom(hds: map<StepKey, Field>, gs: seq<seq<HeadRecord>>)
    requires NonEmpty(gs)
  {
    |hds| <= |gs| &&
    (|hds| == |gs| <==> DistinctKeys(gs)) &&
    (forall key :: key in hds <==> exists i :: 0 <= i < |gs| && Key(gs[i]) == key) &&
    (forall i :: 0 <= i < |gs| && (forall j :: i < j < |gs| ==> Key(gs[j]) != Key(gs[i])) ==>
       Key(gs[i]) in hds && hds[Key(gs[i])] == Layers(gs[i]))
  }

  /** On success, with `gs` the groups the file holds: `totim` has one
      entry per group, the dictionary is filed from the groups, and its
      keys are listed in order of first appearance. */
  lemma ResultCounts(file: seq<byte>, nlay: nat, nrow: nat, ncol: nat)
    requires nlay > 0 && nrow > 0 && ncol > 0
    requires ParseHdsSpec(Some(file), nlay, nrow, ncol).Ok?
    ensures Times(Fit(|file|, Stride(nlay, nrow, ncol)), Stride(nlay, nrow, ncol)) == |file|
    ensures var r := ParseHdsSpec(Some(file), nlay, nrow, ncol);
            var gs := Groups(file, Fit(|file|, Stride(nlay, nrow, ncol)), nlay, nrow, ncol);
            r.totim == Totims(gs) && |r.totim| == |gs| && FiledFrom(r.hds, gs) &&
            r.keys == Order(gs) && ListedFrom(r.keys, r.hds, gs)
  {
    FileOutcome(file, nlay, nrow, ncol);
    var gs := Groups(file, Fit(|file|, Stride(nlay, nrow, ncol)), nlay, nrow, ncol);
    CollectFacts(gs);
    OrderFacts(gs);
  }

  /** The dictionary `Collect` builds is filed from its groups. */
  lemma CollectFacts(gs: seq<seq<HeadRecord>>)
    requires NonEmpty(gs)
    ensures FiledFrom(Collect(gs), gs)
  {
    DistinctIffFull(gs);
    CollectKeys(gs);
    forall i | 0 <= i < |gs| && (forall j :: i < j < |gs| ==> Key(gs[j]) != Key(gs[i]))
      ensures Key(gs[i]) in Collect(gs) && Collect(gs)[Key(gs[i])] == Layers(gs[i])
    {
      LastWins(gs, i);
    }
  }

  /** Every array filed is `nlay` by `nrow` by `ncol`. */
  lemma {:induction false} CollectShapes(gs: seq<seq<HeadRecord>>, nlay: nat, nrow: nat, ncol: nat)
    requires nlay > 0
    requires forall i :: 0 <= i < |gs| ==> WellFormedGroup(gs[i], nlay, nrow, ncol)
    ensures NonEmpty(gs)
    ensures forall key :: key in Collect(gs) ==> ShapedField(Collect(gs)[key], nlay, nrow, ncol)
  {
    if gs != [] {
      var pre := gs[..|gs| - 1];
      CollectShapes(pre, nlay, nrow, ncol);
      assert WellFormedGroup(gs[|gs| - 1], nlay, nrow, ncol);
    }
  }

  predicate ShapedField(f: Field, nlay: nat, nrow: nat, ncol: nat) {
    |f| == nlay && forall l :: 0 <= l < nlay ==> Shaped(f[l], nrow, ncol)
  }

  /** Every stored array is `nlay` by `nrow` by `ncol`: the caller's
      dimensions alone give the shape. */
  lemma FieldShapes(file: seq<byte>, nlay: nat, nrow: nat, ncol: nat)
    requires nlay > 0 && nrow > 0 && ncol > 0
    requires ParseHdsSpec(Some(file), nlay, nrow, ncol).Ok?
    ensures var hds := ParseHdsSpec(Some(file), nlay, nrow, ncol).hds;
            forall key :: key in hds ==> ShapedField(hds[key], nlay, nrow, ncol)
  {
    FileOutcome(file, nlay, nrow, ncol);
    CollectShapes(Groups(file, Fit(|file|, Stride(nlay, nrow, ncol)), nlay, nrow, ncol), nlay, nrow, ncol);
  }

  /** Two files of the same size give the same outcome and the same number
      of total times, whatever their header bytes say: the stride depends on
      the caller's dimensions only. */
  lemma OnlySizeShapesOutcome(f1: seq<byte>, f2: seq<byte>, nlay: nat, nrow: nat, ncol: nat)
    requires nlay > 0 && nrow > 0 && ncol > 0 && |f1| == |f2|
    ensures var r1 := ParseHdsSpec(Some(f1), nlay, nrow, ncol);
            var r2 := ParseHdsSpec(Some(f2), nlay, nrow, ncol);
            r1.Ok? == r2.Ok? && r1.Truncated? == r2.Truncated? &&
            (r1.Ok? ==> |r1.totim| == |r2.totim|) &&
            (r1.Truncated? ==> r1.offset == r2.offset)
  {
    FileOutcome(f1, nlay, nrow, ncol);
    FileOutcome(f2, nlay, nrow, ncol);
  }

  // ---------------------------------------------------------------------
  // Round trip
  // ---------------------------------------------------------------------

  lemma GroupRoundTrip(g: seq<HeadRecord>, nlay: nat, nrow: nat, ncol: nat)
    requires WellFormedGroup(g, nlay, nrow, ncol)
    ensures |EncodeGroup(g, nrow, ncol)| == Stride(nlay, nrow, ncol)
    ensures DecodeGroup(EncodeGroup(g, nrow, ncol), nlay, nrow, ncol) == g
  {
    var rb := RecordBytes(nrow, ncol);
    var recs := seq(|g|, i requires 0 <= i < |g| && WellFormed(g[i], nrow, ncol) => EncodeRecord(g[i]));
    forall i | 0 <= i < nlay
      ensures |recs[i]| == rb && DecodeRecord(recs[i], nrow, ncol) == g[i]
    {
      RecordRoundTrip(g[i], nrow, ncol);
    }
    ChunksConcat(recs, rb);
  }

  /** A file assembled from known groups decodes to exactly those groups'
      payloads under their keys, and their total times in order. */
  lemma FileRoundTrip(gs: seq<seq<HeadRecord>>, nlay: nat, nrow: nat, ncol: nat)
    requires nlay > 0 && nrow > 0 && ncol > 0
    requires forall i :: 0 <= i < |gs| ==> WellFormedGroup(gs[i], nlay, nrow, ncol)
    ensures NonEmpty(gs)
    ensures ParseHdsSpec(Some(EncodeFile(gs, nlay, nrow, ncol)), nlay, nrow, ncol) ==
            Ok(Collect(gs), Order(gs), Totims(gs))
  {
    var st := Stride(nlay, nrow, ncol);
    var file := EncodeFile(gs, nlay, nrow, ncol);
    var parts := seq(|gs|, i requires 0 <= i < |gs| && WellFormedGroup(gs[i], nlay, nrow, ncol) =>
                       EncodeGroup(gs[i], nrow, ncol));
    forall i | 0 <= i < |gs|
      ensures |parts[i]| == st && DecodeGroup(parts[i], nlay, nrow, ncol) == gs[i]
    {
      GroupRoundTrip(gs[i], nlay, nrow, ncol);
    }
    GroupsOfChunks(parts, gs, nlay, nrow, ncol);
    FitUnique(|file|, st, |gs|);
    FileOutcome(file, nlay, nrow, ncol);
  }

  /** Bytes made of whole groups' bytes decode to those groups. */
  lemma GroupsOfChunks(parts: seq<seq<byte>>, gs: seq<seq<HeadRecord>>, nlay: nat, nrow: nat, ncol: nat)
    requires Uniform(parts, Stride(nlay, nrow, ncol)) && |parts| == |gs|
    requires forall i :: 0 <= i < |gs| ==> DecodeGroup(parts[i], nlay, nrow, ncol) == gs[i]
    ensures |Concat(parts)| == Times(|gs|, Stride(nlay, nrow, ncol))
    ensures Groups(Concat(parts), |gs|, nlay, nrow, ncol) == gs
  {
    var st := Stride(nlay, nrow, ncol);
    ChunksConcat(parts, st);
    var file := Concat(parts);
    var decoded := Groups(file, |gs|, nlay, nrow, ncol);
    forall i | 0 <= i < |gs|
      ensures decoded[i] == gs[i]
    {
      GroupAt(file, |gs|, st, nlay, nrow, ncol, i);
      ChunkAt(file, st, |gs|, i);
    }
  }

  /** Files built from groups that differ only in fields the decoder
      ignores decode to the same result. */
  lemma IgnoredFields(gs1: seq<seq<HeadRecord>>, gs2: seq<seq<HeadRecord>>, nlay: nat, nrow: nat, ncol: nat)
    requires nlay > 0 && nrow > 0 && ncol > 0 && |gs1| == |gs2|
    requires forall i :: 0 <= i < |gs1| ==> WellFormedGroup(gs1[i], nlay, nrow, ncol)
    requires forall i :: 0 <= i < |gs2| ==> WellFormedGroup(gs2[i], nlay, nrow, ncol)
    requires forall i :: 0 <= i < |gs1| ==> SameObservable(gs1[i], gs2[i])
    ensures ParseHdsSpec(Some(EncodeFile(gs1, nlay, nrow, ncol)), nlay, nrow, ncol) ==
            ParseHdsSpec(Some(EncodeFile(gs2, nlay, nrow, ncol)), nlay, nrow, ncol)
  {
    FileRoundTrip(gs1, nlay, nrow, ncol);
    FileRoundTrip(gs2, nlay, nrow, ncol);
    CollectObservable(gs1, gs2);
  }

  // ---------------------------------------------------------------------
  // Integer arithmetic
  // ---------------------------------------------------------------------

  lemma MulMono(a: nat, b: nat, c: nat)
    requires a <= b
    ensures a * c <= b * c
  {
  }

  /** A quotient and remainder that fit the bounds are Dafny's `/` and `%`. */
  lemma DivUnique(x: nat, d: nat, q: nat)
    requires q * d <= x < q * d + d
    ensures x / d == q && x % d == x - q * d
  {
    var p := x / d;
    assert p * d <= x < p * d + d;
    if p < q {
      MulMono(p + 1, q, d);
    } else if p > q {
      MulMono(q + 1, p, d);
    }
  }
}
