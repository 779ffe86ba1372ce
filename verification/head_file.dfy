/** Decoding a whole structured head file: a sequence of groups of `nlay`
    records, each group one simulation output snapshot. */
module HeadFile {
  import opened Bytes
  import opened Seqs
  import opened HeadRecord

  datatype Option<T> = None | Some(value: T)

  /** The dictionary key: stress period first, then time step, each the
      4-byte `i4` word read from the file. Two keys are equal exactly when
      their decoded integers are (see `KeyIdentity`). */
  datatype StepKey = StepKey(kper: Word, kstp: Word)

  /** Comparing keys as words is comparing them as the integers the file
      stores: two keys are the same exactly when their decoded stress
      periods and time steps are. */
  lemma KeyIdentity(a: StepKey, b: StepKey)
    ensures a == b <==> DecodeI32(a.kper) == DecodeI32(b.kper) && DecodeI32(a.kstp) == DecodeI32(b.kstp)
  {
    EncodeDecodeI32(a.kper);
    EncodeDecodeI32(b.kper);
    EncodeDecodeI32(a.kstp);
    EncodeDecodeI32(b.kstp);
  }

  /** A head array indexed by layer, row and column. */
  type Field = seq<seq<seq<Word>>>

  /** What the decoder returns. `Empty` is the bare empty dictionary of the
      early guard. `Ok` is the dictionary, as its entries `hds` and its keys
      in iteration order `keys`, and the list of total times. `Truncated` is
      the failure of a group reaching past the end of the file, with the
      offset at which that group starts. */
  datatype HdsResult =
    | Empty
    | Ok(hds: map<StepKey, Field>, keys: seq<StepKey>, totim: seq<Word>)
    | Truncated(offset: nat)

  /** The guard that turns the call into a no-op. */
  predicate Skipped(fn: Option<seq<byte>>, nlay: nat, nrow: nat, ncol: nat) {
    fn.None? || nlay == 0 || nrow == 0 || ncol == 0
  }

  /** Bytes consumed by one pass of the scan: `nlay` records back to back. */
  function Stride(nlay: nat, nrow: nat, ncol: nat): (n: nat)
    ensures nlay > 0 ==> n >= RecordBytes(nrow, ncol) > 0
  {
    Times(nlay, RecordBytes(nrow, ncol))
  }

  /** One pass moves `nlay` times the record size:
      `nlay * (44 + 4 * nrow * ncol)` bytes. */
  lemma StrideSize(nlay: nat, nrow: nat, ncol: nat)
    ensures Stride(nlay, nrow, ncol) == nlay * (44 + 4 * nrow * ncol)
  {
    RecordSize(nrow, ncol);
    TimesIsMul(nlay, RecordBytes(nrow, ncol));
  }

  /** Decodes one group of `nlay` records from exactly its own bytes. */
  function DecodeGroup(s: seq<byte>, nlay: nat, nrow: nat, ncol: nat): (g: seq<HeadRecord>)
    requires |s| == Stride(nlay, nrow, ncol)
    ensures WellFormedGroup(g, nlay, nrow, ncol)
  {
    var rs := Chunks(s, RecordBytes(nrow, ncol), nlay);
    seq(nlay, i requires 0 <= i < nlay => DecodeRecord(rs[i], nrow, ncol))
  }

  predicate WellFormedGroup(g: seq<HeadRecord>, nlay: nat, nrow: nat, ncol: nat) {
    |g| == nlay && forall i :: 0 <= i < nlay ==> WellFormed(g[i], nrow, ncol)
  }

  predicate NonEmpty(gs: seq<seq<HeadRecord>>) {
    forall i :: 0 <= i < |gs| ==> |gs[i]| > 0
  }

  /** A group is filed under the key of its first record. */
  function Key(g: seq<HeadRecord>): StepKey
    requires |g| > 0
  {
    StepKey(g[0].kper, g[0].kstp)
  }

  /** The stored array: layer `i` is the payload of the group's `i`-th record. */
  function Layers(g: seq<HeadRecord>): (f: Field)
    ensures |f| == |g|
  {
    seq(|g|, i requires 0 <= i < |g| => g[i].data)
  }

  /** The first `n` groups of the file, in file order: group `i` is decoded
      from the `stride` bytes at offset `Times(i, stride)`. */
  function Groups(file: seq<byte>, n: nat, nlay: nat, nrow: nat, ncol: nat): (gs: seq<seq<HeadRecord>>)
    requires Times(n, Stride(nlay, nrow, ncol)) <= |file|
    ensures |gs| == n
    ensures forall i :: 0 <= i < n ==> WellFormedGroup(gs[i], nlay, nrow, ncol)
    ensures nlay > 0 ==> NonEmpty(gs)
  {
    if n == 0 then []
    else
      var st := Stride(nlay, nrow, ncol);
      var ofs := Times(n - 1, st);
      Groups(file, n - 1, nlay, nrow, ncol) + [DecodeGroup(file[ofs..ofs + st], nlay, nrow, ncol)]
  }

  /** The dictionary built by storing each group under its key in order;
      a later group with a key already present replaces the earlier array. */
  function Collect(gs: seq<seq<HeadRecord>>): (hds: map<StepKey, Field>)
    requires NonEmpty(gs)
    ensures |hds| <= |gs|
  {
    if gs == [] then map[]
    else
      var g := gs[|gs| - 1];
      Collect(gs[..|gs| - 1])[Key(g) := Layers(g)]
  }

  /** A dictionary's key order after storing under `key`: a new key goes
      last, and a key already present keeps its place. */
  function Enlist(keys: seq<StepKey>, key: StepKey): (ks: seq<StepKey>)
    ensures key in ks && keys <= ks
  {
    if key in keys then keys else keys + [key]
  }

  /** The dictionary's keys in iteration order: the groups' keys in order
      of first appearance. */
  function Order(gs: seq<seq<HeadRecord>>): (ks: seq<StepKey>)
    requires NonEmpty(gs)
    ensures |ks| <= |gs|
  {
    if gs == [] then []
    else Enlist(Order(gs[..|gs| - 1]), Key(gs[|gs| - 1]))
  }

  /** One total time per group, taken from its first record, in file order. */
  function Totims(gs: seq<seq<HeadRecord>>): (ts: seq<Word>)
    requires NonEmpty(gs)
    ensures |ts| == |gs|
  {
    seq(|gs|, i requires 0 <= i < |gs| => gs[i][0].totim)
  }

  /** The number of whole strides that fit in `size` bytes. */
  function Fit(size: nat, st: nat): nat
    requires st > 0
  {
    if size < st then 0 else 1 + Fit(size - st, st)
  }

  /** `Fit` is the quotient: the whole strides reach at most `size`, and one
      more would pass it. */
  lemma {:induction false} FitBounds(size: nat, st: nat)
    requires st > 0
    ensures Times(Fit(size, st), st) <= size < Times(Fit(size, st), st) + st
  {
    if size >= st {
      FitBounds(size - st, st);
    }
  }

  /** Any count of strides that reaches at most `size` with less than one
      stride left over is `Fit(size, st)`. */
  lemma {:induction false} FitUnique(size: nat, st: nat, q: nat)
    requires st > 0 && Times(q, st) <= size < Times(q, st) + st
    ensures Fit(size, st) == q
  {
    if q > 0 {
      TimesMono(1, q, st);
      FitUnique(size - st, st, q - 1);
    }
  }

  /** The decoder's outcome in closed form: with positive dimensions the
      file holds `Fit(|file|, stride)` whole groups, and any bytes left over
      mean the next group runs past the end of the file. */
  function ParseHdsSpec(fn: Option<seq<byte>>, nlay: nat, nrow: nat, ncol: nat): (r: HdsResult)
    ensures r.Empty? <==> Skipped(fn, nlay, nrow, ncol)
    ensures r.Truncated? ==> fn.Some? && r.offset < |fn.value| < r.offset + Stride(nlay, nrow, ncol)
    ensures r.Ok? ==> fn.Some? && |r.keys| <= |r.totim| && |r.hds| <= |r.totim|
  {
    if Skipped(fn, nlay, nrow, ncol) then Empty
    else
      var file := fn.value;
      var st := Stride(nlay, nrow, ncol);
      var n := Fit(|file|, st);
      FitBounds(|file|, st);
      if Times(n, st) < |file| then Truncated(Times(n, st))
      else
        var gs := Groups(file, n, nlay, nrow, ncol);
        Ok(Collect(gs), Order(gs), Totims(gs))
  }

  /** The scan: from offset 0, read one group per pass, advance the offset
      by the stride, file the group's payload under its key and append its
      total time, until the offset reaches the file size. The dictionary is
      kept as its entries `hds` and its key order `keys`. */
  method ParseHds(fn: Option<seq<byte>>, nlay: nat, nrow: nat, ncol: nat) returns (r: HdsResult)
    ensures r == ParseHdsSpec(fn, nlay, nrow, ncol)
    ensures r == Scan(fn, nlay, nrow, ncol)
    ensures r.Empty? <==> Skipped(fn, nlay, nrow, ncol)
  {
    if fn.None? || nlay == 0 || nrow == 0 || ncol == 0 {
      return Empty;
    }
    var file := fn.value;
    var fsize := |file|;
    var stride := Stride(nlay, nrow, ncol);
    var ofst: nat := 0;
    var hds: map<StepKey, Field> := map[];
    var keys: seq<StepKey> := [];
    var totim: seq<Word> := [];
    ghost var k: nat := 0;
    ghost var gs: seq<seq<HeadRecord>> := [];
    while ofst < fsize
      invariant ofst == Times(k, stride) <= fsize
      invariant gs == Groups(file, k, nlay, nrow, ncol)
      invariant hds == Collect(gs) && keys == Order(gs) && totim == Totims(gs)
      decreases fsize - ofst
    {
      if ofst + stride > fsize {
        Outcome(fn, file, fsize, stride, k, nlay, nrow, ncol);
        ScanIsSpec(fn, nlay, nrow, ncol);
        return Truncated(ofst);
      }
      var next := ofst + stride;
      ghost var k' := k + 1;
      var group := DecodeGroup(file[ofst..next], nlay, nrow, ncol);
      GroupsNext(file, k, k', ofst, next, stride, nlay, nrow, ncol);
      CollectSnoc(gs, group);
      var key := Key(group);
      if key !in keys {
        keys := keys + [key];
      }
      hds := hds[key := Layers(group)];
      totim := totim + [group[0].totim];
      ofst := next;
      k := k';
      gs := gs + [group];
    }
    Outcome(fn, file, fsize, stride, k, nlay, nrow, ncol);
    ScanIsSpec(fn, nlay, nrow, ncol);
    return Ok(hds, keys, totim);
  }

  /** The scan as a function of the input: the guard, then the passes from
      offset 0 with an empty dictionary and an empty list of times. */
  function Scan(fn: Option<seq<byte>>, nlay: nat, nrow: nat, ncol: nat): (r: HdsResult)
    ensures r.Empty? <==> Skipped(fn, nlay, nrow, ncol)
  {
    if Skipped(fn, nlay, nrow, ncol) then Empty
    else Rest(fn.value, Stride(nlay, nrow, ncol), 0, map[], [], [], nlay, nrow, ncol)
  }

  /** The passes still to run from offset `ofst`, with the dictionary and
      the times gathered so far. */
  function Rest(file: seq<byte>, st: nat, ofst: nat, hds: map<StepKey, Field>, keys: seq<StepKey>,
                totim: seq<Word>, nlay: nat, nrow: nat, ncol: nat): (r: HdsResult)
    requires nlay > 0 && st == Stride(nlay, nrow, ncol)
    ensures !r.Empty?
    decreases |file| - ofst
  {
    if ofst >= |file| then Ok(hds, keys, totim)
    else if ofst + st > |file| then Truncated(ofst)
    else
      var g := DecodeGroup(file[ofst..ofst + st], nlay, nrow, ncol);
      Rest(file, st, ofst + st, hds[Key(g) := Layers(g)], Enlist(keys, Key(g)), totim + [g[0].totim],
           nlay, nrow, ncol)
  }

  /** The scan computes the closed form. */
  lemma ScanIsSpec(fn: Option<seq<byte>>, nlay: nat, nrow: nat, ncol: nat)
    ensures Scan(fn, nlay, nrow, ncol) == ParseHdsSpec(fn, nlay, nrow, ncol)
  {
    if !Skipped(fn, nlay, nrow, ncol) {
      var file := fn.value;
      var st := Stride(nlay, nrow, ncol);
      var n := Fit(|file|, st);
      FitBounds(|file|, st);
      var gs := Groups(file, n, nlay, nrow, ncol);
      RestPrefix(file, st, n, Times(n, st), nlay, nrow, ncol);
      RestLast(file, st, Times(n, st), Collect(gs), Order(gs), Totims(gs), nlay, nrow, ncol);
      Outcome(fn, file, |file|, st, n, nlay, nrow, ncol);
    }
  }

  /** After `k` passes the scan has filed exactly the first `k` groups. */
  lemma {:induction false} RestPrefix(file: seq<byte>, st: nat, k: nat, ofs: nat, nlay: nat, nrow: nat, ncol: nat)
    requires nlay > 0 && st == Stride(nlay, nrow, ncol) && ofs == Times(k, st) && ofs <= |file|
    ensures var gs := Groups(file, k, nlay, nrow, ncol);
            Rest(file, st, 0, map[], [], [], nlay, nrow, ncol) ==
            Rest(file, st, ofs, Collect(gs), Order(gs), Totims(gs), nlay, nrow, ncol)
  {
    if k > 0 {
      var j := k - 1;
      var prev := Times(j, st);
      var gs := Groups(file, j, nlay, nrow, ncol);
      var g := DecodeGroup(file[prev..ofs], nlay, nrow, ncol);
      RestPrefix(file, st, j, prev, nlay, nrow, ncol);
      GroupsNext(file, j, k, prev, ofs, st, nlay, nrow, ncol);
      CollectSnoc(gs, g);
      RestStep(file, st, prev, ofs, Collect(gs), Order(gs), Totims(gs), nlay, nrow, ncol);
    }
  }

  /** One pass of the scan files the group at the current offset. */
  lemma RestStep(file: seq<byte>, st: nat, ofs: nat, next: nat, hds: map<StepKey, Field>, keys: seq<StepKey>,
                 totim: seq<Word>, nlay: nat, nrow: nat, ncol: nat)
    requires nlay > 0 && st == Stride(nlay, nrow, ncol) && next == ofs + st <= |file|
    ensures var g := DecodeGroup(file[ofs..next], nlay, nrow, ncol);
            Rest(file, st, ofs, hds, keys, totim, nlay, nrow, ncol) ==
            Rest(file, st, next, hds[Key(g) := Layers(g)], Enlist(keys, Key(g)), totim + [g[0].totim],
                 nlay, nrow, ncol)
  {
  }

  /** `GroupsSnoc` with the counts and offsets given by name. */
  lemma GroupsNext(file: seq<byte>, j: nat, k: nat, ofs: nat, next: nat, st: nat, nlay: nat, nrow: nat, ncol: nat)
    requires st == Stride(nlay, nrow, ncol) && k == j + 1 && ofs == Times(j, st) && next == ofs + st <= |file|
    ensures Times(k, st) == next
    ensures Groups(file, k, nlay, nrow, ncol) ==
            Groups(file, j, nlay, nrow, ncol) + [DecodeGroup(file[ofs..next], nlay, nrow, ncol)]
  {
    GroupsSnoc(file, j, ofs, st, nlay, nrow, ncol);
  }

  /** With less than a whole group left, the scan stops: cleanly at the end
      of the file, and otherwise at the group that would run past it. */
  lemma RestLast(file: seq<byte>, st: nat, ofs: nat, hds: map<StepKey, Field>, keys: seq<StepKey>,
                 totim: seq<Word>, nlay: nat, nrow: nat, ncol: nat)
    requires nlay > 0 && st == Stride(nlay, nrow, ncol) && ofs <= |file| < ofs + st
    ensures Rest(file, st, ofs, hds, keys, totim, nlay, nrow, ncol) ==
            if ofs < |file| then Truncated(ofs) else Ok(hds, keys, totim)
  {
  }

  /** The closed form, once `k` whole groups are known to be all that fit:
      stated over the scan's own variables. */
  lemma Outcome(fn: Option<seq<byte>>, file: seq<byte>, fsize: nat, st: nat, k: nat, nlay: nat, nrow: nat, ncol: nat)
    requires !Skipped(fn, nlay, nrow, ncol) && file == fn.value && fsize == |file|
    requires st == Stride(nlay, nrow, ncol) && Times(k, st) <= fsize < Times(k, st) + st
    ensures ParseHdsSpec(fn, nlay, nrow, ncol) ==
            if Times(k, st) < fsize then Truncated(Times(k, st))
            else var gs := Groups(file, k, nlay, nrow, ncol);
                 Ok(Collect(gs), Order(gs), Totims(gs))
  {
    FitUnique(fsize, st, k);
  }

  /** Filing one more group updates that group's key and nothing else,
      and lists the key last unless it is already listed. */
  lemma CollectSnoc(gs: seq<seq<HeadRecord>>, g: seq<HeadRecord>)
    requires NonEmpty(gs) && |g| > 0
    ensures NonEmpty(gs + [g])
    ensures Collect(gs + [g]) == Collect(gs)[Key(g) := Layers(g)]
    ensures Order(gs + [g]) == Enlist(Order(gs), Key(g))
    ensures Totims(gs + [g]) == Totims(gs) + [g[0].totim]
  {
    assert (gs + [g])[..|gs|] == gs;
  }

  /** Reading one more group appends the group whose bytes start where
      the previous ones end. */
  lemma GroupsSnoc(file: seq<byte>, k: nat, ofs: nat, st: nat, nlay: nat, nrow: nat, ncol: nat)
    requires st == Stride(nlay, nrow, ncol) && ofs == Times(k, st) && ofs + st <= |file|
    ensures Times(k + 1, st) == ofs + st
    ensures Groups(file, k + 1, nlay, nrow, ncol) ==
            Groups(file, k, nlay, nrow, ncol) + [DecodeGroup(file[ofs..ofs + st], nlay, nrow, ncol)]
  {
    assert k + 1 - 1 == k;
  }

  /** The `i`-th group is decoded from the `stride` bytes at offset
      `Times(i, stride)`. */
  lemma {:induction false} GroupAt(file: seq<byte>, n: nat, st: nat, nlay: nat, nrow: nat, ncol: nat, i: nat)
    requires st == Stride(nlay, nrow, ncol) && Times(n, st) <= |file| && i < n
    ensures Times(i, st) + st <= |file|
    ensures Groups(file, n, nlay, nrow, ncol)[i] == DecodeGroup(file[Times(i, st)..Times(i, st) + st], nlay, nrow, ncol)
  {
    if i < n - 1 {
      GroupAt(file, n - 1, st, nlay, nrow, ncol, i);
    }
  }
}
