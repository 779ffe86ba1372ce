/** The fixed byte layout of one structured head record: a 44-byte header
    followed by `nrow * ncol` 4-byte values, with no padding anywhere. */
module HeadRecord {
  import opened Bytes
  import opened Seqs

  const WORD_BYTES: nat := 4
  const DESC_BYTES: nat := 16
  /** kstp 4, kper 4, pertim 4, totim 4, desc 16, ncol 4, nrow 4, ilay 4. */
  const HEADER_BYTES: nat := 44

  /** Bytes of one payload row of `ncol` values. */
  function RowBytes(ncol: nat): nat {
    Times(ncol, WORD_BYTES)
  }

  /** Bytes of an `nrow` by `ncol` payload. */
  function GridBytes(nrow: nat, ncol: nat): nat {
    Times(nrow, RowBytes(ncol))
  }

  /** Bytes of one record: header plus an `nrow` by `ncol` payload. */
  function RecordBytes(nrow: nat, ncol: nat): (n: nat)
    ensures n >= HEADER_BYTES
  {
    HEADER_BYTES + GridBytes(nrow, ncol)
  }

  /** A record takes 44 bytes of header and 4 bytes per value. */
  lemma RecordSize(nrow: nat, ncol: nat)
    ensures RecordBytes(nrow, ncol) == 44 + 4 * nrow * ncol
  {
    TimesIsMul(ncol, WORD_BYTES);
    TimesIsMul(nrow, RowBytes(ncol));
    assert nrow * (ncol * 4) == 4 * nrow * ncol;
  }

  /** One decoded record. Every field is kept as the bytes it was read
      from: the `i4` fields `kstp`, `kper`, `ncol`, `nrow` and `ilay` as
      4-byte words whose value is `DecodeI32` of them, the `f4` fields
      `pertim`, `totim` and the payload values as opaque words, and `desc`
      as the raw 16-byte label. */
  datatype HeadRecord = HeadRecord(
    kstp: Word, kper: Word, pertim: Word, totim: Word, desc: seq<byte>,
    ncol: Word, nrow: Word, ilay: Word, data: seq<seq<Word>>)

  /** `data` has `nrow` rows of `ncol` values each. */
  predicate Shaped(data: seq<seq<Word>>, nrow: nat, ncol: nat) {
    |data| == nrow && forall i :: 0 <= i < nrow ==> |data[i]| == ncol
  }

  /** A record that fits the layout for the given payload dimensions. */
  predicate WellFormed(r: HeadRecord, nrow: nat, ncol: nat) {
    |r.desc| == DESC_BYTES && Shaped(r.data, nrow, ncol)
  }

  function DecodeRow(s: seq<byte>, ncol: nat): (row: seq<Word>)
    requires |s| == RowBytes(ncol)
    ensures |row| == ncol
  {
    var ws := Chunks(s, WORD_BYTES, ncol);
    seq(ncol, j requires 0 <= j < ncol => ws[j])
  }

  function DecodeGrid(s: seq<byte>, nrow: nat, ncol: nat): (g: seq<seq<Word>>)
    requires |s| == GridBytes(nrow, ncol)
    ensures Shaped(g, nrow, ncol)
  {
    var rows := Chunks(s, RowBytes(ncol), nrow);
    seq(nrow, i requires 0 <= i < nrow => DecodeRow(rows[i], ncol))
  }

  /** Decodes one record from exactly its own bytes. Only the caller's
      `nrow` and `ncol` size the payload; the header's own `ncol` and
      `nrow` fields are read but play no part in it. */
  function DecodeRecord(s: seq<byte>, nrow: nat, ncol: nat): (r: HeadRecord)
    requires |s| == RecordBytes(nrow, ncol)
    ensures WellFormed(r, nrow, ncol)
  {
    HeadRecord(
      s[0..4], s[4..8], s[8..12], s[12..16], s[16..32],
      s[32..36], s[36..40], s[40..44],
      DecodeGrid(s[HEADER_BYTES..], nrow, ncol))
  }

  function EncodeGrid(g: seq<seq<Word>>): seq<byte> {
    Concat(seq(|g|, i requires 0 <= i < |g| => Concat(g[i])))
  }

  /** Lays a record out in the file format. */
  function EncodeRecord(r: HeadRecord): seq<byte>
  {
    r.kstp + r.kper + r.pertim + r.totim + r.desc +
    r.ncol + r.nrow + r.ilay + EncodeGrid(r.data)
  }

  lemma {:induction false} GridRoundTrip(g: seq<seq<Word>>, nrow: nat, ncol: nat)
    requires Shaped(g, nrow, ncol)
    ensures |EncodeGrid(g)| == GridBytes(nrow, ncol)
    ensures DecodeGrid(EncodeGrid(g), nrow, ncol) == g
  {
    var rows := seq(|g|, i requires 0 <= i < |g| => Concat(g[i]));
    forall i | 0 <= i < nrow
      ensures |rows[i]| == RowBytes(ncol) && DecodeRow(rows[i], ncol) == g[i]
    {
      ChunksConcat(g[i], WORD_BYTES);
    }
    ChunksConcat(rows, RowBytes(ncol));
  }

  lemma {:induction false} GridBytesRoundTrip(s: seq<byte>, nrow: nat, ncol: nat)
    requires |s| == GridBytes(nrow, ncol)
    ensures EncodeGrid(DecodeGrid(s, nrow, ncol)) == s
  {
    var chunks := Chunks(s, RowBytes(ncol), nrow);
    var g := DecodeGrid(s, nrow, ncol);
    var rows := seq(|g|, i requires 0 <= i < |g| => Concat(g[i]));
    forall i | 0 <= i < nrow
      ensures rows[i] == chunks[i]
    {
      ConcatChunks(chunks[i], WORD_BYTES, ncol);
      assert g[i] == Chunks(chunks[i], WORD_BYTES, ncol);
    }
    assert rows == chunks;
    ConcatChunks(s, RowBytes(ncol), nrow);
  }

  /** Decoding the bytes of a well-formed record gives the record back. */
  lemma RecordRoundTrip(r: HeadRecord, nrow: nat, ncol: nat)
    requires WellFormed(r, nrow, ncol)
    ensures |EncodeRecord(r)| == RecordBytes(nrow, ncol)
    ensures DecodeRecord(EncodeRecord(r), nrow, ncol) == r
  {
    GridRoundTrip(r.data, nrow, ncol);
    var s := EncodeRecord(r);
    assert s[0..4] == r.kstp;
    assert s[4..8] == r.kper;
    assert s[8..12] == r.pertim;
    assert s[12..16] == r.totim;
    assert s[16..32] == r.desc;
    assert s[32..36] == r.ncol;
    assert s[36..40] == r.nrow;
    assert s[40..44] == r.ilay;
    assert s[HEADER_BYTES..] == EncodeGrid(r.data);
  }

  /** The layout has no gaps: every byte of a record belongs to exactly one
      field, so re-encoding a decoded record reproduces its bytes. */
  lemma RecordBytesRoundTrip(s: seq<byte>, nrow: nat, ncol: nat)
    requires |s| == RecordBytes(nrow, ncol)
    ensures EncodeRecord(DecodeRecord(s, nrow, ncol)) == s
  {
    GridBytesRoundTrip(s[HEADER_BYTES..], nrow, ncol);
    assert s == s[0..4] + s[4..8] + s[8..12] + s[12..16] + s[16..32] +
                s[32..36] + s[36..40] + s[40..44] + s[HEADER_BYTES..];
  }
}
