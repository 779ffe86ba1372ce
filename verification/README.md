# Structured head file decoder

This project models `parseHDS` from `binParsers.py` of modflow-utils. The
function reads a MODFLOW structured head (`.hds`) file. That file is a
sequence of groups. Each group is one output snapshot and holds `nlay`
records, one per model layer. Each record has a 44-byte header followed
by an `nrow` by `ncol` payload of 4-byte values:

- the header holds `kstp`, `kper`, `pertim`, `totim`, a 16-byte `desc`,
  then `ncol`, `nrow` and `ilay`;
- each `i4` header field is a little-endian two's-complement integer.

The decoder works as follows:

- **Guard.** It returns an empty dictionary when no file name is given
  or a dimension is zero.
- **Scan.** Otherwise it walks the file from offset 0, one group per
  pass. Every pass advances by `nlay * (44 + 4 * nrow * ncol)` bytes.
- **Filing.** Each group's payload is stored as an `nlay × nrow × ncol`
  array under the key `(kper, kstp)`. The key is taken from the group's
  first record. A later group with the same key replaces the array.
- **Key order.** The dictionary lists its keys in order of first
  appearance. Replacing a key's array leaves the key where it was. The
  model keeps this order as the result's `keys`.
- **Times.** Every group appends its first record's `totim` to a list.
- **Errors.** A group that would run past the end of the file makes the
  memory map fail. The model reports this as `Truncated(offset)`, where
  `offset` is where that group starts.

The model has five modules:

- `Seqs` (`seqs.dfy`): fixed-width chunking of sequences, and `Times`
  (`n * w` as a repeated sum).
- `Bytes` (`bytes.dfy`): bytes, 4-byte words, and the `i4` codec.
- `HeadRecord` (`head_record.dfy`): the record layout, with its decoder
  and encoder.
- `HeadFile` (`head_file.dfy`):
  - the decoder as a method with a `while` loop over the byte offset,
    `HeadFile.ParseHds`;
  - the same scan as a function, `Scan` and `Rest`;
  - a closed form, `ParseHdsSpec`. The file holds `Fit(|file|, stride)`
    whole groups, and the result is those groups filed in order, or a
    failure at the first partial group.
  - `ScanIsSpec` proves that the scan computes the closed form.
- `HeadFileProps` (`head_props.dfy`): what the closed form promises about
  whole files. This covers the keys, the last-wins rule, the counts, the
  error cases, the shapes, and the fields that are ignored. It also
  proves a round trip from groups to file bytes and back to the result.

## Model

| member | source | states |
|---|---|---|
| HeadFile.ParseHds | binParsers.py:11-42 | The loop's result is the closed form `ParseHdsSpec` of the input, and also the scan `Scan`. It is `Empty` exactly when the guard holds (no file, or a zero dimension). The loop keeps the offset at `Times(k, stride)`, within the file, after `k` passes. `hds`, `keys` and `totim` are then the dictionary, the key order and the times of the first `k` groups. |
| HeadFile.ParseHdsSpec | binParsers.py:18-42 | The closed form is `Empty` exactly when the guard holds. A failure offset lies less than one stride before the end of the file. On success there are no more keys, and no more entries, than total times. |
| HeadFile.Rest | binParsers.py:24-41 | The passes from a given offset never give `Empty`. What they compute is stated by `RestPrefix`, `RestStep` and `RestLast`. |
| HeadFile.Skipped | binParsers.py:18 | No contract: the guard's condition (no file, or a zero dimension). `Scan` and `ParseHdsSpec` state what it decides. |
| HeadFile.Key | binParsers.py:38-40 | No contract: a group's key is its first record's `(kper, kstp)`. `GroupHeader` states the bytes it comes from, and `KeyIdentity` how keys compare. |
| HeadFile.Layers | binParsers.py:40 | The stored array has one layer per record of the group. `GroupLayer` states which payload each layer is. |
| HeadFile.Enlist | binParsers.py:40 | After storing under a key, the key is listed, and the earlier order is a prefix of the new one. |
| HeadFile.Order | binParsers.py:22-40 | The dictionary lists no more keys than there are groups. |
| HeadFile.Scan | binParsers.py:18-19 | The result is `Empty` exactly when the guard holds. |
| HeadFile.ScanIsSpec | binParsers.py:18-42 | The scan equals the closed form `ParseHdsSpec` on every input. |
| HeadFile.RestPrefix | binParsers.py:24-41 | After `k` passes, with the offset at `Times(k, stride)`, the scan has filed exactly the first `k` groups of the file: their dictionary, its key order and their times. |
| HeadFile.RestStep | binParsers.py:36-41 | One pass decodes the group at the offset and stores its layers under its key. It appends the group's `totim` and moves the offset by one stride. |
| HeadFile.RestLast | binParsers.py:24-36 | With less than a stride left, the scan returns the dictionary when the offset equals the file size. Otherwise it fails at that offset. |
| HeadFile.Outcome | binParsers.py:24-42 | Once `k` whole groups are known to fit, the closed form is the `k` groups filed, or a failure at `Times(k, stride)` when bytes are left over. |
| HeadFile.KeyIdentity | binParsers.py:38-40 | Two keys are equal exactly when their decoded `kper` and `kstp` integers are equal. So comparing keys as raw words is comparing them as the `i4` values the dictionary uses. |
| HeadFile.Stride | binParsers.py:37 | With `nlay > 0`, a pass moves at least one whole record, and so a positive number of bytes. |
| HeadFile.StrideSize | binParsers.py:25-37 | A pass moves `nlay * (44 + 4 * nrow * ncol)` bytes. |
| HeadFile.DecodeGroup | binParsers.py:36 | A group read from its own bytes has `nlay` well-formed records. |
| HeadFile.Groups | binParsers.py:24-37 | The first `n` groups of the file are `n` well-formed groups, each with a first record. |
| HeadFile.GroupAt | binParsers.py:36-37 | Group `i` lies within the file and is decoded from the stride bytes at offset `Times(i, stride)`. |
| HeadFile.GroupsSnoc | binParsers.py:36-37 | Reading one more group appends the group whose bytes start where the previous groups end. |
| HeadFile.GroupsNext | binParsers.py:36-37 | `GroupsSnoc` with the counts and offsets passed by name: the next offset is `Times(k, stride)`. |
| HeadFile.Collect | binParsers.py:40 | The dictionary filed from a list of groups has no more entries than there are groups. |
| HeadFile.CollectSnoc | binParsers.py:40-41 | Filing one more group updates that group's key and no other key. It lists the key last unless it is already listed. It appends that group's `totim` to the times. |
| HeadFile.Totims | binParsers.py:41 | There is one total time per group. |
| HeadFile.FitBounds | binParsers.py:24-37 | `Fit(size, stride)` whole strides reach at most `size`, and one more stride would pass it. |
| HeadFile.FitUnique | binParsers.py:24-37 | Any count of strides with those bounds is `Fit(size, stride)`. |
| HeadRecord.RecordSize | binParsers.py:25-35 | A record takes `44 + 4 * nrow * ncol` bytes. |
| HeadRecord.RecordBytes | binParsers.py:25-35 | A record is at least the 44-byte header. |
| HeadRecord.DecodeRecord | binParsers.py:25-36 | A record decoded from its bytes has a 16-byte `desc` and an `nrow` by `ncol` payload, shaped by the caller's dimensions. |
| HeadRecord.DecodeGrid | binParsers.py:34 | A decoded payload has `nrow` rows of `ncol` words. |
| HeadRecord.DecodeRow | binParsers.py:34 | A decoded payload row has `ncol` words. |
| HeadRecord.RecordRoundTrip | binParsers.py:25-35 | Encoding a well-formed record takes exactly one record's bytes, and decoding those bytes gives the record back. |
| HeadRecord.RecordBytesRoundTrip | binParsers.py:25-35 | Re-encoding a decoded record reproduces its bytes: the layout has no gaps. |
| HeadRecord.GridRoundTrip | binParsers.py:34 | An encoded payload has the payload's size and decodes back to the payload. |
| HeadRecord.GridBytesRoundTrip | binParsers.py:34 | Re-encoding a decoded payload reproduces its bytes. |
| Bytes.DecodeI32 | binParsers.py:26-27 | A decoded `i4` lies in the 32-bit signed range. It is negative exactly when the top bit of the last byte is set. |
| Bytes.EncodeI32 | binParsers.py:26-27 | Encoding a 32-bit integer and decoding it gives the integer back. |
| Bytes.EncodeDecodeI32 | binParsers.py:26-27 | Every 4-byte pattern is the encoding of the integer it decodes to. |
| Seqs.TimesIsMul | binParsers.py:37 | The repeated sum `Times(n, w)` equals `n * w`. |
| Seqs.ChunkAt | binParsers.py:36-37 | Chunk `i` is the `w` elements starting at `Times(i, w)`. |
| Seqs.ChunksConcat | binParsers.py:34-36 | Cutting glued pieces of width `w` gives the same pieces back. |
| Seqs.ConcatChunks | binParsers.py:34-36 | Gluing the chunks of a sequence gives the sequence back. |
| HeadFileProps.CollectKeys | binParsers.py:38-40 | The dictionary's keys are exactly the groups' keys. |
| HeadFileProps.LastWins | binParsers.py:40 | A group whose key no later group repeats is the one stored under that key. |
| HeadFileProps.DistinctIffFull | binParsers.py:16-41 | The dictionary has at most one entry per group. It has exactly one per group, and so as many entries as `totim`, if and only if no `(kper, kstp)` key repeats. |
| HeadFileProps.DistinctSnoc | binParsers.py:40 | One more group keeps the keys distinct exactly when the earlier keys are distinct and the new key is not yet filed. |
| HeadFileProps.DistinctPrefix | binParsers.py:40 | When the keys are distinct, the earlier keys are distinct and differ from the last key. |
| HeadFileProps.DistinctExtend | binParsers.py:40 | When the earlier keys are distinct and the new key is not yet filed, all keys are distinct. |
| HeadFileProps.CollectObservable | binParsers.py:38-41 | Groups that agree on the first record's `kper`, `kstp` and `totim`, and on every record's payload, give the same dictionary, the same key order and the same times. |
| HeadFileProps.CollectFacts | binParsers.py:38-41 | The dictionary is filed from its groups. Its size is bounded, with equality exactly when the keys are distinct. Its keys are exactly the groups' keys, and the last group under each key wins. |
| HeadFileProps.GroupHeader | binParsers.py:26-41 | A group's key is `(kper, kstp)` from bytes 4..8 and 0..4 of its first record. Its total time is bytes 12..16. |
| HeadFileProps.GroupLayer | binParsers.py:34-40 | Layer `j` of a stored array is the payload of the group's `j`-th record. |
| HeadFileProps.GroupHeaderAt | binParsers.py:36-41 | A group read at offset `o` of the file takes its key from bytes `o+4..o+8` and `o..o+4`, and its total time from `o+12..o+16`. |
| HeadFileProps.GroupKeyInFile | binParsers.py:36-41 | Group `i` lies at offset `Times(i, stride)`, and its key and total time are read from the bytes there. |
| HeadFileProps.FileOutcome | binParsers.py:24-42 | With positive dimensions, the result is never `Empty`. It is `Ok` exactly when the whole groups fill the file, and it then holds those groups filed in order. Otherwise it fails just past the last whole group. |
| HeadFileProps.FitIsDiv | binParsers.py:24-37 | The number of whole groups is the file size divided by the stride, and the bytes left over are the remainder. |
| HeadFileProps.WholeGroups | binParsers.py:24-37 | Decoding succeeds exactly when the file size is a multiple of the stride. Then `len(totim) * stride` is the file size. A failure offset is a multiple of the stride, less than a stride before the end of the file. |
| HeadFileProps.OneByteShort | binParsers.py:36 | Dropping the last byte of a non-empty file that decodes makes its last group fail, at the offset where that group starts. |
| HeadFileProps.ResultCounts | binParsers.py:16-42 | On success, `totim` is one entry per group in file order, and the dictionary is filed from those groups. `keys` lists each stored key once. When no key repeats, `keys[i]` is group `i`'s key and holds the array whose time is `totim[i]`. |
| HeadFileProps.OrderKeys | binParsers.py:22-40 | The key order lists each key of the dictionary exactly once, and no other key. |
| HeadFileProps.OrderPrefix | binParsers.py:40 | Once listed, a key keeps its place: the order after the first `k` groups is a prefix of the final order. |
| HeadFileProps.FirstPlace | binParsers.py:40 | A key is listed where its first group was filed, right after the keys of the groups before it, and later groups with the same key do not move it. |
| HeadFileProps.OrderMatchesTimes | binParsers.py:14-41 | When no key repeats, there is one listed key per group, and the `i`-th listed key is group `i`'s key. So the keys line up with `totim`, as the docstring says. |
| HeadFileProps.OrderFacts | binParsers.py:14-41 | The key order lists the dictionary, as `ListedFrom` states: each key once, and, when no key repeats, key `i` holds group `i`'s array. |
| HeadFileProps.CollectShapes | binParsers.py:34-40 | Every array filed from well-formed groups is `nlay × nrow × ncol`. |
| HeadFileProps.FieldShapes | binParsers.py:34-40 | Every stored array is `nlay × nrow × ncol`, whatever the headers say. |
| HeadFileProps.OnlySizeShapesOutcome | binParsers.py:20-37 | Two files of the same size give the same kind of outcome, the same number of total times and the same failure offset. The header bytes never change the stride. |
| HeadFileProps.GroupRoundTrip | binParsers.py:25-36 | A well-formed group encodes to one stride of bytes, and those bytes decode back to the group. |
| HeadFileProps.FileRoundTrip | binParsers.py:24-42 | A file built from known groups decodes to exactly those groups' payloads under their keys, with the keys in order of first appearance, and to their total times in order. |
| HeadFileProps.GroupsOfChunks | binParsers.py:36-37 | Bytes made of whole groups' bytes read back as those groups. |
| HeadFileProps.IgnoredFields | binParsers.py:28-41 | Files whose groups differ only in `pertim`, `desc`, the header's `ncol`, `nrow` and `ilay`, and the `kper`, `kstp` and `totim` of records after the first, decode to the same result. |

## Left out

- The file system is not modelled:
  - the file is an optional in-memory byte sequence, `None` for a missing name;
  - `os.path.getsize` is its length;
  - `np.memmap` is slicing.

  Errors from opening or reading the file are therefore not modelled. A missing file on disk is one of them.
- The `.copy()` of each group's payload is not modelled: a value model has no aliasing.
- The `f4` fields `pertim`, `totim` and the payload are kept as opaque 4-byte words. The decoder does no arithmetic on them, so IEEE-754 semantics are not modelled.
- The early `return {}` is the result `Empty`, apart from the `(dict, array)` pair of the other path. The final `np.asarray` conversion of `totim` is not modelled: the times are a sequence of words.
- Negative dimensions are not modelled, because the model's dimensions are natural numbers. The guard tests only for zero, so a negative dimension reaches the loop. On an empty file the loop never runs, and the source returns an empty dictionary and an empty time array. On a non-empty file numpy fails as soon as the first group is read.
- The `i4` fields are kept as the words they were read from. Keys are pairs of words. `HeadFile.KeyIdentity` shows that equal words mean equal integers, so the dictionary behaves as with integer keys.
- numpy's `i4` and `f4` use the host's native byte order. The model fixes it as little-endian. A big-endian host reading the same file is not modelled.
- `desc` is kept as its 16 raw bytes. numpy's stripping of trailing NUL bytes does not reach the result, so it is not modelled.
