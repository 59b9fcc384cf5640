# CGF archive opener, modelled in Dafny

This project models the reading side of `ExCGF.py` from Triangle-Engine-Tools: the CGF
archive index decoder `CgfOpener.try_open`, its two sanity checks, the entry records it
builds, the byte transform of `extract_file`, and the exact-name lookup of `--extract`.

A CGF archive starts with a little-endian u32 `count`, followed by `count` index records of
0x14 or 0x20 bytes each. Each record holds a NUL-padded name, then a packed u32 whose top
two bits are flags and whose low 30 bits are the offset of the entry's payload. The record
size is not stored. The opener probes the packed field at 0x14 and at 0x20 and takes the
first size for which `4 + count * size` equals the probed offset. Each entry runs up to the
next record's offset. The last entry runs up to the (masked) file length.

Modules:

- `Wrappers` (`wrappers.dfy`): `Option` and `Result`.
- `CgfFormat` (`cgf_format.dfy`): bytes, `LE32`, the offset mask and flag bits, the count
  and name checks, NUL stripping, the `.iaf` test, and the `Entry`/`ArcFile` records with the
  per-record classification `MakeEntry`.
- `CgfOpener` (`cgf_opener.dfy`): the specification `Open`, and `TryOpen`/`ReadIndex`.
  - `Open` is one function of the file image. It is built from `Layout` (record-size
    detection), `ScanIndex` (how the record loop ends) and `Directory` (one entry per
    record).
  - `TryOpen`/`ReadIndex` follow the source's control flow and loop, and are proved to
    compute `Open`.
  - The lemmas state what an opened directory is.
- `CgfExtract` (`cgf_extract.dfy`): the read of an entry's bytes and the 7-zero-byte
  header transform.
- `CgfLookup` (`cgf_lookup.dfy`): the first-match name lookup.
- `CgfBuild` (`cgf_build.dfy`): a writer of archives, the inverse of the opener. Given a
  record size, a list of records (name, flags, offset) and a payload, it lays out the count,
  the NUL-padded records and the payload. `OpenRecoversIndex` proves that `Open` reads back
  every record.
  - The writer's side conditions (`Writable`) are what the opener needs: a sane count (1 to
    99999 records); names that fit, are valid and do not end in NUL; flags and offsets that
    fit in 2 and 30 bits; the first offset right after the index; at least 0x24 bytes in all.
  - For 0x20-byte records there is one more condition. Record 0's name bytes at file
    offset 0x14 must not happen to satisfy the 0x14 layout's equation, because that layout
    is tested first.

The archive file is an immutable `seq<byte>`, and its length stands for `file.tell()` after
seeking to the end. Names are byte strings.

The source's `return None` paths become `Failure(BadCount)`, `Failure(NoLayout)` and
`Failure(BadName(i))`. A `struct.unpack` on fewer than 4 bytes raises `struct.error` in the
source. The model gives that case its own value, `Failure(ShortRead)`.

Where documented behaviour and the code differ, the model follows the code:

- Both branches of the classification build an entry of type `"image"`. Only the presence of
  `flags` distinguishes a `CgfEntry` from a plain `Entry` (ExCGF.py:67-70). The model does
  not use a separate "generic" kind.
- The packed field at 0x20 is read before either layout is tested (ExCGF.py:34-35). So every
  file shorter than 0x24 bytes whose count is sane raises, even a well-formed one-record
  archive with 0x14-byte records and a small payload. (With a count that is not sane it
  returns `None` first; under 4 bytes the count read itself raises.) `OpenNeedsBothProbes` states this.
- The file length is masked with `& ~0xC0000000` like the stored offsets (ExCGF.py:65). On
  Python's unbounded integers this clears bits 30 and 31 and keeps higher bits. As a result,
  "sizes + index + 4 == file length" is guaranteed only when bits 30 and 31 of the length are
  clear, as in every file under 2^30 bytes (`SizesFillFile`).
  In general the sizes add up to the masked length minus the index (`SizesSum`).

## Model

| member | source | states |
|---|---|---|
| CgfFormat.LE32 | ExCGF.py:28 | a `<I` read is a value below 2^32 whose four base-256 digits, lowest first, are the four bytes read |
| CgfFormat.MaskSpec | ExCGF.py:57 | `x & ~0xC0000000` keeps every bit below 30 and above 31 of `x`, clears bits 30 and 31, and never increases `x` |
| CgfFormat.MaskBelow30 | ExCGF.py:65 | the under-1-GiB case of `MaskBitsClear`: a value below 2^30, such as a file length under 1 GiB, is left unchanged by the mask |
| CgfFormat.MaskBitsClear | ExCGF.py:65 | a value whose bits 30 and 31 are clear, such as a 2^32-byte file length, is left unchanged by the mask |
| CgfFormat.PackedFieldSplits | ExCGF.py:56-57 | a packed u32 is exactly its flags (below 4) times 2^30 plus its offset (below 2^30) |
| CgfFormat.IsSaneCount | ExCGF.py:77-78 | a sane count has at least one record, and its index block ends below 2^30 for either record size, so a 30-bit offset can point just past it |
| CgfFormat.IsValidEntryName | ExCGF.py:80-82 | a valid name is non-empty and holds no slash, backslash or colon, so it is a single path component; a non-empty name is rejected only when it holds a forbidden character |
| CgfFormat.IafSuffixCases | ExCGF.py:67 | a name ends in `.iaf` in the sense of `lower().endswith` exactly when its last four bytes are a dot, then `i` or `I`, `a` or `A`, `f` or `F` |
| CgfFormat.MakeEntry | ExCGF.py:56-70 | an entry keeps the record's name, has type "image", and ends at the masked next offset; for a u32 field its offset is below 2^30 and, with the flag bits, rebuilds the field; it carries flags exactly when the flag bits are not 1 and the name does not end in `.iaf`, and then they are the flag bits |
| CgfFormat.StripNulsSpec | ExCGF.py:52 | `rstrip('\0')` keeps a prefix that does not end in NUL and removes only NUL bytes |
| CgfOpener.Layout | ExCGF.py:37-44 | the 0x14 layout is chosen whenever its equation holds; 0x20 is chosen exactly when only the 0x20 equation holds; there is no layout exactly when neither holds |
| CgfOpener.ScanIndex | ExCGF.py:51-63 | if the record loop passes every record, the whole index block lies inside the file; a name rejection names a record between the current one and the last |
| CgfOpener.ScanPassesIff | ExCGF.py:51-63 | the record loop passes every record from `i` on exactly when the index block fits in the file and every remaining name is valid |
| CgfOpener.ScanFailure | ExCGF.py:51-63 | a loop that stops early either names the first record with an invalid name, or the index block runs past the end of the file after every name that lies inside the file was found valid |
| CgfOpener.Open | ExCGF.py:26-74 | a file shorter than 0x24 bytes never opens; an opened archive keeps its filename and has one entry per counted record; a name rejection names one of the counted records |
| CgfOpener.TryOpen | ExCGF.py:26-74 | the step-by-step opener (count check, two probes, layout choice, record loop) returns exactly `Open` of the file image |
| CgfOpener.ReadIndex | ExCGF.py:46-72 | the record loop, carrying the packed field of the next record, returns the loop's first failure or else one entry per record in index order |
| CgfOpener.RecordName | ExCGF.py:52 | a record's name is its name bytes with the trailing NUL padding removed and nothing else removed |
| CgfOpener.OpenSucceedsIff | ExCGF.py:26-74 | all or nothing: an open yields a directory exactly when the file is at least 0x24 bytes, the count is sane, a layout fits, the index lies inside the file and every name is valid |
| CgfOpener.OpenedDirectory | ExCGF.py:50-74 | an opened archive keeps its filename and has exactly `count` entries, entry `i` being built from record `i` |
| CgfOpener.OpenRejectsBadName | ExCGF.py:51-54 | a rejection for a bad name reports the first record whose name is empty or holds a forbidden character (backslash, slash, colon, star, question mark, double quote, angle bracket or vertical bar), and every earlier name is valid |
| CgfOpener.OpenRejectsInsaneCount | ExCGF.py:28-30 | a count of 0 or of at least 100000 is rejected before anything else is read |
| CgfOpener.OpenNeedsBothProbes | ExCGF.py:32-35 | a file shorter than 0x24 bytes never opens; with a sane count one of the two probe reads comes up short |
| CgfOpener.OpenRejectsWithoutLayout | ExCGF.py:37-44 | when neither the 0x14 nor the 0x20 equation holds, the open fails |
| CgfOpener.OpenedEntryFields | ExCGF.py:52-70 | entry `i` has record `i`'s valid name and type "image"; its offset is the low 30 bits of record `i`'s packed field; it has flags exactly when the top two bits are not 1 and the name does not end in `.iaf` in any case, and those flags are the top two bits |
| CgfOpener.OpenedEntryName | ExCGF.py:52-53 | entry `i`'s name is a non-empty prefix of record `i`'s name bytes, does not end in NUL, and only NULs follow it in the record |
| CgfOpener.FirstEntryOffset | ExCGF.py:37-57 | the first entry starts right after the index block, at `4 + count * record_size` |
| CgfOpener.EntriesContiguous | ExCGF.py:59-65 | each entry ends where the next one begins, and the last one ends at the masked file length |
| CgfOpener.SizesTelescope | ExCGF.py:65 | the sizes of contiguous entries add up to the span from the first offset to the end |
| CgfOpener.SizesSum | ExCGF.py:59-65 | the entry sizes add up to the masked file length minus the 4-byte count and the index block |
| CgfOpener.SizesFillFile | ExCGF.py:59-65 | in a file whose length has bits 30 and 31 clear (every file under 2^30 bytes among them), the count, the index block and the entries fill the file exactly |
| CgfExtract.ReadAt | ExCGF.py:92-93 | `seek` then `read(size)` raises exactly when `size` is below -1; otherwise it returns the file's bytes from the offset: `size` of them, or up to the end of the file when it ends first or when `size` is -1, and none past the end |
| CgfExtract.ExtractedBytes | ExCGF.py:89-99 | the output is seven zero bytes, then the content from its fourth byte on |
| CgfExtract.ExtractionKeepsAllButHeader | ExCGF.py:96 | two contents of at least 3 bytes give the same output exactly when they agree from byte 3 on |
| CgfExtract.ContiguousRangesOrdered | ExCGF.py:59-65 | contiguous entries with non-negative sizes are in increasing order and do not overlap |
| CgfExtract.EntriesWithinFile | ExCGF.py:59-65 | in an opened file with non-negative sizes, every entry lies between the end of the index and the end of the file, and no two entries overlap |
| CgfExtract.Extract | ExCGF.py:84-99 | extraction fails (the read raises) exactly when the entry's size is below -1; otherwise the output is seven zero bytes, then the file's bytes from the entry's fourth byte on; for an entry of at least 3 bytes inside the file, `size + 4` bytes in all |
| CgfExtract.ExtractInsideFile | ExCGF.py:84-99 | an entry of at least 3 bytes lying inside the file extracts to seven zero bytes followed by its bytes from the fourth on |
| CgfExtract.ExtractOpenedEntry | ExCGF.py:84-99 | in an opened archive whose sizes are all non-negative, extracting an entry of at least 3 bytes writes seven zero bytes, then the entry's bytes from its fourth byte on: `size + 4` bytes in all |
| CgfLookup.FindByName | ExCGF.py:124-129 | the lookup returns the first entry whose name equals the requested name, and reports "not found" exactly when no entry has that name |
| CgfBuild.EncodeLE32 | ExCGF.py:28 | writing a u32 as four little-endian bytes is undone by the `<I` read |
| CgfBuild.PackedUnpacks | ExCGF.py:56-57 | packing flags below 4 and an offset below 2^30 into a u32 is undone by `>> 30` and by the mask |
| CgfBuild.StripNulsPadding | ExCGF.py:52 | a name that does not end in NUL, padded with any number of NULs, comes back unchanged from `rstrip('\0')` |
| CgfBuild.ReadsBackName | ExCGF.py:52 | in a written archive, the name the opener reads for record `i` is the name written there |
| CgfBuild.ReadsBackField | ExCGF.py:63 | in a written archive, the packed field the opener reads for record `i` is the one written there |
| CgfBuild.BuiltLayout | ExCGF.py:32-44 | the opener settles on the record size the archive was written with |
| CgfBuild.BuiltIsWellFormed | ExCGF.py:26-54 | a written archive passes every check of the opener, and its count reads back as the number of records |
| CgfBuild.EntryOfRecord | ExCGF.py:56-70 | the entry built from a written packed field keeps the written offset and flags, with flags dropped when they are 1 or the name ends in `.iaf` |
| CgfBuild.RecordEntryRecovers | ExCGF.py:52-70 | record `i` of a written archive decodes to the written name, offset and flags, with a size running to the next written offset or to the masked file length |
| CgfBuild.OpenRecoversIndex | ExCGF.py:26-74 | round trip: opening a written archive succeeds and recovers the count and, for every record, its name, offset, flags and size |
| CgfLookup.InvalidNameNeverFound | ExCGF.py:124-129 | a requested name that no opened entry could carry (empty, or holding a forbidden character) is never found |

## Left out

- Opening the archive by path, `seek` and `read` on a file handle, and closing it. The
  archive is its byte image, and a read past the end is a shorter slice.
- The command line (`main`, `argparse`, the `--list` listing and every `print`), except the
  lookup loop of `--extract`. Running `--all` applies `Extract` to the
  entries in index order and stops at the first one for which it is `None`.
- `extract_file`'s `os.makedirs`, the output path and the file writes. `Extract` returns the
  bytes that would be written.
- CgfExtract.ReadAt: a size below -1 gives `None` in place of the `ValueError` that the
  buffered `read` raises. An opened archive can carry such a size, because the sizes are
  differences of offsets.
- CgfExtract.Extract: when the read raises, `extract_file` has already written the four leading
  zero bytes to the output file and the exception escapes; the model returns `None` and does
  not model that partial output file.
- UTF-8 decoding of names. Names stay byte strings, and the `UnicodeDecodeError` that invalid
  UTF-8 raises is not modelled. `lower()` is modelled on ASCII letters only. Comparing the
  forbidden characters byte by byte agrees with comparing characters, because UTF-8 never
  uses ASCII bytes inside multi-byte characters.
- The propagation of the `struct.error` raised by a short `struct.unpack`. The model returns
  it as the error value `ShortRead`, kept apart from the three `return None` cases. In the
  source the exception escapes `try_open` and `main` uncaught, instead of reaching the
  "Failed to open" message.
- Calling `try_open` twice on the same bytes giving the same directory is not stated as a
  lemma. `Open` is a function of the bytes, so it holds by construction.
- CgfOpener.SizesFillFile: stated only when bits 30 and 31 of the file length are clear,
  which includes every file under 2^30 bytes. The general statement is `SizesSum`, because
  the source masks the file length.
- CgfExtract.EntriesWithinFile: stated only for files whose entries all have non-negative
  sizes. An index whose offsets decrease yields negative sizes, and those
  entries do overlap.
- CgfExtract.ExtractOpenedEntry: stated for entries of at least 3 bytes in a file whose sizes
  are all non-negative.
  Shorter contents are covered by `ExtractedBytes`.
