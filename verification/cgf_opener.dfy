/**
 * `CgfOpener.try_open` (ExCGF.py, lines 24-74): recognises a CGF archive from
 * its bytes alone and rebuilds its directory. The file is an immutable byte
 * sequence; its length stands for `file.tell()` after seeking to the end.
 *
 * `Open` is the specification (one function of the file image), `TryOpen` the
 * record-by-record loop of the source, proved to compute `Open`; the lemmas
 * state what an opened directory looks like.
 */
module CgfOpener {
  import opened Wrappers
  import opened CgfFormat

  /** Why an open produced no directory. */
  datatype OpenError =
    | BadCount           // the count is not sane: `return None`
    | NoLayout           // neither record size is self-consistent: `return None`
    | BadName(index: nat) // record `index` holds an invalid name: `return None`
    | ShortRead          // `struct.unpack` got fewer than 4 bytes: raises `struct.error`

  function Min(a: int, b: int): int { if a <= b then a else b }

  /** The two index-record sizes the format knows. */
  predicate IsRecordSize(rs: nat)
  {
    rs == 0x14 || rs == 0x20
  }

  /**
   * Under record size `rs`, record 0's packed field sits at file offset `rs`;
   * the layout fits when that field's offset is the end of the index block.
   */
  predicate Fits(data: seq<byte>, count: nat, rs: nat)
    requires rs + 4 <= |data|
  {
    4 + count * rs == Mask(U32At(data, rs))
  }

  /** The record size the opener settles on: 0x14 is tried before 0x20. */
  function Layout(data: seq<byte>): (r: Option<nat>)
    requires |data| >= 0x24
    ensures r.Some? ==> IsRecordSize(r.value) && Fits(data, U32At(data, 0), r.value)
    ensures r.None? <==> forall rs :: IsRecordSize(rs) ==> !Fits(data, U32At(data, 0), rs)
    ensures Fits(data, U32At(data, 0), 0x14) ==> r == Some(0x14)
    ensures r == Some(0x20) <==> !Fits(data, U32At(data, 0), 0x14) && Fits(data, U32At(data, 0), 0x20)
  {
    var count := U32At(data, 0);
    if Fits(data, count, 0x14) then Some(0x14)
    else if Fits(data, count, 0x20) then Some(0x20)
    else None
  }

  /**
   * The name of record `i`: its first `rs - 4` bytes without their NUL
   * padding. Like Python's slicing, the slice stops at the end of the file.
   */
  function NameAt(data: seq<byte>, rs: nat, i: nat): seq<byte>
    requires IsRecordSize(rs)
  {
    StripNuls(data[Min(|data|, 4 + i * rs) .. Min(|data|, i * rs + rs)])
  }

  /** The packed trailing u32 of record `i`, at file offset `(i + 1) * rs`. */
  function FieldAt(data: seq<byte>, rs: nat, i: nat): nat
    requires i * rs + rs + 4 <= |data|
  {
    U32At(data, i * rs + rs)
  }

  /** Record `i` ends inside an index block of `count` records. */
  lemma RecordInIndex(i: nat, count: nat, rs: nat)
    requires i < count
    ensures 0 <= i * rs && i * rs + rs <= count * rs
    ensures (i + 1) * rs == i * rs + rs
  {
    var d := count - (i + 1);
    assert count * rs == (i + 1) * rs + d * rs;
  }

  /**
   * Record `i` can be read together with the field that bounds it: its own
   * packed field and, unless it is the last record, the next record's.
   */
  predicate RecordReadable(data: seq<byte>, count: nat, rs: nat, i: nat)
  {
    && i < count
    && i * rs + rs + 4 <= |data|
    && (i + 1 < count ==> (i + 1) * rs + rs + 4 <= |data|)
  }

  /**
   * The entry of record `i`: its size runs up to the next record's offset,
   * or to the (masked) file length for the last record.
   */
  function RecordEntry(data: seq<byte>, count: nat, rs: nat, i: nat): Entry
    requires IsRecordSize(rs) && RecordReadable(data, count, rs, i)
  {
    var next := if i + 1 == count then |data| else FieldAt(data, rs, i + 1);
    MakeEntry(NameAt(data, rs, i), FieldAt(data, rs, i), next)
  }

  /** Every record of an index block that lies inside the file can be read. */
  lemma IndexReadable(data: seq<byte>, count: nat, rs: nat, i: nat)
    requires i < count && 4 + count * rs <= |data|
    ensures RecordReadable(data, count, rs, i)
  {
    RecordInIndex(i, count, rs);
    if i + 1 < count {
      RecordInIndex(i + 1, count, rs);
    }
  }

  /** The directory of an index block inside the file: one entry per record, in index order. */
  function Directory(data: seq<byte>, count: nat, rs: nat): seq<Entry>
    requires IsRecordSize(rs) && 4 + count * rs <= |data|
  {
    seq(count, i requires 0 <= i < count =>
      IndexReadable(data, count, rs, i); RecordEntry(data, count, rs, i))
  }

  /** A sequence holding each record's entry, in order, is the directory. */
  lemma DirectoryOfRecords(data: seq<byte>, count: nat, rs: nat, dir: seq<Entry>)
    requires IsRecordSize(rs) && 4 + count * rs <= |data| && |dir| == count
    requires forall k :: 0 <= k < count ==>
      RecordReadable(data, count, rs, k) && dir[k] == RecordEntry(data, count, rs, k)
    ensures dir == Directory(data, count, rs)
  {
  }

  /** Every check the opener makes passes. */
  predicate WellFormed(data: seq<byte>)
  {
    && |data| >= 0x24
    && IsSaneCount(U32At(data, 0))
    && Layout(data).Some?
    && 4 + U32At(data, 0) * Layout(data).value <= |data|
    && forall i :: 0 <= i < U32At(data, 0) ==> IsValidEntryName(NameAt(data, Layout(data).value, i))
  }

  /**
   * How the record loop of `try_open` ends, from record `i` on: each record's
   * name is checked, then the next record's field is read, which may come up
   * short. `None` when every remaining record passes; the index block then
   * lies inside the file.
   */
  function ScanIndex(data: seq<byte>, count: nat, rs: nat, i: nat): (r: Option<OpenError>)
    requires IsRecordSize(rs) && i < count && i * rs + rs + 4 <= |data|
    decreases count - i
    ensures r.None? ==> 4 + count * rs <= |data|
    ensures r.Some? && r.value.BadName? ==> i <= r.value.index < count
  {
    if !IsValidEntryName(NameAt(data, rs, i)) then Some(BadName(i))
    else if i + 1 == count then (RecordInIndex(i, count, rs); None)
    else if (i + 1) * rs + rs + 4 > |data| then Some(ShortRead)
    else ScanIndex(data, count, rs, i + 1)
  }

  /** The record loop of `try_open`: its first failure, or the whole directory. */
  function DecodeIndex(data: seq<byte>, count: nat, rs: nat): Result<seq<Entry>, OpenError>
    requires IsRecordSize(rs) && 0 < count && rs + 4 <= |data|
  {
    match ScanIndex(data, count, rs, 0)
    case Some(e) => Failure(e)
    case None => Success(Directory(data, count, rs))
  }

  /** `CgfOpener.try_open` on the file image `data`. */
  function Open(filename: string, data: seq<byte>): (r: Result<ArcFile, OpenError>)
    ensures |data| < 0x24 ==> r.Failure?
    ensures r.Success? ==>
      |data| >= 4 && r.value.filename == filename && |r.value.entries| == U32At(data, 0)
    ensures r.Failure? && r.error.BadName? ==> |data| >= 4 && r.error.index < U32At(data, 0)
  {
    if |data| < 4 then Failure(ShortRead)
    else if !IsSaneCount(U32At(data, 0)) then Failure(BadCount)
    else if |data| < 0x24 then Failure(ShortRead)
    else match Layout(data)
      case None => Failure(NoLayout)
      case Some(rs) =>
        match DecodeIndex(data, U32At(data, 0), rs)
        case Failure(e) => Failure(e)
        case Success(entries) => Success(ArcFile(filename, entries))
  }

  /** The record loop of `try_open`, over the file image. */
  method TryOpen(filename: string, data: seq<byte>) returns (r: Result<ArcFile, OpenError>)
    ensures r == Open(filename, data)
  {
    if |data| < 4 {
      return Failure(ShortRead);
    }
    var count := LE32(data[0..4]);
    if !IsSaneCount(count) {
      return Failure(BadCount);
    }
    if |data| < 0x24 {
      return Failure(ShortRead);
    }
    var offset1 := LE32(data[0x14..0x18]);
    var offset2 := LE32(data[0x20..0x24]);
    var entrySize: nat, nextOffset: nat;
    if 4 + count * 0x14 == Mask(offset1) {
      entrySize, nextOffset := 0x14, offset1;
    } else if 4 + count * 0x20 == Mask(offset2) {
      entrySize, nextOffset := 0x20, offset2;
    } else {
      return Failure(NoLayout);
    }
    assert Layout(data) == Some(entrySize);
    var entries := ReadIndex(data, count, entrySize, nextOffset);
    match entries
    case Failure(e) =>
      return Failure(e);
    case Success(dir) =>
      return Success(ArcFile(filename, dir));
  }

  /**
   * The `for i in range(count)` loop of `try_open` over the index block.
   * `nextOffset` carries record i's packed field into iteration i.
   */
  method ReadIndex(data: seq<byte>, count: nat, entrySize: nat, firstField: nat) returns (r: Result<seq<Entry>, OpenError>)
    requires IsRecordSize(entrySize) && 0 < count && entrySize + 4 <= |data|
    requires firstField == FieldAt(data, entrySize, 0)
    ensures r == DecodeIndex(data, count, entrySize)
  {
    var nextOffset := firstField;
    var index := data[4 .. Min(|data|, 4 + count * entrySize)];
    var dir: seq<Entry> := [];
    for i := 0 to count
      invariant |dir| == i
      invariant forall k :: 0 <= k < i ==>
        RecordReadable(data, count, entrySize, k) && dir[k] == RecordEntry(data, count, entrySize, k)
      invariant i < count ==> i * entrySize + entrySize + 4 <= |data| && nextOffset == FieldAt(data, entrySize, i)
      invariant i < count ==> ScanIndex(data, count, entrySize, i) == ScanIndex(data, count, entrySize, 0)
      invariant i == count ==> ScanIndex(data, count, entrySize, 0).None?
    {
      IndexName(data, count, entrySize, i);
      var name := StripNuls(index[i * entrySize .. i * entrySize + entrySize - 4]);
      if !IsValidEntryName(name) {
        return Failure(BadName(i));
      }
      var field := nextOffset;
      if i + 1 == count {
        nextOffset := |data|;
      } else {
        IndexField(data, count, entrySize, i);
        if (i + 2) * entrySize > |index| {
          return Failure(ShortRead);
        }
        nextOffset := LE32(index[(i + 1) * entrySize + entrySize - 4 .. (i + 2) * entrySize]);
      }
      var entry := MakeEntry(name, field, nextOffset);
      assert RecordReadable(data, count, entrySize, i);
      assert entry == RecordEntry(data, count, entrySize, i);
      AppendRecord(data, count, entrySize, dir, entry);
      dir := dir + [entry];
    }
    DirectoryOfRecords(data, count, entrySize, dir);
    return Success(dir);
  }

  /** Appending record `|dir|`'s entry to the entries of the records before it. */
  lemma AppendRecord(data: seq<byte>, count: nat, rs: nat, dir: seq<Entry>, e: Entry)
    requires IsRecordSize(rs) && RecordReadable(data, count, rs, |dir|)
    requires e == RecordEntry(data, count, rs, |dir|)
    requires forall k :: 0 <= k < |dir| ==> RecordReadable(data, count, rs, k) && dir[k] == RecordEntry(data, count, rs, k)
    ensures forall k :: 0 <= k < |dir| + 1 ==>
      RecordReadable(data, count, rs, k) && (dir + [e])[k] == RecordEntry(data, count, rs, k)
  {
  }

  /** The name field of record `i`, read from the index block. */
  lemma IndexName(data: seq<byte>, count: nat, rs: nat, i: nat)
    requires IsRecordSize(rs) && i < count && i * rs + rs + 4 <= |data|
    ensures 0 <= i * rs && i * rs + rs - 4 <= |data[4..Min(|data|, 4 + count * rs)]|
    ensures StripNuls(data[4..Min(|data|, 4 + count * rs)][i * rs .. i * rs + rs - 4]) == NameAt(data, rs, i)
  {
    RecordInIndex(i, count, rs);
    IndexSlice(data, Min(|data|, 4 + count * rs), i * rs, i * rs + rs - 4);
  }

  /** The packed field of record `i + 1`, read from the index block, which may stop short. */
  lemma IndexField(data: seq<byte>, count: nat, rs: nat, i: nat)
    requires IsRecordSize(rs) && i + 1 < count && i * rs + rs + 4 <= |data|
    ensures 0 <= (i + 1) * rs && (i + 2) * rs == (i + 1) * rs + rs
    ensures (i + 2) * rs > |data[4..Min(|data|, 4 + count * rs)]| <==> (i + 1) * rs + rs + 4 > |data|
    ensures (i + 1) * rs + rs + 4 <= |data| ==>
      LE32(data[4..Min(|data|, 4 + count * rs)][(i + 1) * rs + rs - 4 .. (i + 2) * rs]) == FieldAt(data, rs, i + 1)
  {
    RecordInIndex(i + 1, count, rs);
    if (i + 1) * rs + rs + 4 <= |data| {
      IndexSlice(data, Min(|data|, 4 + count * rs), (i + 1) * rs + rs - 4, (i + 2) * rs);
    }
  }

  /** A slice of the index block is the same slice of the file, 4 bytes on. */
  lemma IndexSlice(data: seq<byte>, end: nat, lo: nat, hi: nat)
    requires 4 <= end <= |data| && lo <= hi <= end - 4
    ensures data[4..end][lo..hi] == data[4 + lo .. 4 + hi]
  {
    var index := data[4..end];
    assert forall k :: 0 <= k < hi - lo ==> index[lo..hi][k] == index[lo + k] == data[4 + lo + k];
  }

  /** The loop runs to the end exactly when the index fits in the file and every remaining name is valid. */
  lemma {:induction false} ScanPassesIff(data: seq<byte>, count: nat, rs: nat, i: nat)
    requires IsRecordSize(rs) && i < count && i * rs + rs + 4 <= |data|
    decreases count - i
    ensures ScanIndex(data, count, rs, i).None? <==>
      4 + count * rs <= |data| && forall j :: i <= j < count ==> IsValidEntryName(NameAt(data, rs, j))
  {
    RecordInIndex(i, count, rs);
    if IsValidEntryName(NameAt(data, rs, i)) && i + 1 < count {
      RecordInIndex(i + 1, count, rs);
      if (i + 1) * rs + rs + 4 <= |data| {
        ScanPassesIff(data, count, rs, i + 1);
      }
    }
  }

  /**
   * A loop that stops early names the first record with an invalid name, or
   * else the index was cut short after every name it could read was valid.
   */
  lemma {:induction false} ScanFailure(data: seq<byte>, count: nat, rs: nat, i: nat)
    requires IsRecordSize(rs) && i < count && i * rs + rs + 4 <= |data|
    requires ScanIndex(data, count, rs, i).Some?
    decreases count - i
    ensures var e := ScanIndex(data, count, rs, i).value;
      (e == ShortRead && 4 + count * rs > |data| &&
       forall j :: i <= j < count && j * rs + rs + 4 <= |data| ==> IsValidEntryName(NameAt(data, rs, j))) ||
      (e.BadName? && i <= e.index < count && !IsValidEntryName(NameAt(data, rs, e.index)) &&
       forall j :: i <= j < e.index ==> IsValidEntryName(NameAt(data, rs, j)))
  {
    RecordInIndex(i, count, rs);
    if IsValidEntryName(NameAt(data, rs, i)) && i + 1 < count {
      RecordInIndex(i + 1, count, rs);
      if (i + 1) * rs + rs + 4 <= |data| {
        ScanFailure(data, count, rs, i + 1);
      }
    }
  }

  /** All or nothing: the open yields a directory exactly when every check passes. */
  lemma OpenSucceedsIff(filename: string, data: seq<byte>)
    ensures Open(filename, data).Success? <==> WellFormed(data)
  {
    if |data| >= 0x24 && IsSaneCount(U32At(data, 0)) && Layout(data).Some? {
      ScanPassesIff(data, U32At(data, 0), Layout(data).value, 0);
    }
  }

  /** An opened directory holds one entry per index record, in index order. */
  lemma OpenedDirectory(filename: string, data: seq<byte>)
    requires Open(filename, data).Success?
    ensures WellFormed(data)
    ensures var arc, count, rs := Open(filename, data).value, U32At(data, 0), Layout(data).value;
      arc.filename == filename && |arc.entries| == count &&
      forall i :: 0 <= i < count ==>
        RecordReadable(data, count, rs, i) && arc.entries[i] == RecordEntry(data, count, rs, i)
  {
    OpenSucceedsIff(filename, data);
    var count, rs := U32At(data, 0), Layout(data).value;
    forall i | 0 <= i < count
      ensures RecordReadable(data, count, rs, i)
    {
      IndexReadable(data, count, rs, i);
    }
  }

  /** An invalid name rejects the whole archive, naming the first offending record. */
  lemma OpenRejectsBadName(filename: string, data: seq<byte>)
    requires Open(filename, data).Failure? && Open(filename, data).error.BadName?
    ensures |data| >= 0x24 && IsSaneCount(U32At(data, 0)) && Layout(data).Some?
    ensures var j, rs := Open(filename, data).error.index, Layout(data).value;
      j < U32At(data, 0) && !IsValidEntryName(NameAt(data, rs, j)) &&
      forall k :: 0 <= k < j ==> IsValidEntryName(NameAt(data, rs, k))
  {
    ScanFailure(data, U32At(data, 0), Layout(data).value, 0);
  }

  /** A count of 0 or of at least 100000 is rejected before anything else is read. */
  lemma OpenRejectsInsaneCount(filename: string, data: seq<byte>)
    requires |data| >= 4 && !IsSaneCount(U32At(data, 0))
    ensures Open(filename, data) == Failure(BadCount)
  {
  }

  /** Both probes are read before the layout is known: a file under 0x24 bytes never opens. */
  lemma OpenNeedsBothProbes(filename: string, data: seq<byte>)
    requires |data| < 0x24
    ensures Open(filename, data).Failure?
    ensures |data| >= 4 && IsSaneCount(U32At(data, 0)) ==> Open(filename, data) == Failure(ShortRead)
  {
  }

  /** When neither record size is self-consistent, the open fails. */
  lemma OpenRejectsWithoutLayout(filename: string, data: seq<byte>)
    requires |data| >= 0x24 && IsSaneCount(U32At(data, 0))
    requires !Fits(data, U32At(data, 0), 0x14) && !Fits(data, U32At(data, 0), 0x20)
    ensures Open(filename, data) == Failure(NoLayout)
  {
  }

  /**
   * Each entry of an opened directory: its name is record i's NUL-stripped,
   * valid name; its offset the low 30 bits and its flags the top 2 bits of
   * record i's packed field; flags kept unless they are 1 or the name ends in
   * `.iaf` (any case); the type is always "image".
   */
  lemma OpenedEntryFields(filename: string, data: seq<byte>, i: nat)
    requires Open(filename, data).Success? && i < |Open(filename, data).value.entries|
    ensures WellFormed(data)
    ensures i * Layout(data).value + Layout(data).value + 4 <= |data|
    ensures var e, rs := Open(filename, data).value.entries[i], Layout(data).value;
      var field := FieldAt(data, rs, i);
      && e.name == NameAt(data, rs, i)
      && IsValidEntryName(e.name)
      && e.kind == "image"
      && e.offset == field % Two30
      && (e.flags.Some? <==> FlagBits(field) != 1 && !EndsWithIaf(e.name))
      && (e.flags.Some? ==> e.flags.value == FlagBits(field) && e.flags.value < 4)
  {
    OpenedDirectory(filename, data);
    var count, rs := U32At(data, 0), Layout(data).value;
    RecordInIndex(i, count, rs);
    PackedFieldSplits(FieldAt(data, rs, i));
  }

  /**
   * The name of record `i` is its `rs - 4` name bytes up to their trailing
   * NUL padding: a prefix of them that does not end in NUL, followed only
   * by NULs.
   */
  lemma RecordName(data: seq<byte>, rs: nat, i: nat)
    requires IsRecordSize(rs) && i * rs + rs <= |data|
    ensures 4 + i * rs <= i * rs + rs
    ensures var name, raw := NameAt(data, rs, i), data[4 + i * rs .. i * rs + rs];
      |name| <= |raw| && name == raw[..|name|] && (name == [] || name[|name| - 1] != 0) &&
      forall k :: |name| <= k < |raw| ==> raw[k] == 0
  {
    StripNulsSpec(data[4 + i * rs .. i * rs + rs]);
  }

  /** In an opened directory, entry `i` carries record i's name: non-empty, as `RecordName` describes. */
  lemma OpenedEntryName(filename: string, data: seq<byte>, i: nat)
    requires Open(filename, data).Success? && i < |Open(filename, data).value.entries|
    ensures WellFormed(data)
    ensures 4 + i * Layout(data).value <= i * Layout(data).value + Layout(data).value <= |data|
    ensures var name, rs := Open(filename, data).value.entries[i].name, Layout(data).value;
      var raw := data[4 + i * rs .. i * rs + rs];
      0 < |name| <= |raw| && name == raw[..|name|] && name[|name| - 1] != 0 &&
      forall k :: |name| <= k < |raw| ==> raw[k] == 0
  {
    OpenedDirectory(filename, data);
    var rs := Layout(data).value;
    RecordInIndex(i, U32At(data, 0), rs);
    RecordName(data, rs, i);
  }

  /** The first entry starts right after the index block. */
  lemma FirstEntryOffset(filename: string, data: seq<byte>)
    requires Open(filename, data).Success?
    ensures WellFormed(data)
    ensures Open(filename, data).value.entries[0].offset == 4 + U32At(data, 0) * Layout(data).value
  {
    OpenedDirectory(filename, data);
    var rs := Layout(data).value;
    assert 0 * rs + rs == rs;
  }

  /** Entries are contiguous: each ends where the next begins, the last at the masked file length. */
  lemma EntriesContiguous(filename: string, data: seq<byte>)
    requires Open(filename, data).Success?
    ensures var es := Open(filename, data).value.entries;
      |es| > 0 &&
      (forall i :: 0 <= i < |es| - 1 ==> es[i].offset + es[i].size == es[i + 1].offset) &&
      es[|es| - 1].offset + es[|es| - 1].size == Mask(|data|)
  {
    OpenedDirectory(filename, data);
    var es := Open(filename, data).value.entries;
    var count, rs := U32At(data, 0), Layout(data).value;
    forall i | 0 <= i < |es| - 1
      ensures es[i].offset + es[i].size == es[i + 1].offset
    {
      RecordInIndex(i + 1, count, rs);
      assert (i + 1) * rs + rs == i * rs + rs + rs;
    }
  }

  /** The sum of all entry sizes. */
  function TotalSize(es: seq<Entry>): int
  {
    if es == [] then 0 else es[0].size + TotalSize(es[1..])
  }

  /** Sizes of contiguous entries telescope to the span they cover. */
  lemma {:induction false} SizesTelescope(es: seq<Entry>, end: int)
    requires |es| > 0
    requires forall i :: 0 <= i < |es| - 1 ==> es[i].offset + es[i].size == es[i + 1].offset
    requires es[|es| - 1].offset + es[|es| - 1].size == end
    ensures TotalSize(es) == end - es[0].offset
  {
    if |es| > 1 {
      SizesTelescope(es[1..], end);
    }
  }

  /** The sizes of an opened directory add up to the masked file length minus the header and index. */
  lemma SizesSum(filename: string, data: seq<byte>)
    requires Open(filename, data).Success?
    ensures WellFormed(data)
    ensures TotalSize(Open(filename, data).value.entries) == Mask(|data|) - (4 + U32At(data, 0) * Layout(data).value)
  {
    EntriesContiguous(filename, data);
    FirstEntryOffset(filename, data);
    var es := Open(filename, data).value.entries;
    SizesTelescope(es, Mask(|data|));
  }

  /**
   * When bits 30 and 31 of the file length are clear (in particular below 2^30
   * bytes) the mask is the identity, so header, index and entries fill the
   * file exactly.
   */
  lemma SizesFillFile(filename: string, data: seq<byte>)
    requires Open(filename, data).Success? && (|data| / Two30) % 4 == 0
    ensures WellFormed(data)
    ensures 4 + U32At(data, 0) * Layout(data).value + TotalSize(Open(filename, data).value.entries) == |data|
  {
    SizesSum(filename, data);
    MaskBitsClear(|data|);
  }
}
