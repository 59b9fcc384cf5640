/**
 * A writer for CGF archives: the count, then one record per entry (its name
 * padded with NULs, then its packed flags and offset), then the payload.
 * `OpenRecoversIndex` states that `Open` is its left inverse: the opener
 * recovers every written name, offset and flag, and sizes that run from one
 * offset to the next.
 */
module CgfBuild {
  import opened Wrappers
  import opened CgfFormat
  import opened CgfOpener

  /** What a writer stores in one index record. */
  datatype IndexRecord = IndexRecord(name: seq<byte>, flags: nat, offset: nat)

  /** `n` NUL bytes. */
  function Zeros(n: nat): seq<byte>
  {
    seq(n, k => 0)
  }

  /** `struct.pack('<I', x)`: the inverse of `LE32`. */
  function EncodeLE32(x: nat): (b: seq<byte>)
    requires x < Two32
    ensures |b| == 4 && LE32(b) == x
  {
    var q1 := x / 0x100;
    var q2 := q1 / 0x100;
    [x % 0x100, q1 % 0x100, q2 % 0x100, q2 / 0x100]
  }

  /** The record's flags and offset fit their 2 and 30 bits, and its name fits its field. */
  predicate Fitting(rs: nat, r: IndexRecord)
  {
    |r.name| <= rs - 4 && r.flags < 4 && r.offset < Two30
  }

  /** The packed trailing field: the flags in the top two bits, the offset below them. */
  function Packed(r: IndexRecord): nat
    requires r.flags < 4 && r.offset < Two30
  {
    r.flags * Two30 + r.offset
  }

  /** Unpacking a packed field gives back the flags and the offset. */
  lemma PackedUnpacks(r: IndexRecord)
    requires r.flags < 4 && r.offset < Two30
    ensures Packed(r) < Two32 && FlagBits(Packed(r)) == r.flags && Mask(Packed(r)) == r.offset
  {
    PackedFieldSplits(Packed(r));
  }

  /** One index record of `rs` bytes. */
  function EncodeRecord(rs: nat, r: IndexRecord): (b: seq<byte>)
    requires IsRecordSize(rs) && Fitting(rs, r)
    ensures |b| == rs
  {
    r.name + Zeros(rs - 4 - |r.name|) + EncodeLE32(Packed(r))
  }

  /** The index block: the records one after another. */
  function EncodeIndex(rs: nat, recs: seq<IndexRecord>): (b: seq<byte>)
    requires IsRecordSize(rs) && forall i :: 0 <= i < |recs| ==> Fitting(rs, recs[i])
    ensures |b| == |recs| * rs
  {
    if recs == [] then []
    else EncodeRecord(rs, recs[0]) + EncodeIndex(rs, recs[1..])
  }

  /** The whole archive. */
  function Build(rs: nat, recs: seq<IndexRecord>, payload: seq<byte>): seq<byte>
    requires Encodable(rs, recs)
  {
    EncodeLE32(|recs|) + EncodeIndex(rs, recs) + payload
  }

  /** The record size is known and every record fits its fields. */
  predicate Encodable(rs: nat, recs: seq<IndexRecord>)
  {
    IsRecordSize(rs) && |recs| < Two32 && forall i :: 0 <= i < |recs| ==> Fitting(rs, recs[i])
  }

  /**
   * What a writer must respect for the opener to accept its archive: a sane
   * count; names that fit, are valid and do not end in NUL; fields that fit
   * their bits; the first entry starting right after the index; a file of at
   * least 0x24 bytes; and, for 0x20-byte records, record 0's name bytes 0x10
   * to 0x14 not passing for a 0x14-byte layout's first field.
   */
  predicate Writable(rs: nat, recs: seq<IndexRecord>, payload: seq<byte>)
  {
    && Encodable(rs, recs)
    && IsSaneCount(|recs|)
    && (forall i :: 0 <= i < |recs| ==>
          IsValidEntryName(recs[i].name) && recs[i].name[|recs[i].name| - 1] != 0)
    && recs[0].offset == 4 + |recs| * rs
    && 4 + |recs| * rs + |payload| >= 0x24
    && (rs == 0x20 ==> Mask(LE32(EncodeRecord(rs, recs[0])[0x10..0x14])) != 4 + |recs| * 0x14)
  }

  /** Stripping the padding of a name that does not end in NUL gives the name back. */
  lemma {:induction false} StripNulsPadding(name: seq<byte>, n: nat)
    requires name == [] || name[|name| - 1] != 0
    ensures StripNuls(name + Zeros(n)) == name
  {
    if n > 0 {
      assert (name + Zeros(n))[..|name| + n - 1] == name + Zeros(n - 1);
      StripNulsPadding(name, n - 1);
    } else {
      assert name + Zeros(0) == name;
    }
  }

  /** Record `i` of the index block is `EncodeRecord` of the `i`-th written record. */
  lemma {:induction false} IndexHoldsRecord(rs: nat, recs: seq<IndexRecord>, i: nat)
    requires IsRecordSize(rs) && forall j :: 0 <= j < |recs| ==> Fitting(rs, recs[j])
    requires i < |recs|
    ensures i * rs + rs <= |EncodeIndex(rs, recs)|
    ensures forall k :: 0 <= k < rs ==> EncodeIndex(rs, recs)[i * rs + k] == EncodeRecord(rs, recs[i])[k]
  {
    RecordInIndex(i, |recs|, rs);
    var head, tail := EncodeRecord(rs, recs[0]), EncodeIndex(rs, recs[1..]);
    assert EncodeIndex(rs, recs) == head + tail;
    if i > 0 {
      IndexHoldsRecord(rs, recs[1..], i - 1);
      assert i * rs == rs + (i - 1) * rs;
      forall k | 0 <= k < rs ensures (head + tail)[i * rs + k] == EncodeRecord(rs, recs[i])[k] {
        assert (head + tail)[rs + ((i - 1) * rs + k)] == tail[(i - 1) * rs + k];
      }
    }
  }

  /** Byte `k` of record `i` in the built archive. */
  lemma ArchiveHoldsRecord(rs: nat, recs: seq<IndexRecord>, payload: seq<byte>, i: nat)
    requires Encodable(rs, recs) && i < |recs|
    ensures 4 + i * rs + rs <= 4 + |recs| * rs <= |Build(rs, recs, payload)|
    ensures forall k :: 0 <= k < rs ==> Build(rs, recs, payload)[4 + i * rs + k] == EncodeRecord(rs, recs[i])[k]
  {
    IndexHoldsRecord(rs, recs, i);
  }

  /** The opener reads back record `i`'s name. */
  lemma ReadsBackName(rs: nat, recs: seq<IndexRecord>, payload: seq<byte>, i: nat)
    requires Encodable(rs, recs) && i < |recs|
    requires recs[i].name == [] || recs[i].name[|recs[i].name| - 1] != 0
    ensures i * rs + rs + 4 <= |Build(rs, recs, payload)|
    ensures NameAt(Build(rs, recs, payload), rs, i) == recs[i].name
  {
    var data, r := Build(rs, recs, payload), recs[i];
    ArchiveHoldsRecord(rs, recs, payload, i);
    var rec := EncodeRecord(rs, r);
    var padded := r.name + Zeros(rs - 4 - |r.name|);
    assert data[4 + i * rs .. i * rs + rs] == padded by {
      forall k | 0 <= k < rs - 4 ensures data[4 + i * rs + k] == padded[k] {
        assert rec[k] == padded[k];
      }
    }
    StripNulsPadding(r.name, rs - 4 - |r.name|);
  }

  /** The opener reads back record `i`'s packed field. */
  lemma ReadsBackField(rs: nat, recs: seq<IndexRecord>, payload: seq<byte>, i: nat)
    requires Encodable(rs, recs) && i < |recs|
    ensures i * rs + rs + 4 <= |Build(rs, recs, payload)|
    ensures FieldAt(Build(rs, recs, payload), rs, i) == Packed(recs[i])
  {
    var data, r := Build(rs, recs, payload), recs[i];
    ArchiveHoldsRecord(rs, recs, payload, i);
    var rec := EncodeRecord(rs, r);
    assert data[i * rs + rs .. i * rs + rs + 4] == EncodeLE32(Packed(r)) by {
      forall k | 0 <= k < 4 ensures data[i * rs + rs + k] == EncodeLE32(Packed(r))[k] {
        assert data[4 + i * rs + (rs - 4 + k)] == rec[rs - 4 + k];
      }
    }
  }

  /** The built archive starts with the number of records. */
  lemma BuiltCount(rs: nat, recs: seq<IndexRecord>, payload: seq<byte>)
    requires Writable(rs, recs, payload)
    ensures |Build(rs, recs, payload)| >= 0x24
    ensures U32At(Build(rs, recs, payload), 0) == |recs|
  {
    assert Build(rs, recs, payload)[0..4] == EncodeLE32(|recs|);
  }

  /** The opener settles on the written record size. */
  lemma BuiltLayout(rs: nat, recs: seq<IndexRecord>, payload: seq<byte>)
    requires Writable(rs, recs, payload)
    ensures |Build(rs, recs, payload)| >= 0x24
    ensures Layout(Build(rs, recs, payload)) == Some(rs)
  {
    var data := Build(rs, recs, payload);
    BuiltCount(rs, recs, payload);
    ReadsBackField(rs, recs, payload, 0);
    PackedUnpacks(recs[0]);
    assert U32At(data, rs) == Packed(recs[0]);
    if rs == 0x20 {
      ArchiveHoldsRecord(rs, recs, payload, 0);
      var rec := EncodeRecord(rs, recs[0]);
      assert data[0x14..0x18] == rec[0x10..0x14] by {
        forall k | 0x14 <= k < 0x18 ensures data[k] == rec[k - 4] {
          assert data[4 + 0 * rs + (k - 4)] == rec[k - 4];
        }
      }
    }
  }

  /** The built archive passes every check of the opener. */
  lemma BuiltIsWellFormed(rs: nat, recs: seq<IndexRecord>, payload: seq<byte>)
    requires Writable(rs, recs, payload)
    ensures WellFormed(Build(rs, recs, payload))
    ensures U32At(Build(rs, recs, payload), 0) == |recs|
    ensures Layout(Build(rs, recs, payload)) == Some(rs)
  {
    var data, count := Build(rs, recs, payload), |recs|;
    BuiltCount(rs, recs, payload);
    BuiltLayout(rs, recs, payload);
    forall i | 0 <= i < count
      ensures IsValidEntryName(NameAt(data, rs, i))
    {
      ReadsBackName(rs, recs, payload, i);
    }
  }

  /** The entry built from a written record keeps its name, offset and flags. */
  lemma EntryOfRecord(r: IndexRecord, next: nat)
    requires r.flags < 4 && r.offset < Two30
    ensures var e := MakeEntry(r.name, Packed(r), next);
      && e.name == r.name
      && e.offset == r.offset
      && e.size == Mask(next) - r.offset
      && e.flags == (if r.flags == 1 || EndsWithIaf(r.name) then None else Some(r.flags))
  {
    PackedUnpacks(r);
  }

  /** Record `i` of a built archive decodes to the written name, offset and flags. */
  lemma RecordEntryRecovers(rs: nat, recs: seq<IndexRecord>, payload: seq<byte>, i: nat)
    requires Encodable(rs, recs) && i < |recs|
    requires recs[i].name == [] || recs[i].name[|recs[i].name| - 1] != 0
    ensures RecordReadable(Build(rs, recs, payload), |recs|, rs, i)
    ensures var data := Build(rs, recs, payload);
      var e := RecordEntry(data, |recs|, rs, i);
      && e.name == recs[i].name
      && e.offset == recs[i].offset
      && e.size == (if i + 1 < |recs| then recs[i + 1].offset else Mask(|data|)) - recs[i].offset
      && e.flags == (if recs[i].flags == 1 || EndsWithIaf(recs[i].name) then None else Some(recs[i].flags))
  {
    var data := Build(rs, recs, payload);
    ReadsBackName(rs, recs, payload, i);
    ReadsBackField(rs, recs, payload, i);
    RecordInIndex(i, |recs|, rs);
    var next := |data|;
    if i + 1 < |recs| {
      ReadsBackField(rs, recs, payload, i + 1);
      PackedUnpacks(recs[i + 1]);
      next := FieldAt(data, rs, i + 1);
    }
    assert RecordEntry(data, |recs|, rs, i) == MakeEntry(recs[i].name, Packed(recs[i]), next);
    EntryOfRecord(recs[i], next);
  }

  /**
   * Round trip: opening a written archive recovers the written count, and
   * for each record its name, its offset, its flags (dropped when they are 1
   * or the name ends in `.iaf`) and a size that runs to the next record's
   * offset, or to the masked file length for the last record.
   */
  lemma OpenRecoversIndex(filename: string, rs: nat, recs: seq<IndexRecord>, payload: seq<byte>)
    requires Writable(rs, recs, payload)
    ensures var data := Build(rs, recs, payload);
      var r := Open(filename, data);
      && r.Success?
      && r.value.filename == filename
      && |r.value.entries| == |recs|
      && forall i :: 0 <= i < |recs| ==>
           var e := r.value.entries[i];
           && e.name == recs[i].name
           && e.offset == recs[i].offset
           && e.size == (if i + 1 < |recs| then recs[i + 1].offset else Mask(|data|)) - recs[i].offset
           && e.flags == (if recs[i].flags == 1 || EndsWithIaf(recs[i].name) then None else Some(recs[i].flags))
  {
    var data := Build(rs, recs, payload);
    BuiltIsWellFormed(rs, recs, payload);
    OpenSucceedsIff(filename, data);
    OpenedDirectory(filename, data);
    forall i | 0 <= i < |recs| {
      RecordEntryRecovers(rs, recs, payload, i);
    }
  }
}
