/**
 * The on-disk vocabulary of a CGF archive: bytes, little-endian u32 fields,
 * the packed (flags:2 | offset:30) field, entry names, and the entry and
 * directory records that the opener produces (ExCGF.py, lines 7-22 and 76-82).
 */
module CgfFormat {
  import opened Wrappers

  /** One byte of the archive file, as Python's `bytes` exposes it. */
  type byte = b: int | 0 <= b < 0x100

  const Two30: nat := 0x4000_0000
  const Two32: nat := 0x1_0000_0000

  /** The little-endian u32 stored in a 4-byte slice (`struct.unpack('<I', …)`). */
  function LE32(b: seq<byte>): (x: nat)
    requires |b| == 4
    ensures x < Two32
    ensures x % 0x100 == b[0] && x / 0x100 % 0x100 == b[1]
    ensures x / 0x1_0000 % 0x100 == b[2] && x / 0x100_0000 == b[3]
  {
    b[0] as int + 0x100 * b[1] as int + 0x1_0000 * b[2] as int + 0x100_0000 * b[3] as int
  }

  /** The u32 at file position `pos`. */
  function U32At(data: seq<byte>, pos: nat): (x: nat)
    requires pos + 4 <= |data|
    ensures x < Two32
  {
    LE32(data[pos..pos + 4])
  }

  /**
   * `x & ~0xC0000000` on an unbounded integer: bits 30 and 31 are cleared,
   * every other bit (including those above bit 31) is kept.
   */
  function Mask(x: nat): nat
  {
    x / Two32 * Two32 + x % Two30
  }

  /** `Mask` agrees with its argument below bit 30 and above bit 31, and clears bits 30 and 31. */
  lemma MaskSpec(x: nat)
    ensures Mask(x) % Two30 == x % Two30
    ensures Mask(x) / Two32 == x / Two32
    ensures (Mask(x) / Two30) % 4 == 0
    ensures Mask(x) <= x
  {
  }

  /** Values below 2^30 have no bits to clear. */
  lemma MaskBelow30(x: nat)
    requires x < Two30
    ensures Mask(x) == x
  {
  }

  /** A value whose bits 30 and 31 are clear is left unchanged by the mask. */
  lemma MaskBitsClear(x: nat)
    requires (x / Two30) % 4 == 0
    ensures Mask(x) == x
  {
    assert x == x / Two30 * Two30 + x % Two30;
    assert x / Two30 == x / Two32 * 4 + (x / Two30) % 4;
    assert x / Two30 * Two30 == x / Two32 * Two32;
  }

  /** `x >> 30`: for a u32 field, its two flag bits. */
  function FlagBits(x: nat): nat
  {
    x / Two30
  }

  /** A packed u32 field is its flag bits above its 30-bit offset, and nothing else. */
  lemma PackedFieldSplits(x: nat)
    requires x < Two32
    ensures FlagBits(x) < 4 && Mask(x) < Two30
    ensures x == FlagBits(x) * Two30 + Mask(x)
  {
  }

  /**
   * `CgfOpener.is_sane_count`: a purely defensive bound on the entry count.
   * A sane count has at least one record, and its index block, of either
   * record size, ends below 2^30, where a masked offset can point at it.
   */
  predicate IsSaneCount(count: int): (b: bool)
    ensures b ==> 0 < count && 4 + count * 0x20 < Two30
  {
    0 < count < 100000
  }

  /** The characters `\ / : * ? " < > |`, none of which an entry name may hold. */
  const ForbiddenNameBytes: set<int> :=
    {'\\' as int, '/' as int, ':' as int, '*' as int, '?' as int,
     '"' as int, '<' as int, '>' as int, '|' as int}

  /**
   * `CgfOpener.is_valid_entry_name`: non-empty and free of forbidden characters.
   * A valid name holds no path separator or drive colon, so it is one path
   * component; a non-empty name is rejected only for a forbidden character.
   */
  predicate IsValidEntryName(name: seq<byte>): (b: bool)
    ensures b ==> |name| > 0 && forall k :: 0 <= k < |name| ==>
      name[k] != '/' as int && name[k] != '\\' as int && name[k] != ':' as int
    ensures !b && |name| > 0 ==> exists k :: 0 <= k < |name| && name[k] in ForbiddenNameBytes
  {
    |name| > 0 && forall k :: 0 <= k < |name| ==> name[k] !in ForbiddenNameBytes
  }

  /** `rstrip('\0')`: drops the trailing NUL padding of a name field. */
  function StripNuls(s: seq<byte>): seq<byte>
  {
    if |s| > 0 && s[|s| - 1] == 0 then StripNuls(s[..|s| - 1]) else s
  }

  /** `StripNuls` keeps a prefix that does not end in NUL and drops only NULs. */
  lemma {:induction false} StripNulsSpec(s: seq<byte>)
    ensures var r := StripNuls(s);
      |r| <= |s| && r == s[..|r|] &&
      (r == [] || r[|r| - 1] != 0) &&
      forall k :: |r| <= k < |s| ==> s[k] == 0
  {
    if |s| > 0 && s[|s| - 1] == 0 {
      StripNulsSpec(s[..|s| - 1]);
      assert s[..|s| - 1][..|StripNuls(s)|] == s[..|StripNuls(s)|];
    }
  }

  /** ASCII `lower()` of one byte. */
  function LowerByte(b: byte): byte
  {
    if 'A' as int <= b <= 'Z' as int then b + 0x20 else b
  }

  function LowerAscii(s: seq<byte>): (r: seq<byte>)
    ensures |r| == |s|
  {
    seq(|s|, k requires 0 <= k < |s| => LowerByte(s[k]))
  }

  /** The suffix `.iaf`. */
  const IafSuffix: seq<byte> := ['.' as int, 'i' as int, 'a' as int, 'f' as int]

  /** `name.lower().endswith('.iaf')`. */
  predicate EndsWithIaf(name: seq<byte>)
  {
    |name| >= 4 && LowerAscii(name[|name| - 4..]) == IafSuffix
  }

  /** The `.iaf` test is case-insensitive in each letter and exact on the dot. */
  lemma IafSuffixCases(name: seq<byte>)
    ensures EndsWithIaf(name) <==>
      |name| >= 4 && name[|name| - 4] == '.' as int &&
      name[|name| - 3] in {'i' as int, 'I' as int} &&
      name[|name| - 2] in {'a' as int, 'A' as int} &&
      name[|name| - 1] in {'f' as int, 'F' as int}
  {
    if |name| >= 4 {
      var t := name[|name| - 4..];
      assert LowerAscii(t) == IafSuffix <==>
        LowerByte(t[0]) == IafSuffix[0] && LowerByte(t[1]) == IafSuffix[1] &&
        LowerByte(t[2]) == IafSuffix[2] && LowerByte(t[3]) == IafSuffix[3];
    }
  }

  /**
   * One directory entry. `Entry` and its subclass `CgfEntry` of the source
   * become one record whose `flags` is present exactly for a `CgfEntry`.
   * The type string is "image" for both.
   */
  datatype Entry = Entry(name: seq<byte>, kind: string, offset: nat, size: int, flags: Option<nat>)

  /** `ArcFile`: the archive's path and its entries in index order. */
  datatype ArcFile = ArcFile(filename: string, entries: seq<Entry>)

  /**
   * The entry built for one index record: `field` is the record's packed
   * trailing u32, `next` is the following record's field, or the file length
   * for the last record (ExCGF.py, lines 56-70).
   */
  function MakeEntry(name: seq<byte>, field: nat, next: nat): (e: Entry)
    ensures e.name == name && e.kind == "image"
    ensures e.offset + e.size == Mask(next)
    ensures field < Two32 ==> e.offset < Two30 && field == FlagBits(field) * Two30 + e.offset
    ensures e.flags.Some? <==> FlagBits(field) != 1 && !EndsWithIaf(name)
    ensures e.flags.Some? ==> e.flags.value == FlagBits(field)
  {
    var flags := FlagBits(field);
    var offset := Mask(field);
    var size := Mask(next) - offset;
    if flags == 1 || EndsWithIaf(name) then Entry(name, "image", offset, size, None)
    else Entry(name, "image", offset, size, Some(flags))
  }
}
