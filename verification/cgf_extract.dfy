/**
 * The byte transform of `extract_file` (ExCGF.py, lines 84-101): the output
 * file holds four zero bytes, then the entry's content with its first three
 * bytes replaced by zero bytes. Directory creation, path joining and the file
 * writes themselves are left out; the output is returned as a byte sequence.
 */
module CgfExtract {
  import opened Wrappers
  import opened CgfFormat
  import opened CgfOpener

  /**
   * `arc.seek(offset); arc.read(size)` on a buffered binary file: `size` bytes
   * from `offset`, or fewer when the file ends first, none at all past its end;
   * a `size` of -1 reads up to the end of the file. Any smaller `size` makes
   * the read raise `ValueError`, which is `None` here.
   */
  function ReadAt(data: seq<byte>, offset: nat, size: int): (r: Option<seq<byte>>)
    ensures r.None? <==> size < -1
    ensures r.Some? ==> |r.value| == if offset >= |data| then 0
                   else if size == -1 || offset + size > |data| then |data| - offset
                   else size
    ensures r.Some? ==> forall k :: 0 <= k < |r.value| ==> r.value[k] == data[offset + k]
  {
    if size < -1 then None
    else if offset >= |data| then Some([])
    else if size == -1 then Some(data[offset..])
    else Some(data[offset .. Min(|data|, offset + size)])
  }

  /** `b'\x00\x00\x00\x00'` followed by `b'\x00\x00\x00' + content[3:]`. */
  function ExtractedBytes(content: seq<byte>): (out: seq<byte>)
    ensures |out| == 7 + (if |content| >= 3 then |content| - 3 else 0)
    ensures forall k :: 0 <= k < 7 ==> out[k] == 0
    ensures forall k :: 7 <= k < |out| ==> out[k] == content[k - 4]
  {
    var tail := if |content| >= 3 then content[3..] else [];
    [0, 0, 0, 0] + ([0, 0, 0] + tail)
  }

  /**
   * The bytes `extract_file` writes for `entry`: seven zero bytes, then the
   * file's bytes from the entry's fourth byte on; `size + 4` bytes in all when
   * the entry holds at least three bytes and lies inside the file. `None` when
   * the read raises, for a size below -1.
   */
  function Extract(data: seq<byte>, entry: Entry): (out: Option<seq<byte>>)
    ensures out.None? <==> entry.size < -1
    ensures out.Some? ==> |out.value| >= 7 && forall k :: 0 <= k < 7 ==> out.value[k] == 0
    ensures out.Some? ==> forall k :: 7 <= k < |out.value| ==>
      entry.offset + k - 4 < |data| && out.value[k] == data[entry.offset + k - 4]
    ensures 3 <= entry.size && entry.offset + entry.size <= |data| ==> out.Some? && |out.value| == entry.size + 4
  {
    match ReadAt(data, entry.offset, entry.size)
    case None => None
    case Some(content) => Some(ExtractedBytes(content))
  }

  /** The transform forgets exactly the first three content bytes: two contents give the same output iff they agree from byte 3 on. */
  lemma ExtractionKeepsAllButHeader(c1: seq<byte>, c2: seq<byte>)
    requires |c1| >= 3 && |c2| >= 3
    ensures ExtractedBytes(c1) == ExtractedBytes(c2) <==> c1[3..] == c2[3..]
  {
    var o1, o2 := ExtractedBytes(c1), ExtractedBytes(c2);
    if o1 == o2 {
      assert |c1| == |c2|;
      forall k | 3 <= k < |c1| ensures c1[k] == c2[k] {
        assert o1[k + 4] == o2[k + 4];
      }
      assert c1[3..] == c2[3..] by {
        forall k | 0 <= k < |c1| - 3 ensures c1[3..][k] == c2[3..][k] {
          assert c1[3..][k] == c1[k + 3];
        }
      }
    }
    if c1[3..] == c2[3..] {
      assert |c1| == |c2|;
      forall k | 0 <= k < |o1| ensures o1[k] == o2[k] {
        if k >= 7 {
          assert c1[k - 4] == c1[3..][k - 7];
        }
      }
    }
  }

  /** With no negative sizes, contiguous entries are ordered and do not overlap. */
  lemma {:induction false} ContiguousRangesOrdered(es: seq<Entry>, i: nat, j: nat)
    requires i < j < |es|
    requires forall k :: 0 <= k < |es| - 1 ==> es[k].offset + es[k].size == es[k + 1].offset
    requires forall k :: 0 <= k < |es| ==> es[k].size >= 0
    decreases j - i
    ensures es[i].offset + es[i].size <= es[j].offset
  {
    if i + 1 < j {
      ContiguousRangesOrdered(es, i + 1, j);
    }
  }

  /**
   * In an opened archive whose sizes are all non-negative, every entry lies
   * after the index block and inside the file, and entries do not overlap. The
   * last entry ends at the masked file length, which never exceeds the length.
   */
  lemma EntriesWithinFile(filename: string, data: seq<byte>)
    requires Open(filename, data).Success?
    requires forall k :: 0 <= k < |Open(filename, data).value.entries| ==> Open(filename, data).value.entries[k].size >= 0
    ensures WellFormed(data)
    ensures var es := Open(filename, data).value.entries;
      (forall i :: 0 <= i < |es| ==>
        4 + U32At(data, 0) * Layout(data).value <= es[i].offset && es[i].offset + es[i].size <= |data|) &&
      (forall i, j :: 0 <= i < j < |es| ==> es[i].offset + es[i].size <= es[j].offset)
  {
    EntriesContiguous(filename, data);
    FirstEntryOffset(filename, data);
    MaskSpec(|data|);
    var es := Open(filename, data).value.entries;
    var n := |es|;
    forall i, j | 0 <= i < j < n ensures es[i].offset + es[i].size <= es[j].offset {
      ContiguousRangesOrdered(es, i, j);
    }
    forall i | 0 <= i < n
      ensures es[0].offset <= es[i].offset && es[i].offset + es[i].size <= |data|
    {
      if i > 0 {
        ContiguousRangesOrdered(es, 0, i);
      }
      if i < n - 1 {
        ContiguousRangesOrdered(es, i, n - 1);
      }
    }
  }

  /**
   * Extracting an entry of such an archive with at least three bytes writes
   * seven zero bytes and then the entry's bytes from its fourth byte on:
   * `size + 4` bytes in all.
   */
  lemma ExtractOpenedEntry(filename: string, data: seq<byte>, i: nat)
    requires Open(filename, data).Success?
    requires forall k :: 0 <= k < |Open(filename, data).value.entries| ==> Open(filename, data).value.entries[k].size >= 0
    requires i < |Open(filename, data).value.entries| && Open(filename, data).value.entries[i].size >= 3
    ensures var e := Open(filename, data).value.entries[i];
      e.offset + e.size <= |data| &&
      Extract(data, e) == Some([0, 0, 0, 0, 0, 0, 0] + data[e.offset + 3 .. e.offset + e.size]) &&
      |Extract(data, e).value| == e.size + 4
  {
    EntriesWithinFile(filename, data);
    var e := Open(filename, data).value.entries[i];
    ExtractInsideFile(data, e);
  }

  /** An entry of at least three bytes inside the file extracts to seven zero bytes and its bytes from the fourth on. */
  lemma ExtractInsideFile(data: seq<byte>, e: Entry)
    requires 3 <= e.size && e.offset + e.size <= |data|
    ensures Extract(data, e) == Some([0, 0, 0, 0, 0, 0, 0] + data[e.offset + 3 .. e.offset + e.size])
  {
    var content := ReadAt(data, e.offset, e.size).value;
    var out := ExtractedBytes(content);
    assert Extract(data, e) == Some(out);
    var expected := [0, 0, 0, 0, 0, 0, 0] + data[e.offset + 3 .. e.offset + e.size];
    forall k | 0 <= k < |out| ensures out[k] == expected[k] {
      if k >= 7 {
        assert out[k] == content[k - 4] == data[e.offset + k - 4];
      }
    }
    assert out == expected;
  }
}
