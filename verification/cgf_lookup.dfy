/**
 * The entry lookup of `--extract` (ExCGF.py, lines 122-129): the first entry
 * whose name equals the requested name exactly, or "not found".
 */
module CgfLookup {
  import opened Wrappers
  import opened CgfFormat
  import opened CgfOpener

  /** The index of the first entry named `name`, if there is one. */
  function FindByName(entries: seq<Entry>, name: seq<byte>): (r: Option<nat>)
    ensures r.Some? ==> r.value < |entries| && entries[r.value].name == name &&
                        forall j :: 0 <= j < r.value ==> entries[j].name != name
    ensures r.None? <==> forall j :: 0 <= j < |entries| ==> entries[j].name != name
  {
    if |entries| == 0 then None
    else if entries[0].name == name then Some(0)
    else match FindByName(entries[1..], name)
      case None => None
      case Some(k) => Some(k + 1)
  }

  /** Names in an opened directory are valid, so an empty name or one with a forbidden character is never found. */
  lemma InvalidNameNeverFound(filename: string, data: seq<byte>, name: seq<byte>)
    requires Open(filename, data).Success? && !IsValidEntryName(name)
    ensures FindByName(Open(filename, data).value.entries, name).None?
  {
    var es := Open(filename, data).value.entries;
    forall j | 0 <= j < |es| ensures es[j].name != name {
      OpenedEntryFields(filename, data, j);
    }
  }
}
