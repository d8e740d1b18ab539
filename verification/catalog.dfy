/** Catalog leaf records: directory entries, per-CNID metadata and the two forks. */
module Catalog {
  import opened Wrappers
  import opened Sequences
  import opened ByteOrder
  import opened Utf16
  import opened BTree
  import opened Forks

  const ROOT_FOLDER_CNID: u32 := 2
  const RECORD_FOLDER: int := 1
  const RECORD_FILE: int := 2

  datatype HfsEntry = HfsEntry(name: string, isDir: bool, cnid: u32)
  datatype HfsStat = HfsStat(cnid: u32, isDir: bool, size: u64, created: u32, modified: u32, accessed: u32)
  datatype FilePair = FilePair(data: Fork, resource: Fork)

  // ---- record parsers ------------------------------------------------------

  /** A file or folder record as (parent CNID, entry); thread records are none. */
  function RecordEntry(rec: Bytes): Option<(u32, HfsEntry)> {
    if |rec| < 8 then None
    else
      var keyLen := Be16(rec, 0);
      var parent := Be32(rec, 2);
      var nameEnd: usize := 8 + Be16(rec, 6) as int * 2;
      if nameEnd > |rec| then None
      else
        var name := DecodeUtf16(rec[8..nameEnd]);
        var data: usize := 2 + keyLen as int;
        if data + 12 > |rec| then None
        else
          var kind := BeI16(rec, data);
          if kind != RECORD_FOLDER && kind != RECORD_FILE then None
          else Some((parent, HfsEntry(name, kind == RECORD_FOLDER, Be32(rec, data + 8))))
  }

  function RecordStat(rec: Bytes, cnid: u32): Option<HfsStat> {
    if |rec| < 8 then None
    else
      var data: usize := 2 + Be16(rec, 0) as int;
      if data + 32 > |rec| then None
      else
        var kind := BeI16(rec, data);
        if kind != RECORD_FOLDER && kind != RECORD_FILE then None
        else if Be32(rec, data + 8) != cnid then None
        else
          var isDir := kind == RECORD_FOLDER;
          var size := if !isDir && data + 96 <= |rec| then Be64(rec, data + 88) else 0;
          Some(HfsStat(cnid, isDir, size, Be32(rec, data + 16), Be32(rec, data + 20), Be32(rec, data + 28)))
  }

  /** The data and resource forks of the file record for `cnid`. A record that ends
      before its resource fork is a file without one. */
  function FileForks(rec: Bytes, cnid: u32): Option<FilePair> {
    if |rec| < 8 then None
    else
      var data: usize := 2 + Be16(rec, 0) as int;
      if data + 168 > |rec| then None
      else if BeI16(rec, data) != RECORD_FILE then None
      else if Be32(rec, data + 8) != cnid then None
      else
        var dataFork :- ForkOf(rec[data + 88..]);
        if data + 248 <= |rec| then
          var resourceFork :- ForkOf(rec[data + 168..]);
          Some(FilePair(dataFork, resourceFork))
        else Some(FilePair(dataFork, Fork(0, [])))
  }

  // ---- the closures handed to the leaf walk ---------------------------------

  function ChildOf(parent: u32): Bytes -> Option<HfsEntry> {
    (rec: Bytes) =>
      match RecordEntry(rec)
      case Some(pe) => if pe.0 == parent then Some(pe.1) else None
      case None => None
  }

  function StatOf(cnid: u32): Bytes -> Option<HfsStat> {
    (rec: Bytes) => RecordStat(rec, cnid)
  }

  function ForksOf(cnid: u32): Bytes -> Option<FilePair> {
    (rec: Bytes) => FileForks(rec, cnid)
  }

  // ---- lookups -------------------------------------------------------------

  function CatalogRecords(volume: Volume): Option<seq<Bytes>> {
    var loc :- LocateCatalog(volume);
    Some(Records(volume, loc))
  }

  function Directory(volume: Volume, parent: u32): Option<seq<HfsEntry>> {
    var recs :- CatalogRecords(volume);
    Some(FilterMap(ChildOf(parent), recs))
  }

  method ListDir(volume: Volume, parent: u32) returns (r: Option<seq<HfsEntry>>)
    ensures r == Directory(volume, parent)
  {
    var loc :- LocateCatalog(volume);
    var entries: seq<HfsEntry> := [];
    var recs := ForEachRecord(volume, loc);
    for i := 0 to |recs|
      invariant entries == FilterMap(ChildOf(parent), recs[..i])
    {
      FilterMapStep(ChildOf(parent), recs, i);
      var entry := RecordEntry(recs[i]);
      if entry.Some? && entry.value.0 == parent {
        entries := entries + [entry.value.1];
      }
    }
    assert recs[..|recs|] == recs;
    return Some(entries);
  }

  function Metadata(volume: Volume, cnid: u32): Option<HfsStat> {
    var recs :- CatalogRecords(volume);
    FirstSome(StatOf(cnid), recs)
  }

  method Stat(volume: Volume, cnid: u32) returns (found: Option<HfsStat>)
    ensures found == Metadata(volume, cnid)
  {
    var loc :- LocateCatalog(volume);
    found := None;
    var recs := ForEachRecord(volume, loc);
    for i := 0 to |recs|
      invariant found == FirstSome(StatOf(cnid), recs[..i])
    {
      FirstSomeStep(StatOf(cnid), recs, i);
      if found.None? {
        found := RecordStat(recs[i], cnid);
      }
    }
    assert recs[..|recs|] == recs;
  }
}
