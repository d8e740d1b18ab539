/** Reading a file: its data fork, or its decoded payload when it is compressed. */
module Reader {
  import opened Wrappers
  import opened Sequences
  import opened ByteOrder
  import opened BTree
  import opened Forks
  import opened Catalog
  import opened Attributes
  import opened Decmpfs

  function ToOption(r: Decoding): Option<Bytes> {
    match r case Ok(b) => Some(b) case Err(_) => None
  }

  /** The resource fork handed to the decoder: none when its logical size is zero. */
  function ResourceOf(volume: Volume, blockSize: u32, resource: Fork): Option<Bytes> {
    if resource.logical > 0 then ForkContent(volume, blockSize, resource) else None
  }

  /** What a read of the selected file record returns. */
  function ContentsOf(
    codecs: Codecs, volume: Volume, blockSize: u32, attribute: Option<Bytes>, forks: FilePair): Option<Bytes>
  {
    match attribute
    case Some(xattr) => ToOption(Decoded(codecs, xattr, ResourceOf(volume, blockSize, forks.resource)))
    case None => ForkContent(volume, blockSize, forks.data)
  }

  /** A read among the catalog records `recs`, given the file's compression attribute. */
  function ReadAmong(
    codecs: Codecs, volume: Volume, blockSize: u32, recs: seq<Bytes>, attribute: Option<Bytes>,
    cnid: u32): Option<Bytes>
  {
    var forks :- FirstSome(ForksOf(cnid), recs);
    ContentsOf(codecs, volume, blockSize, attribute, forks)
  }

  function FileContents(codecs: Codecs, volume: Volume, cnid: u32): Option<Bytes> {
    var loc :- LocateCatalog(volume);
    ReadAmong(codecs, volume, loc.blockSize, Records(volume, loc), DecmpfsAttribute(volume, cnid), cnid)
  }

  method ReadFile(codecs: Codecs, volume: Volume, cnid: u32) returns (r: Option<Bytes>)
    ensures r == FileContents(codecs, volume, cnid)
  {
    var loc :- LocateCatalog(volume);
    var forks := SelectForks(volume, loc, cnid);
    if forks.None? {
      return None;
    }
    var xattr := DecmpfsXattr(volume, cnid);
    if xattr.Some? {
      var resource: Option<Bytes> := None;
      if forks.value.resource.logical > 0 {
        resource := ForkBytes(volume, loc.blockSize, forks.value.resource);
      }
      var decoded := Decompress(codecs, xattr.value, resource);
      return ToOption(decoded);
    }
    r := ForkBytes(volume, loc.blockSize, forks.value.data);
  }

  /** The closure of `ReadFile`: the first file record for `cnid` decides. */
  method SelectForks(volume: Volume, loc: CatalogLoc, cnid: u32) returns (forks: Option<FilePair>)
    requires Walkable(loc)
    ensures forks == FirstSome(ForksOf(cnid), Records(volume, loc))
  {
    forks := None;
    var recs := ForEachRecord(volume, loc);
    for i := 0 to |recs|
      invariant forks == FirstSome(ForksOf(cnid), recs[..i])
    {
      FirstSomeStep(ForksOf(cnid), recs, i);
      if forks.None? {
        forks := FileForks(recs[i], cnid);
      }
    }
    assert recs[..|recs|] == recs;
  }

  // ---- metadata bounds the contents ------------------------------------------

  /** A file record that yields forks also yields metadata, with the fork's own size. */
  lemma {:induction false} ForksHaveStat(rec: Bytes, cnid: u32)
    requires FileForks(rec, cnid).Some?
    ensures RecordStat(rec, cnid).Some?
    ensures !RecordStat(rec, cnid).value.isDir
    ensures RecordStat(rec, cnid).value.size == FileForks(rec, cnid).value.data.logical
  {
    var data := 2 + Be16(rec, 0) as int;
    assert Be64(rec[data + 88..], 0) == Be64(rec, data + 88);
  }

  ghost predicate OneRecordPerCnid(recs: seq<Bytes>, cnid: u32) {
    forall i, j :: 0 <= i < j < |recs| ==> !(RecordStat(recs[i], cnid).Some? && RecordStat(recs[j], cnid).Some?)
  }

  /** Where a CNID is carried once and is not compressed, the metadata lookup succeeds
      whenever the read does, says it is a file, and its size bounds the read. */
  lemma {:induction false} StatBoundsReadAmong(
    codecs: Codecs, volume: Volume, blockSize: u32, recs: seq<Bytes>, cnid: u32)
    requires OneRecordPerCnid(recs, cnid)
    ensures var read, stat := ReadAmong(codecs, volume, blockSize, recs, None, cnid), FirstSome(StatOf(cnid), recs);
      read.Some? ==> stat.Some? && !stat.value.isDir && |read.value| <= stat.value.size
  {
    hide RecordStat, FileForks;
    var k := FirstSomeIndex(ForksOf(cnid), recs);
    var m := FirstSomeIndex(StatOf(cnid), recs);
    if k < |recs| {
      ForksHaveStat(recs[k], cnid);
      assert StatOf(cnid)(recs[k]).Some?;
      assert StatOf(cnid)(recs[m]).Some?;
    }
  }

  /** The same for the volume's own records. */
  lemma {:induction false} StatBoundsRead(codecs: Codecs, volume: Volume, cnid: u32)
    ensures match CatalogRecords(volume)
      case None => FileContents(codecs, volume, cnid) == None
      case Some(recs) =>
        OneRecordPerCnid(recs, cnid) && DecmpfsAttribute(volume, cnid).None? ==>
        var read, stat := FileContents(codecs, volume, cnid), Metadata(volume, cnid);
        read.Some? ==> stat.Some? && !stat.value.isDir && |read.value| <= stat.value.size
  {
    hide OneRecordPerCnid, DecmpfsAttribute, ReadAmong;
    var located := LocateCatalog(volume);
    if located.Some? && OneRecordPerCnid(Records(volume, located.value), cnid) {
      StatBoundsReadAmong(codecs, volume, located.value.blockSize, Records(volume, located.value), cnid);
    }
  }
}
