/** `CreateZip`: one archive entry per variant. The archive is modelled by its
    entry list; the ZIP/Deflate byte encoding is not part of this model. */
module Archiving {
  import opened Common
  import opened Dictionaries

  /** One archive entry: its name and its (uncompressed) content. */
  datatype ZipEntry = ZipEntry(name: string, data: Bytes)

  /** The archive's entries in the order they were created. */
  type Archive = seq<ZipEntry>

  /** `$"/{fileName}_{image.Key}"`: the entry name keeps a leading `/`. */
  function EntryName(fileName: string, key: string): (entry: string)
  {
    "/" + fileName + "_" + key
  }

  /** The size name back from an entry name: what follows `"/" + fileName + "_"`. */
  function EntryKey(fileName: string, name: string): (key: string)
    requires |name| >= |fileName| + 2
  {
    name[|fileName| + 2..]
  }

  /** Entry names decode back to their size name, start with `/`, and tell two
      size names apart. */
  lemma EntryNameRoundTrip(fileName: string, key: string)
    ensures |EntryName(fileName, key)| == |fileName| + 2 + |key|
    ensures EntryKey(fileName, EntryName(fileName, key)) == key
    ensures EntryName(fileName, key)[0] == '/'
  {
    assert EntryName(fileName, key)[|fileName| + 2..] == key;
  }

  lemma EntryNameInjective(fileName: string, k1: string, k2: string)
    requires EntryName(fileName, k1) == EntryName(fileName, k2)
    ensures k1 == k2
  {
    EntryNameRoundTrip(fileName, k1);
    EntryNameRoundTrip(fileName, k2);
  }

  /** The archive of a variant set: entry i is named after variant i and holds its bytes. */
  function ArchiveOf(fileName: string, images: Dict<Bytes>): (archive: Archive)
    ensures |archive| == |images|
  {
    if images == [] then []
    else
      var last := images[|images| - 1];
      ArchiveOf(fileName, images[..|images| - 1]) + [ZipEntry(EntryName(fileName, last.key), last.value)]
  }

  /** `CreateZip`: creates one entry per dictionary entry, in enumeration order,
      writing that entry's bytes into it. */
  method CreateZip(fileName: string, images: Dict<Bytes>) returns (archive: Archive)
    ensures |archive| == |images|
    ensures forall i :: 0 <= i < |images| ==>
      archive[i] == ZipEntry(EntryName(fileName, images[i].key), images[i].value)
    ensures archive == ArchiveOf(fileName, images)
  {
    archive := [];
    var i := 0;
    while i < |images|
      invariant 0 <= i <= |images|
      invariant archive == ArchiveOf(fileName, images[..i])
    {
      var image := images[i];
      assert images[..i + 1][..i] == images[..i];
      archive := archive + [ZipEntry(EntryName(fileName, image.key), image.value)];
      i := i + 1;
    }
    assert images[..i] == images;
    ArchiveEntries(fileName, images);
  }

  /** Entry i of the archive is named after variant i and holds variant i's bytes. */
  lemma {:induction false} ArchiveEntries(fileName: string, images: Dict<Bytes>)
    ensures forall i :: 0 <= i < |images| ==>
      ArchiveOf(fileName, images)[i] == ZipEntry(EntryName(fileName, images[i].key), images[i].value)
  {
    if images != [] {
      var init := images[..|images| - 1];
      ArchiveEntries(fileName, init);
      assert forall i :: 0 <= i < |init| ==> init[i] == images[i];
    }
  }

  /** The content of the first entry with the given name, as reading the archive
      back by name finds it; None when no entry has that name. */
  function Extract(archive: Archive, name: string): (data: Option<Bytes>)
  {
    if archive == [] then None
    else if archive[0].name == name then Some(archive[0].data)
    else Extract(archive[1..], name)
  }

  /** Reading the archive back: the entry named after a size name holds exactly
      what the variant set holds under that name, and there is no entry for a
      name the variant set lacks. */
  lemma {:induction false} ExtractRoundTrip(fileName: string, images: Dict<Bytes>, key: string)
    ensures Extract(ArchiveOf(fileName, images), EntryName(fileName, key)) == Lookup(images, key)
  {
    if images != [] {
      var archive := ArchiveOf(fileName, images);
      var rest := images[1..];
      ArchiveEntries(fileName, images);
      ArchiveEntries(fileName, rest);
      assert archive[1..] == ArchiveOf(fileName, rest) by {
        forall i | 0 <= i < |rest|
          ensures archive[1..][i] == ArchiveOf(fileName, rest)[i]
        {
          assert rest[i] == images[i + 1];
        }
      }
      if images[0].key != key {
        if EntryName(fileName, images[0].key) == EntryName(fileName, key) {
          EntryNameInjective(fileName, images[0].key, key);
        }
        ExtractRoundTrip(fileName, rest, key);
      }
    }
  }

  /** Distinct size names give distinct entry names. */
  lemma ArchiveNamesDistinct(fileName: string, images: Dict<Bytes>)
    requires DistinctKeys(images)
    ensures forall i, j :: 0 <= i < j < |images| ==>
      ArchiveOf(fileName, images)[i].name != ArchiveOf(fileName, images)[j].name
  {
    ArchiveEntries(fileName, images);
    forall i, j | 0 <= i < j < |images|
      ensures ArchiveOf(fileName, images)[i].name != ArchiveOf(fileName, images)[j].name
    {
      if EntryName(fileName, images[i].key) == EntryName(fileName, images[j].key) {
        EntryNameInjective(fileName, images[i].key, images[j].key);
      }
    }
  }
}
