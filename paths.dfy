/** Destination-key derivation: the zip for `dir/name.ext` is written to `dir/name.zip`.
    Keys are `/`-separated, as on the Lambda (Linux) runtime, where
    `Path.DirectorySeparatorChar` is `/` and the `Replace` that follows
    `Path.GetDirectoryName` changes nothing. */
module Paths {

  /** The index of the last `c` in `s`, or -1 when `s` holds none (`String.LastIndexOf`). */
  function LastIndexOf(s: string, c: char): (i: int)
    ensures -1 <= i < |s|
    ensures i == -1 <==> c !in s
    ensures 0 <= i ==> s[i] == c && c !in s[i + 1..]
  {
    if s == [] then -1
    else if s[|s| - 1] == c then |s| - 1
    else
      var i := LastIndexOf(s[..|s| - 1], c);
      assert s == s[..|s| - 1] + [s[|s| - 1]];
      i
  }

  /** The keys on which `Path.GetDirectoryName` and `Path.GetFileNameWithoutExtension`
      behave as plain "before / after the last `/`": non-empty (an empty key makes
      `GetDirectoryName` return null), not rooted, no trailing `/` and no empty
      segment (both of which the runtime's path normalisation would rewrite). */
  predicate WellFormedKey(key: string)
  {
    && key != []
    && key[0] != '/'
    && key[|key| - 1] != '/'
    && forall i :: 0 <= i < |key| - 1 ==> !(key[i] == '/' && key[i + 1] == '/')
  }

  /** `Path.GetDirectoryName`: everything before the last `/`; empty when there is none. */
  function DirectoryName(key: string): (dir: string)
  {
    var slash := LastIndexOf(key, '/');
    if slash < 0 then "" else key[..slash]
  }

  /** `Path.GetFileName`: everything after the last `/`. */
  function FileName(key: string): (name: string)
  {
    key[LastIndexOf(key, '/') + 1..]
  }

  /** `Path.GetFileNameWithoutExtension`: the file name cut at its last `.`
      (so only the last extension goes, and `.profile` gives the empty stem). */
  function FileNameWithoutExtension(key: string): (stem: string)
  {
    var name := FileName(key);
    var dot := LastIndexOf(name, '.');
    if dot < 0 then name else name[..dot]
  }

  /** `$"{filePath}/{fileNameWithoutExtension}.zip"`: where the archive of a source
      object is written. */
  function DestinationKey(key: string): (dest: string)
    requires WellFormedKey(key)
  {
    DirectoryName(key) + "/" + FileNameWithoutExtension(key) + ".zip"
  }

  /** A key with a directory is that directory, a `/` and its file name, and its
      destination is again a well-formed key; a key without one gets a destination
      with a leading `/`. */
  lemma DestinationShape(key: string)
    requires WellFormedKey(key)
    ensures '/' in key ==> key == DirectoryName(key) + "/" + FileName(key)
    ensures '/' in key ==> WellFormedKey(DestinationKey(key))
    ensures '/' !in key ==> DestinationKey(key) == "/" + FileNameWithoutExtension(key) + ".zip"
  {
    if '/' in key {
      SplitAtLastSlash(key);
      DestinationWellFormed(key);
    }
  }

  /** A key with a `/` is its directory, a `/`, and its file name; the file name
      holds no `/`. */
  lemma SplitAtLastSlash(key: string)
    requires '/' in key
    ensures key == DirectoryName(key) + "/" + FileName(key)
    ensures '/' !in FileName(key)
  {
    var slash := LastIndexOf(key, '/');
    assert key == key[..slash] + [key[slash]] + key[slash + 1..];
  }

  /** The stem is a prefix of the file name and holds no `/`. */
  lemma StemIsPrefixOfFileName(key: string)
    ensures var stem := FileNameWithoutExtension(key);
      stem <= FileName(key) && '/' !in stem
  {
    var name := FileName(key);
    var dot := LastIndexOf(name, '.');
    if 0 <= dot {
      assert name[..dot] <= name;
      assert forall x :: x in name[..dot] ==> x in name;
    }
  }

  /** No two adjacent `/` in `s`. */
  predicate NoEmptySegment(s: string)
  {
    forall i :: 0 <= i < |s| - 1 ==> !(s[i] == '/' && s[i + 1] == '/')
  }

  lemma NoEmptySegmentOfPrefix(s: string, n: nat)
    requires n <= |s| && NoEmptySegment(s)
    ensures NoEmptySegment(s[..n])
  {
    forall i | 0 <= i < n - 1
      ensures !(s[..n][i] == '/' && s[..n][i + 1] == '/')
    {
      assert s[..n][i] == s[i] && s[..n][i + 1] == s[i + 1];
    }
  }

  lemma NoEmptySegmentOfJoin(a: string, b: string)
    requires NoEmptySegment(a) && '/' !in b && a != [] && a[|a| - 1] != '/'
    ensures NoEmptySegment(a + "/" + b)
  {
    var s := a + "/" + b;
    forall i | 0 <= i < |s| - 1
      ensures !(s[i] == '/' && s[i + 1] == '/')
    {
      if i < |a| - 1 {
        assert s[i] == a[i] && s[i + 1] == a[i + 1];
      } else if |a| <= i {
        assert s[i + 1] == b[i - |a|];
        assert b[i - |a|] in b;
      }
    }
  }

  lemma DestinationWellFormed(key: string)
    requires WellFormedKey(key) && '/' in key
    ensures WellFormedKey(DirectoryName(key) + "/" + FileNameWithoutExtension(key) + ".zip")
  {
    var slash := LastIndexOf(key, '/');
    var dir := DirectoryName(key);
    var stem := FileNameWithoutExtension(key);
    var tail := stem + ".zip";
    StemIsPrefixOfFileName(key);
    ZipTail(stem, tail);
    assert 0 < slash by { assert key[0] != '/'; }
    assert dir == key[..slash];
    assert NoEmptySegment(key);
    NoEmptySegmentOfPrefix(key, slash);
    assert key[slash] == '/';
    assert key[slash - 1] != '/';
    NoEmptySegmentOfJoin(dir, tail);
    assert dir + "/" + stem + ".zip" == dir + "/" + tail;
    assert (dir + "/" + tail)[0] == dir[0] == key[0];
  }

  /** The archive lands next to its source: a key with a directory keeps that
      directory, and the archive's own stem is the source's stem; its extension is `zip`. */
  lemma DestinationRoundTrip(key: string)
    requires WellFormedKey(key) && '/' in key
    ensures DirectoryName(DestinationKey(key)) == DirectoryName(key)
    ensures FileName(DestinationKey(key)) == FileNameWithoutExtension(key) + ".zip"
    ensures FileNameWithoutExtension(DestinationKey(key)) == FileNameWithoutExtension(key)
  {
    var dir := DirectoryName(key);
    var stem := FileNameWithoutExtension(key);
    var tail := stem + ".zip";
    var dest := DestinationKey(key);
    assert dest == dir + "/" + tail;
    StemIsPrefixOfFileName(key);
    ZipTail(stem, tail);
    JoinSplitsBack(dir, tail);
    assert FileName(dest) == tail;
  }

  /** `tail == stem + ".zip"` has no `/` when `stem` has none, and its last `.`
      is the one that starts `.zip`. */
  lemma ZipTail(stem: string, tail: string)
    requires '/' !in stem && tail == stem + ".zip"
    ensures '/' !in tail
    ensures LastIndexOf(tail, '.') == |stem|
    ensures tail[..|stem|] == stem
  {
    forall i | 0 <= i < |tail|
      ensures tail[i] != '/'
    {
      if i < |stem| {
        assert tail[i] == stem[i] && stem[i] in stem;
      } else {
        assert tail[i] == ".zip"[i - |stem|];
      }
    }
    assert tail[|stem|] == '.';
    assert tail[|stem| + 1..] == "zip";
    LastIndexOfIs(tail, '.', |stem|);
  }

  /** `dir + "/" + tail` with no `/` in `tail` splits back into `dir` and `tail`. */
  lemma JoinSplitsBack(dir: string, tail: string)
    requires '/' !in tail
    ensures DirectoryName(dir + "/" + tail) == dir
    ensures FileName(dir + "/" + tail) == tail
  {
    var s := dir + "/" + tail;
    assert s[|dir| + 1..] == tail;
    LastIndexOfIs(s, '/', |dir|);
  }

  /** `LastIndexOf` is pinned down by its contract. */
  lemma LastIndexOfIs(s: string, c: char, i: int)
    requires 0 <= i < |s| && s[i] == c && c !in s[i + 1..]
    ensures LastIndexOf(s, c) == i
  {
  }

  /** A key `dir/stem.ext` whose extension holds no `.` is archived to `dir/stem.zip`. */
  lemma DestinationOfParts(dir: string, stem: string, ext: string)
    requires '/' !in stem && '/' !in ext && '.' !in ext
    requires WellFormedKey(dir + "/" + stem + "." + ext)
    ensures DestinationKey(dir + "/" + stem + "." + ext) == dir + "/" + stem + ".zip"
  {
    var name := stem + "." + ext;
    assert dir + "/" + stem + "." + ext == dir + "/" + name;
    StemDotExt(stem, ext);
    JoinSplitsBack(dir, name);
  }

  /** A key `stem.ext` without a directory, its extension holding no `.`, is archived
      to `/stem.zip`. */
  lemma DestinationOfBareName(stem: string, ext: string)
    requires '/' !in stem && '/' !in ext && '.' !in ext
    ensures WellFormedKey(stem + "." + ext)
    ensures DestinationKey(stem + "." + ext) == "/" + stem + ".zip"
  {
    var name := stem + "." + ext;
    StemDotExt(stem, ext);
    NoDirectory(name);
  }

  /** A key `dir/name` whose file name has no extension keeps that name whole:
      it is archived to `dir/name.zip`. */
  lemma DestinationOfPlainName(dir: string, name: string)
    requires '/' !in name && '.' !in name
    requires WellFormedKey(dir + "/" + name)
    ensures DestinationKey(dir + "/" + name) == dir + "/" + name + ".zip"
  {
    JoinSplitsBack(dir, name);
  }

  /** `stem.ext` holds no `/`, and its last `.` is the one before `ext`. */
  lemma StemDotExt(stem: string, ext: string)
    requires '/' !in stem && '/' !in ext && '.' !in ext
    ensures var name := stem + "." + ext;
      '/' !in name && LastIndexOf(name, '.') == |stem| && name[..|stem|] == stem
  {
    var name := stem + "." + ext;
    forall i | 0 <= i < |name|
      ensures name[i] != '/'
    {
      if i < |stem| {
        assert name[i] == stem[i] && stem[i] in stem;
      } else if i > |stem| {
        assert name[i] == ext[i - |stem| - 1] && ext[i - |stem| - 1] in ext;
      }
    }
    assert name[|stem| + 1..] == ext;
    LastIndexOfIs(name, '.', |stem|);
  }

  /** The documented example of a nested key. */
  lemma DestinationExampleNested()
    ensures DestinationKey("photos/2023/img.png") == "photos/2023/img.zip"
  {
    assert "photos/2023" + "/" + "img" + "." + "png" == "photos/2023/img.png";
    assert "photos/2023" + "/" + "img" + ".zip" == "photos/2023/img.zip";
    DestinationOfParts("photos/2023", "img", "png");
  }

  /** A key without a directory gets a leading `/`. */
  lemma DestinationExampleNoDirectory()
    ensures DestinationKey("img.png") == "/img.zip"
  {
    assert "img" + "." + "png" == "img.png";
    assert "/" + "img" + ".zip" == "/img.zip";
    DestinationOfBareName("img", "png");
  }

  /** Only the last extension is dropped. */
  lemma DestinationExampleDoubleExtension()
    ensures DestinationKey("dir/a.tar.gz") == "dir/a.tar.zip"
  {
    assert "dir" + "/" + "a.tar" + "." + "gz" == "dir/a.tar.gz";
    assert "dir" + "/" + "a.tar" + ".zip" == "dir/a.tar.zip";
    DestinationOfParts("dir", "a.tar", "gz");
  }

  /** Only the last extension is dropped, and a key without a directory gets a leading `/`. */
  lemma DestinationExampleDoubleExtensionNoDirectory()
    ensures DestinationKey("a.tar.gz") == "/a.tar.zip"
  {
    assert "a.tar" + "." + "gz" == "a.tar.gz";
    assert "/" + "a.tar" + ".zip" == "/a.tar.zip";
    DestinationOfBareName("a.tar", "gz");
  }

  /** A file name without an extension is kept whole. */
  lemma DestinationExampleNoExtension()
    ensures DestinationKey("dir/README") == "dir/README.zip"
  {
    assert "dir" + "/" + "README" == "dir/README";
    assert "dir" + "/" + "README" + ".zip" == "dir/README.zip";
    DestinationOfPlainName("dir", "README");
  }

  /** A dot-file's whole name is its extension, so its stem is empty. */
  lemma DestinationExampleDotFile()
    ensures DestinationKey("d/.profile") == "d/.zip"
  {
    assert "d" + "/" + "" + "." + "profile" == "d/.profile";
    assert "d" + "/" + "" + ".zip" == "d/.zip";
    DestinationOfParts("d", "", "profile");
  }

  /** A key without `/` has an empty directory and is its own file name. */
  lemma NoDirectory(key: string)
    requires '/' !in key
    ensures DirectoryName(key) == "" && FileName(key) == key
  {
  }
}
