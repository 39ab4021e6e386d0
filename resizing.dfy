/** `ResizeImg`: one JPEG variant per catalogue size, collected in a dictionary
    keyed by the size's name. */
module Resizing {
  import opened Common
  import opened ImageSizes
  import opened Imaging
  import opened Dictionaries

  /** What can be thrown out of `ResizeImg`. */
  datatype ResizeError =
    | UndecodableImage            // Image.Load rejected the bytes
    | ResizeRejected(key: string) // the library threw while resizing to this size
    | EncodeRejected(key: string) // the JPEG encoder threw on the image for this size
    | DuplicateSizeKey(key: string) // Dictionary.Add met a size name twice

  /** The variant set: size name to JPEG bytes, in catalogue order. */
  type Variants = Dict<Bytes>

  /** One iteration's work for one size: a fresh load of the original bytes, the
      guarded resize, and the JPEG encoding. It depends on this size alone. */
  function VariantFor(codec: Codec, bytes: Bytes, size: SizeSpec): (variant: Result<Bytes, ResizeError>)
  {
    match codec.load(bytes)
    case None => Err(UndecodableImage)
    case Some(img) =>
      match Transform(codec, img, size)
      case None => Err(ResizeRejected(size.key))
      case Some(out) =>
        match codec.saveJpeg(out)
        case None => Err(EncodeRejected(size.key))
        case Some(data) => Ok(data)
  }

  /** Every size name of the list is different from the others. */
  predicate DistinctNames(sizes: seq<SizeSpec>)
  {
    forall i, j :: 0 <= i < j < |sizes| ==> sizes[i].key != sizes[j].key
  }

  /** The outcome of the loop over `sizes`: the first exception thrown, or the
      dictionary with one entry per size. */
  function ResizeAll(codec: Codec, bytes: Bytes, sizes: seq<SizeSpec>): (outcome: Result<Variants, ResizeError>)
  {
    if sizes == [] then Ok([])
    else
      var last := sizes[|sizes| - 1];
      match ResizeAll(codec, bytes, sizes[..|sizes| - 1])
      case Err(e) => Err(e)
      case Ok(variants) =>
        match VariantFor(codec, bytes, last)
        case Err(e) => Err(e)
        case Ok(data) =>
          match Add(variants, last.key, data)
          case None => Err(DuplicateSizeKey(last.key))
          case Some(extended) => Ok(extended)
  }

  /** `ResizeImg`: for each size in list order, load the original bytes afresh,
      resize when both sides differ from the target, save as JPEG and add the
      result under the size's name. Any exception ends the whole call. */
  method ResizeImg(codec: Codec, bytes: Bytes, sizeList: seq<ImageSize>)
    returns (r: Result<Variants, ResizeError>)
    ensures r == ResizeAll(codec, bytes, Snapshot(sizeList))
  {
    ghost var specs := Snapshot(sizeList);
    var result: Variants := [];
    var i := 0;
    while i < |sizeList|
      invariant 0 <= i <= |sizeList|
      invariant ResizeAll(codec, bytes, specs[..i]) == Ok(result)
      invariant Snapshot(sizeList) == specs
    {
      var size := sizeList[i];
      ResizeStep(codec, bytes, specs, i, result);
      var pixelData := VariantFor(codec, bytes, size.Spec());
      if pixelData.Err? {
        return Err(pixelData.error);
      }
      var added := Add(result, size.key, pixelData.value);
      if added.None? {
        return Err(DuplicateSizeKey(size.key));
      }
      result := added.value;
      i := i + 1;
    }
    assert specs[..i] == specs;
    r := Ok(result);
  }

  /** One turn of the loop, over the sizes so far giving `result`: when the variant
      of size `i` cannot be made, or its name is already present, the whole call
      throws that; otherwise the loop goes on with the variant added. */
  lemma ResizeStep(codec: Codec, bytes: Bytes, sizes: seq<SizeSpec>, i: nat, result: Variants)
    requires i < |sizes| && ResizeAll(codec, bytes, sizes[..i]) == Ok(result)
    ensures VariantFor(codec, bytes, sizes[i]).Err? ==>
      ResizeAll(codec, bytes, sizes) == Err(VariantFor(codec, bytes, sizes[i]).error)
    ensures VariantFor(codec, bytes, sizes[i]).Ok? ==>
      var added := Add(result, sizes[i].key, VariantFor(codec, bytes, sizes[i]).value);
      if added.None? then ResizeAll(codec, bytes, sizes) == Err(DuplicateSizeKey(sizes[i].key))
      else ResizeAll(codec, bytes, sizes[..i + 1]) == Ok(added.value)
  {
    assert sizes[..i + 1][..i] == sizes[..i];
    if ResizeAll(codec, bytes, sizes[..i + 1]).Err? {
      ErrorPersists(codec, bytes, sizes, i + 1);
    }
  }

  /** Once the loop has thrown on a prefix of the sizes, the whole call throws the same. */
  lemma {:induction false} ErrorPersists(codec: Codec, bytes: Bytes, sizes: seq<SizeSpec>, n: nat)
    requires n <= |sizes| && ResizeAll(codec, bytes, sizes[..n]).Err?
    ensures ResizeAll(codec, bytes, sizes) == ResizeAll(codec, bytes, sizes[..n])
    decreases |sizes| - n
  {
    if n < |sizes| {
      assert sizes[..n + 1][..n] == sizes[..n];
      ErrorPersists(codec, bytes, sizes, n + 1);
    } else {
      assert sizes[..n] == sizes;
    }
  }

  /** The call succeeds exactly when the size names are distinct and every size's
      own variant succeeds; it then holds one entry per size, in list order, named
      by the size and holding that size's variant computed from the original bytes
      (so no entry depends on the sizes before it). */
  lemma {:induction false} ResizeAllCharacterised(codec: Codec, bytes: Bytes, sizes: seq<SizeSpec>)
    ensures ResizeAll(codec, bytes, sizes).Ok? <==>
      DistinctNames(sizes) && forall i :: 0 <= i < |sizes| ==> VariantFor(codec, bytes, sizes[i]).Ok?
    ensures ResizeAll(codec, bytes, sizes).Ok? ==>
      var variants := ResizeAll(codec, bytes, sizes).value;
      && |variants| == |sizes|
      && forall i :: 0 <= i < |sizes| ==>
           variants[i] == Entry(sizes[i].key, VariantFor(codec, bytes, sizes[i]).value)
  {
    if sizes != [] {
      var init := sizes[..|sizes| - 1];
      var last := sizes[|sizes| - 1];
      ResizeAllCharacterised(codec, bytes, init);
      var r := ResizeAll(codec, bytes, init);
      assert forall i :: 0 <= i < |init| ==> sizes[i] == init[i];
      if r.Ok? && VariantFor(codec, bytes, last).Ok? {
        NamesCarryOver(r.value, sizes);
      }
      assert (forall i :: 0 <= i < |sizes| ==> VariantFor(codec, bytes, sizes[i]).Ok?) <==>
        (forall i :: 0 <= i < |init| ==> VariantFor(codec, bytes, init[i]).Ok?) && VariantFor(codec, bytes, last).Ok?;
      assert DistinctNames(sizes) ==> DistinctNames(init);
    }
  }

  /** With one entry named after each size but the last, the last size's name is
      already present exactly when the names are not all distinct. */
  lemma NamesCarryOver(variants: Variants, sizes: seq<SizeSpec>)
    requires sizes != [] && |variants| == |sizes| - 1
    requires forall i :: 0 <= i < |variants| ==> variants[i].key == sizes[i].key
    requires DistinctNames(sizes[..|sizes| - 1])
    ensures HasKey(variants, sizes[|sizes| - 1].key) <==> !DistinctNames(sizes)
  {
    var init, last := sizes[..|sizes| - 1], sizes[|sizes| - 1];
    if HasKey(variants, last.key) {
      var i :| 0 <= i < |variants| && variants[i].key == last.key;
      assert sizes[i].key == sizes[|sizes| - 1].key;
    }
    if !DistinctNames(sizes) {
      var i, j :| 0 <= i < j < |sizes| && sizes[i].key == sizes[j].key;
      if j == |sizes| - 1 {
        assert variants[i].key == last.key;
      }
    }
  }

  /** Undecodable bytes abort the whole call on the first size: there is no per-size guard. */
  lemma {:induction false} UndecodableAbortsAll(codec: Codec, bytes: Bytes, sizes: seq<SizeSpec>)
    requires codec.load(bytes).None? && sizes != []
    ensures ResizeAll(codec, bytes, sizes) == Err(UndecodableImage)
  {
    assert ResizeAll(codec, bytes, sizes[..1]) == Err(UndecodableImage) by {
      assert sizes[..1][..0] == [];
    }
    ErrorPersists(codec, bytes, sizes, 1);
  }

  /** Under the library's promises, each size's variant of an image that fits a JPEG
      file is made, and loads back at the dimensions the resize guard chose for it. */
  lemma VariantDimensions(codec: Codec, bytes: Bytes, img: Image, size: SizeSpec)
    requires WellBehaved(codec) && JpegKeepsDimensions(codec)
    requires codec.load(bytes) == Some(img) && FitsJpeg(img)
    requires 0 < size.width < JPEG_SIDE_LIMIT && 0 < size.height < JPEG_SIDE_LIMIT
    ensures VariantFor(codec, bytes, size).Ok?
    ensures var back := codec.load(VariantFor(codec, bytes, size).value);
      && back.Some?
      && (back.value.width, back.value.height) ==
           if NeedsResize(img, size) then (size.width, size.height) else (img.width, img.height)
  {
    TransformDimensions(codec, img, size);
  }

  /** The default catalogue never hits a duplicate name; with an image that decodes
      and fits a JPEG file, and a library that keeps its promises, it yields the
      entries small, medium and large in that order. */
  lemma DefaultSizesResize(codec: Codec, bytes: Bytes)
    ensures ResizeAll(codec, bytes, DefaultSizes()).Err? ==>
      !ResizeAll(codec, bytes, DefaultSizes()).error.DuplicateSizeKey?
    ensures WellBehaved(codec) && Processable(codec, bytes) ==>
      && ResizeAll(codec, bytes, DefaultSizes()).Ok?
      && |ResizeAll(codec, bytes, DefaultSizes()).value| == 3
      && ResizeAll(codec, bytes, DefaultSizes()).value[0].key == "small"
      && ResizeAll(codec, bytes, DefaultSizes()).value[1].key == "medium"
      && ResizeAll(codec, bytes, DefaultSizes()).value[2].key == "large"
  {
    DefaultSizesWellFormed();
    DuplicateNeedsRepeatedName(codec, bytes, DefaultSizes());
    ResizeAllCharacterised(codec, bytes, DefaultSizes());
    if WellBehaved(codec) && Processable(codec, bytes) {
      forall i | 0 <= i < |DefaultSizes()|
        ensures VariantFor(codec, bytes, DefaultSizes()[i]).Ok?
      {
        TransformDimensions(codec, codec.load(bytes).value, DefaultSizes()[i]);
      }
    }
  }

  /** The guard passes an image whose width already matches `small` through
      unresized, whatever its height: when the encoder refuses that image (a side
      too long for a JPEG file, say 400 by 70000), the whole call throws on the
      first size. */
  lemma TallImageRejected(codec: Codec, bytes: Bytes, img: Image)
    requires codec.load(bytes) == Some(img) && img.width == 400 && codec.saveJpeg(img).None?
    ensures ResizeAll(codec, bytes, DefaultSizes()) == Err(EncodeRejected("small"))
  {
    var sizes := DefaultSizes();
    assert ResizeAll(codec, bytes, sizes[..1]) == Err(EncodeRejected("small")) by {
      assert sizes[..1][..0] == [];
    }
    ErrorPersists(codec, bytes, sizes, 1);
  }

  /** A duplicate-name exception needs two sizes with the same name. */
  lemma {:induction false} DuplicateNeedsRepeatedName(codec: Codec, bytes: Bytes, sizes: seq<SizeSpec>)
    requires DistinctNames(sizes)
    ensures ResizeAll(codec, bytes, sizes).Err? ==> !ResizeAll(codec, bytes, sizes).error.DuplicateSizeKey?
  {
    ResizeAllCharacterised(codec, bytes, sizes);
    if sizes != [] {
      var init := sizes[..|sizes| - 1];
      assert DistinctNames(init) by {
        forall i, j | 0 <= i < j < |init| ensures init[i].key != init[j].key {
          assert init[i] == sizes[i] && init[j] == sizes[j];
        }
      }
      DuplicateNeedsRepeatedName(codec, bytes, init);
      ResizeAllCharacterised(codec, bytes, init);
    }
  }
}
