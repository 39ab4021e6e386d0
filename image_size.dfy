/** The size catalogue element: `ImageSize` with settable `Key`, `Width` and `Height`. */
module ImageSizes {
  import opened Common

  /** A snapshot of one `ImageSize` object's three properties. */
  datatype SizeSpec = SizeSpec(key: string, width: int32, height: int32)

  /** `ImageSize`: a plain object whose three properties are assigned by the
      constructor and may be reassigned independently afterwards. */
  class ImageSize {
    var key: string
    var width: int32
    var height: int32

    /** The constructor stores its arguments unchanged and validates nothing:
        an empty key or a zero or negative dimension is accepted as given. */
    constructor (key: string, width: int32, height: int32)
      ensures this.key == key && this.width == width && this.height == height
    {
      this.key := key;
      this.width := width;
      this.height := height;
    }

    /** The `Key` setter. */
    method SetKey(key: string)
      modifies this`key
      ensures this.key == key
      ensures width == old(width) && height == old(height)
    {
      this.key := key;
    }

    /** The `Width` setter. */
    method SetWidth(width: int32)
      modifies this`width
      ensures this.width == width
      ensures key == old(key) && height == old(height)
    {
      this.width := width;
    }

    /** The `Height` setter. */
    method SetHeight(height: int32)
      modifies this`height
      ensures this.height == height
      ensures key == old(key) && width == old(width)
    {
      this.height := height;
    }

    /** The object's current properties as a value. */
    function Spec(): (spec: SizeSpec)
      reads this
    {
      SizeSpec(key, width, height)
    }
  }

  /** The current properties of every object of a size list, in list order. */
  function Snapshot(sizes: seq<ImageSize>): (specs: seq<SizeSpec>)
    reads sizes
    ensures |specs| == |sizes|
    ensures forall i :: 0 <= i < |sizes| ==> specs[i] == sizes[i].Spec()
  {
    if sizes == [] then [] else Snapshot(sizes[..|sizes| - 1]) + [sizes[|sizes| - 1].Spec()]
  }

  /** The catalogue every record is resized to: small, medium and large squares. */
  function DefaultSizes(): (catalogue: seq<SizeSpec>)
  {
    [SizeSpec("small", 400, 400), SizeSpec("medium", 1000, 1000), SizeSpec("large", 1600, 1600)]
  }

  /** Builds the catalogue as fresh `ImageSize` objects, as each record does. */
  method NewDefaultSizes() returns (sizes: seq<ImageSize>)
    ensures Snapshot(sizes) == DefaultSizes()
    ensures forall s :: s in sizes ==> fresh(s)
  {
    var small := new ImageSize("small", 400, 400);
    var medium := new ImageSize("medium", 1000, 1000);
    var large := new ImageSize("large", 1600, 1600);
    sizes := [small, medium, large];
  }

  /** Every name of the default catalogue is different from the others, and
      every target dimension is positive. */
  lemma DefaultSizesWellFormed()
    ensures forall i, j :: 0 <= i < j < |DefaultSizes()| ==> DefaultSizes()[i].key != DefaultSizes()[j].key
    ensures forall i :: 0 <= i < |DefaultSizes()| ==> 0 < DefaultSizes()[i].width && 0 < DefaultSizes()[i].height
  {
  }
}
