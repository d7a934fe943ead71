/** Picking the image out of a response and fitting it to the artwork. */
module Selection {
  import opened Service

  /** Index of the first part that carries inline image data. */
  function FirstImage(parts: seq<Part>): (r: Option<nat>)
    ensures r.Some? ==> r.value < |parts| && parts[r.value].ImagePart?
    ensures r.Some? ==> forall j :: 0 <= j < r.value ==> !parts[j].ImagePart?
    ensures r.None? <==> forall j :: 0 <= j < |parts| ==> !parts[j].ImagePart?
    decreases |parts|
  {
    if parts == [] then None
    else if parts[0].ImagePart? then Some(0)
    else
      match FirstImage(parts[1..])
      case None => None
      case Some(k) => Some(k + 1)
  }

  /** The `for part in response.parts: if part.inline_data is not None: ... break`
      scan: it stops at the first image part and never looks further. */
  method FindImage(parts: seq<Part>) returns (r: Option<nat>)
    ensures r == FirstImage(parts)
  {
    r := None;
    var i := 0;
    while i < |parts|
      invariant 0 <= i <= |parts|
      invariant forall j :: 0 <= j < i ==> !parts[j].ImagePart?
    {
      if parts[i].ImagePart? {
        r := Some(i);
        return;
      }
      i := i + 1;
    }
  }

  /** A call yields a mask when it returns a response holding an image part. */
  predicate Yields(outcome: Outcome) {
    outcome.Response? && FirstImage(outcome.parts).Some?
  }

  /** The geometry fix: resample with NEAREST to the artwork's `(w, h)` only when
      the sizes differ; an image of the right size passes through untouched. */
  function FitToArtwork(image: Image, w: nat, h: nat): (r: Image)
    ensures r.width == w && r.height == h
    ensures image.width == w && image.height == h ==> r == image
    ensures image.width != w || image.height != h ==> r == NearestResized(image, w, h)
  {
    if (image.width, image.height) != (w, h) then NearestResized(image, w, h) else image
  }

  /** The mask a response yields: its first image part, decoded and fitted to `(w, h)`. */
  function MaskOf(parts: seq<Part>, w: nat, h: nat): (mask: Image)
    requires FirstImage(parts).Some?
    ensures mask.width == w && mask.height == h
  {
    FitToArtwork(Decode(parts[FirstImage(parts).value]), w, h)
  }
}
