/** Thumbnail sizing of the later file system generation
    (hisfs/thumbnails.py): the size a thumbnail gets so that it fits a
    requested box while keeping the image's aspect ratio, and the
    report `gen_thumbnail` makes of it. Decoding and re-encoding the image
    belong to the imaging library and are parameters here. */
module Thumbnails {
  import opened Common
  import opened Text

  /** A width and a height in pixels. */
  datatype Resolution = Resolution(x: int, y: int)

  /** `NoThumbnailRequired`. */
  datatype ThumbError = NoThumbnailRequired

  predicate FitsIn(r: Resolution, box: Resolution)
  {
    r.x <= box.x && r.y <= box.y
  }

  /** Python's `round` on a number: to the nearest integer, ties to the
      even one. Arithmetic is exact here, where Python divides in binary
      floating point. */
  function Round(v: real): (r: int)
    ensures -0.5 <= r as real - v <= 0.5
  {
    var f := v.Floor;
    var d := v - f as real;
    if d < 0.5 then f
    else if d > 0.5 then f + 1
    else if f % 2 == 0 then f
    else f + 1
  }

  /** Rounding a whole number gives it back. */
  lemma RoundWhole(n: int)
    ensures Round(n as real) == n
  {
  }

  /** Rounding never crosses a whole number lying above the value. */
  lemma RoundBelow(v: real, n: int)
    requires v <= n as real
    ensures Round(v) <= n
  {
  }

  /** `fac_x` and `fac_y`: how far each axis must shrink to fit the box. */
  function FactorX(original: Resolution, desired: Resolution): real
    requires original.x > 0
  {
    desired.x as real / original.x as real
  }

  function FactorY(original: Resolution, desired: Resolution): real
    requires original.y > 0
  {
    desired.y as real / original.y as real
  }

  /** `factor`: the smaller of the two, so that both axes fit. */
  function Factor(original: Resolution, desired: Resolution): real
    requires original.x > 0 && original.y > 0
  {
    var fx, fy := FactorX(original, desired), FactorY(original, desired);
    if fx <= fy then fx else fy
  }

  /** Both axes scaled by the one factor, each capped by the box. */
  function Scaled(original: Resolution, desired: Resolution): Resolution
    requires original.x > 0 && original.y > 0
  {
    var f := Factor(original, desired);
    Resolution(Capped(original.x, desired.x, f), Capped(original.y, desired.y, f))
  }

  /** `min(max, round(current * factor))` for one axis. */
  function Capped(current: int, max: int, f: real): int
  {
    var n := Round(current as real * f);
    if max <= n then max else n
  }

  /** `_get_new_resolution` as written: no thumbnail is made as soon as
      ONE axis already fits the box. A decoded image has positive
      dimensions, so the divisions are defined. */
  function NewResolutionAsWritten(original: Resolution, desired: Resolution): (r: Result<Resolution, ThumbError>)
    requires original.x > 0 && original.y > 0
    ensures r.Err? <==> desired.x >= original.x || desired.y >= original.y
  {
    FactorAtLeastOne(original, desired);
    if FactorX(original, desired) >= 1.0 || FactorY(original, desired) >= 1.0 then Err(NoThumbnailRequired)
    else Ok(Scaled(original, desired))
  }

  /** An axis needs no shrinking exactly when the box is at least as
      large as the image along it. */
  lemma FactorAtLeastOne(original: Resolution, desired: Resolution)
    requires original.x > 0 && original.y > 0
    ensures FactorX(original, desired) >= 1.0 <==> desired.x >= original.x
    ensures FactorY(original, desired) >= 1.0 <==> desired.y >= original.y
  {
    var ox, oy := original.x as real, original.y as real;
    assert FactorX(original, desired) * ox == desired.x as real;
    assert FactorY(original, desired) * oy == desired.y as real;
  }

  /** The shape that shows the defect: a 400x200 image asked to fit into
      500x100 is left as it is, although it is twice as tall as the box
      allows. */
  lemma AsWrittenSkipsTooTallImage()
    ensures NewResolutionAsWritten(Resolution(400, 200), Resolution(500, 100)) == Err(NoThumbnailRequired)
    ensures !FitsIn(Resolution(400, 200), Resolution(500, 100))
  {
  }

  /** `_get_new_resolution` as its exception promises: no thumbnail is
      required only when the image is no larger than the box on both
      axes. */
  function NewResolution(original: Resolution, desired: Resolution): (r: Result<Resolution, ThumbError>)
    requires original.x > 0 && original.y > 0
    ensures r.Err? <==> FitsIn(original, desired)
  {
    FactorAtLeastOne(original, desired);
    if FactorX(original, desired) >= 1.0 && FactorY(original, desired) >= 1.0 then Err(NoThumbnailRequired)
    else Ok(Scaled(original, desired))
  }

  /** The scaled size fits the box, touches it on the axis that limits the
      scaling, and is no larger than the image on either axis, strictly
      smaller on one. */
  lemma ScaledFits(original: Resolution, desired: Resolution)
    requires original.x > 0 && original.y > 0
    requires !FitsIn(original, desired)
    ensures FitsIn(Scaled(original, desired), desired)
    ensures FitsIn(Scaled(original, desired), original)
    ensures Scaled(original, desired).x == desired.x || Scaled(original, desired).y == desired.y
    ensures Scaled(original, desired).x < original.x || Scaled(original, desired).y < original.y
  {
    var fx, fy := FactorX(original, desired), FactorY(original, desired);
    var f := Factor(original, desired);
    FactorAtLeastOne(original, desired);
    AxisFactor(original.x, desired.x);
    AxisFactor(original.y, desired.y);
    ScaledAxis(original.x, desired.x, f, fx);
    ScaledAxis(original.y, desired.y, f, fy);
    var s := Scaled(original, desired);
    assert s.x == Capped(original.x, desired.x, f) && s.y == Capped(original.y, desired.y, f);
    if fx <= fy {
      assert s.x == desired.x < original.x;
    } else {
      assert s.y == desired.y < original.y;
    }
  }

  /** `m / o` scales `o` onto `m`. */
  lemma AxisFactor(o: int, m: int)
    requires o > 0
    ensures (m as real / o as real) * o as real == m as real
  {
  }

  /** One axis of `Scaled`: with a factor below one and no larger than the
      axis's own factor `fm`, the rounded length fits both the box and the
      image, and equals the box when the axis is the limiting one. */
  lemma ScaledAxis(o: int, m: int, f: real, fm: real)
    requires o > 0 && f < 1.0 && f <= fm && fm * o as real == m as real
    ensures Capped(o, m, f) <= m && Capped(o, m, f) <= o
    ensures f == fm ==> Capped(o, m, f) == m
    ensures -0.5 <= Capped(o, m, f) as real - o as real * f <= 0.5
  {
    var v := o as real * f;
    assert v <= o as real * fm by {
      assert o as real * (fm - f) >= 0.0;
    }
    assert v < o as real by {
      assert o as real * (1.0 - f) > 0.0;
    }
    RoundBelow(v, m);
    RoundBelow(v, o);
    if f == fm {
      RoundWhole(m);
    }
  }

  /** What the corrected resolution promises: a thumbnail is made exactly
      when the image does not fit, and then it fits, touches the box and
      is smaller than the image. */
  lemma NewResolutionShrinksToFit(original: Resolution, desired: Resolution)
    requires original.x > 0 && original.y > 0
    ensures NewResolution(original, desired).Ok? ==>
      var r := NewResolution(original, desired).value;
      && FitsIn(r, desired)
      && (r.x == desired.x || r.y == desired.y)
      && FitsIn(r, original)
      && (r.x < original.x || r.y < original.y)
  {
    if !FitsIn(original, desired) {
      ScaledFits(original, desired);
    }
  }

  /** Whenever the written test does make a thumbnail, it agrees with the
      corrected one, and then both axes shrink strictly. */
  lemma AsWrittenAgreesWhenItScales(original: Resolution, desired: Resolution)
    requires original.x > 0 && original.y > 0
    ensures NewResolutionAsWritten(original, desired).Ok? ==>
      && NewResolution(original, desired) == NewResolutionAsWritten(original, desired)
      && NewResolution(original, desired).value.x < original.x
      && NewResolution(original, desired).value.y < original.y
  {
    if NewResolutionAsWritten(original, desired).Ok? {
      ScaledFits(original, desired);
    }
  }

  /** `guess_extension(mimetype) or '.jpeg'`, then `suffix[1:].upper()`:
      the image format the thumbnail is written in. `guessed` is what the
      MIME table reports. */
  function SaveFormat(guessed: Option<string>): (r: string)
    ensures guessed.None? || guessed.value == [] ==> r == "JPEG"
    ensures guessed.Some? && guessed.value != [] ==>
      |r| == |guessed.value| - 1 && r == Upper(guessed.value[1..])
  {
    var suffix := if guessed.None? || guessed.value == [] then ".jpeg" else guessed.value;
    Upper(suffix[1..])
  }

  /** A guessed extension is written in its own name, upper-cased, and
      the default is JPEG. */
  lemma SaveFormatOfExtension(ext: string)
    ensures SaveFormat(Some("." + ext)) == Upper(ext)
    ensures SaveFormat(None) == "JPEG" && SaveFormat(Some(".png")) == "PNG"
  {
    assert ("." + ext)[1..] == ext;
    assert Upper("png") == "PNG";
  }

  /** A thumbnail as `gen_thumbnail` returns it: the re-encoded bytes and
      the size it was scaled to. */
  datatype Generated = Generated(bytes: Bytes, size: Resolution)

  /** `gen_thumbnail`: `size` is the decoded image's size, `guessed` what
      the MIME table reports for its type, and `render` the imaging
      library's encoder for a target size and format. The size is the
      intended `NewResolution`, which skips only an image that fits on both
      axes; as written one fitting axis is enough
      (`NewResolutionAsWritten`). */
  function GenThumbnail(size: Resolution, desired: Resolution, guessed: Option<string>,
                        render: (Resolution, string) -> Bytes): (r: Result<Generated, ThumbError>)
    requires size.x > 0 && size.y > 0
    ensures r.Err? <==> FitsIn(size, desired)
    ensures r.Ok? ==> r.value.size == NewResolution(size, desired).value
    ensures r.Ok? ==>
      && FitsIn(r.value.size, desired) && FitsIn(r.value.size, size)
      && (r.value.size.x == desired.x || r.value.size.y == desired.y)
    ensures r.Ok? ==> r.value.bytes == render(r.value.size, SaveFormat(guessed))
  {
    NewResolutionShrinksToFit(size, desired);
    match NewResolution(size, desired)
    case Err(e) => Err(e)
    case Ok(s) => Ok(Generated(render(s, SaveFormat(guessed)), s))
  }
}
