/**
 * The geometry handed to the image resizer for one file: source and
 * destination paths and the target width and height, a missing one derived
 * from the original aspect ratio.
 */
module Geometry {
  import opened Wrappers
  import opened Entities
  import opened Options

  /** The argument object of one resize call. */
  datatype ResizeOptions = ResizeOptions(src: string, dst: string, width: Option<nat>, height: Option<nat>)

  /** A target size; `None` is a dimension the resize call is not given. */
  datatype Dimensions = Dimensions(width: Option<nat>, height: Option<nat>)

  /** Where a file's original bytes are moved before it is resized. */
  function OrigPath(path: string): (r: string)
    ensures r != path && |r| > |path| && r[..|path|] == path
  {
    path + ".orig"
  }

  /** JavaScript truthiness of a size: given and not zero. */
  predicate Given(d: Option<nat>)
  {
    d.Some? && d.value != 0
  }

  /** The original inspection reported a non-zero width and height. */
  predicate KnownSize(o: Option<ImageInfo>)
  {
    o.Some? && o.value.width != 0 && o.value.height != 0
  }

  /** `Math.round(n / d)` for naturals: halves round up. */
  function RoundDiv(n: nat, d: nat): nat
    requires d > 0
  {
    (2 * n + d) / (2 * d)
  }

  /** `RoundDiv(n, d)` is the integer nearest to n/d, a tie going to the larger one. */
  lemma RoundDivIsNearest(n: nat, d: nat)
    requires d > 0
    ensures var r := RoundDiv(n, d); d * (2 * r - 1) <= 2 * n < d * (2 * r + 1)
  {
    var r: int := RoundDiv(n, d);
    var m: int := (2 * n + d) % (2 * d);
    assert 2 * n + d == (2 * d) * r + m && 0 <= m < 2 * d;
    calc {
      d * (2 * r - 1);
      (2 * d) * r - d;
    }
    calc {
      d * (2 * r + 1);
      (2 * d) * r + d;
    }
  }

  /** `size * other / base`, rounded half up: a dimension that keeps the original aspect ratio. */
  function Scaled(size: nat, other: nat, base: nat): nat
    requires base > 0
  {
    RoundDiv(size * other, base)
  }

  /**
   * The width and height a file is resized to, given the configured
   * `resize` object and the file's original inspection result.
   */
  function Target(spec: ResizeSpec, orig: Option<ImageInfo>): (r: Dimensions)
    // both dimensions given: passed through unchanged
    ensures Given(spec.w) && Given(spec.h) ==> r == Dimensions(spec.w, spec.h)
    // only the height given: the width follows the original aspect ratio
    ensures !Given(spec.w) && Given(spec.h) && KnownSize(orig) ==>
      r == Dimensions(Some(Scaled(orig.value.width, spec.h.value, orig.value.height)), spec.h)
    // only the width given: the height follows the original aspect ratio
    ensures Given(spec.w) && !Given(spec.h) && KnownSize(orig) ==>
      r == Dimensions(spec.w, Some(Scaled(orig.value.height, spec.w.value, orig.value.width)))
    // no usable original size: nothing is derived and nothing fails
    ensures !KnownSize(orig) ==>
      r == Dimensions(if Given(spec.w) then spec.w else None, if Given(spec.h) then spec.h else None)
    // a given dimension is never changed; with neither given there is no target
    ensures Given(spec.w) ==> r.width == spec.w
    ensures Given(spec.h) ==> r.height == spec.h
    ensures !Given(spec.w) && !Given(spec.h) ==> r == Dimensions(None, None)
  {
    var w0 := if Given(spec.w) then spec.w else None;
    var h0 := if Given(spec.h) then spec.h else None;
    var w1 :=
      if !Given(w0) && Given(h0) && KnownSize(orig)
      then Some(Scaled(orig.value.width, h0.value, orig.value.height))
      else w0;
    var h1 :=
      if !Given(h0) && Given(w1) && KnownSize(orig)
      then Some(Scaled(orig.value.height, w1.value, orig.value.width))
      else h0;
    Dimensions(w1, h1)
  }

  /** A zero size in the `resize` object acts exactly as a missing one. */
  lemma ZeroIsAbsent(w: Option<nat>, h: Option<nat>, orig: Option<ImageInfo>)
    ensures Target(ResizeSpec(Some(0), h), orig) == Target(ResizeSpec(None, h), orig)
    ensures Target(ResizeSpec(w, Some(0)), orig) == Target(ResizeSpec(w, None), orig)
  {
  }

  /** The resize call for one file: from its `.orig` copy back onto its own path. */
  function ResizeOptionsFor(f: UploadFile, spec: ResizeSpec): (r: ResizeOptions)
    ensures r.src == OrigPath(f.path) && r.dst == f.path && r.src != r.dst
    ensures Dimensions(r.width, r.height) == Target(spec, f.origInfo)
  {
    var t := Target(spec, f.origInfo);
    ResizeOptions(OrigPath(f.path), f.path, t.width, t.height)
  }

  /** A 200x50 original resized to width 100 gets height 25. */
  lemma WidthOnlyExample()
    ensures Target(ResizeSpec(Some(100), None), Some(ImageInfo(200, 50))) == Dimensions(Some(100), Some(25))
  {
  }
}
