/**
 * The options object of `upload_builder` and the normalisation it performs
 * in place before building the routes.
 */
module Options {
  import opened Wrappers
  import opened Entities

  /** The `resize` option; `w` and `h` are optional sizes in pixels. */
  datatype ResizeSpec = ResizeSpec(w: Option<nat>, h: Option<nat>)

  /** The part of the options object the core reads. */
  datatype Settings = Settings(uploadType: Option<string>, image: Option<bool>, resize: Option<ResizeSpec>)

  const DefaultUploadType := "Upload"

  /** `opts.image` is truthy: the inspection steps run. */
  predicate ImageEnabled(s: Settings)
  {
    s.image == Some(true)
  }

  /** The guard of the resize step: a `resize` object with `w` or `h` defined. */
  predicate ResizeEnabled(s: Settings)
  {
    s.resize.Some? && (s.resize.value.w.Some? || s.resize.value.h.Some?)
  }

  /** What normalisation guarantees about the options the routes then read. */
  predicate IsNormalized(s: Settings)
  {
    && Truthy(s.uploadType)
    && (s.resize.Some? ==> ImageEnabled(s) && ResizeEnabled(s))
  }

  /** The options after `upload_builder` has normalised them. */
  function Normalized(s: Settings): (r: Settings)
    ensures IsNormalized(r)
    // a truthy type is kept, a falsy one becomes the default
    ensures r.uploadType == (if Truthy(s.uploadType) then s.uploadType else Some(DefaultUploadType))
    // any resize object switches image features on, even one that is then dropped
    ensures s.resize.Some? ==> ImageEnabled(r)
    ensures s.resize.None? ==> r.image == s.image
    // a resize object survives exactly when it defines a width or a height
    ensures ResizeEnabled(r) <==> ResizeEnabled(s)
    ensures r.resize.Some? ==> r.resize == s.resize
  {
    var t := if Truthy(s.uploadType) then s.uploadType else Some(DefaultUploadType);
    match s.resize
    case None => Settings(t, s.image, None)
    case Some(z) =>
      Settings(t, Some(true), if z.w.None? && z.h.None? then None else s.resize)
  }

  /** Normalising twice changes nothing more than normalising once. */
  lemma NormalizedIdempotent(s: Settings)
    ensures Normalized(Normalized(s)) == Normalized(s)
  {
  }

  /** The mutable options object; `Normalize` rewrites its fields in place. */
  class UploadOptions {
    var uploadType: Option<string>
    var image: Option<bool>
    var resize: Option<ResizeSpec>

    function Current(): Settings
      reads this
    {
      Settings(uploadType, image, resize)
    }

    constructor (s: Settings)
      ensures Current() == s
    {
      uploadType, image, resize := s.uploadType, s.image, s.resize;
    }

    /** The in-place defaulting done by `upload_builder`. */
    method Normalize()
      modifies this
      ensures Current() == Normalized(old(Current()))
      ensures IsNormalized(Current())
    {
      if !Truthy(uploadType) {
        uploadType := Some(DefaultUploadType);
      }
      if resize.Some? {
        image := Some(true);
        if resize.value.w.None? && resize.value.h.None? {
          resize := None;
        }
      }
    }
  }
}
