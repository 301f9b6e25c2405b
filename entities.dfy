/**
 * The values the upload resource passes around: image metadata, an uploaded
 * file as the multipart decoder hands it over (plus the fields the ingestion
 * pipeline adds to it), and the errors the resource can raise.
 */
module Entities {
  import opened Wrappers

  /** What the image inspector reports. A dimension it does not report is 0. */
  datatype ImageInfo = ImageInfo(width: nat, height: nat)

  /**
   * One uploaded file. `path`, `originalFilename`, `contentType` (the part's
   * `content-type` header) and `stream` (whether the decoder's write stream
   * `ws` is still attached) come from the decoder; `origInfo`, `pathOrig`
   * and `info` are written by the pipeline steps.
   */
  datatype UploadFile = UploadFile(
    path: string,
    originalFilename: string,
    contentType: Option<string>,
    stream: bool,
    origInfo: Option<ImageInfo>,
    pathOrig: Option<string>,
    info: Option<ImageInfo>)

  datatype Error =
    | NoUserData               // listing without a signed-in user
    | NoFiles                  // no file under any accepted field name
    | NotAnObject              // the image inspector answered with something that is not an object
    | External(reason: string) // a collaborator (inspector, file system, resizer, store, response) failed
    | WrongCount(count: nat)   // a lookup by id matched `count` rows where exactly one was expected
    | NoAttachments            // a record that has no attachment at all

  /** JavaScript truthiness of an optional string: present and not empty. */
  predicate Truthy(s: Option<string>)
  {
    s.Some? && s.value != ""
  }
}
