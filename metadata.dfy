/**
 * The metadata stored with each attachment, and the content-type default
 * shared by the POST handler and the GET handlers.
 */
module Metadata {
  import opened Wrappers
  import opened Entities

  const OctetStream := "application/octet-stream"

  /** A content type as sent or stored, falling back to the generic binary type when missing or empty. */
  function ContentTypeOr(t: Option<string>): (r: string)
    ensures Truthy(t) ==> r == t.value
    ensures !Truthy(t) ==> r == OctetStream
  {
    if Truthy(t) then t.value else OctetStream
  }

  /** The content type, defaulted, is never empty. */
  lemma ContentTypeNonEmpty(t: Option<string>)
    ensures ContentTypeOr(t) != ""
  {
    if !Truthy(t) {
      assert OctetStream[0] == 'a';
    }
  }

  /** The `info` entry of the metadata: the inspection result, or an empty object. */
  datatype MetaInfo = EmptyObject | Inspected(info: ImageInfo)

  /** The metadata object passed to `createAttachment`. */
  datatype Meta = Meta(name: string, contentType: string, original: UploadFile, info: MetaInfo)

  /** The metadata of one file, built just before its attachment is created. */
  function MetaOf(f: UploadFile): (m: Meta)
    ensures m.name == f.originalFilename && m.original == f
    ensures Truthy(f.contentType) ==> m.contentType == f.contentType.value
    ensures !Truthy(f.contentType) ==> m.contentType == OctetStream
    ensures m.info.EmptyObject? <==> f.info.None?
    ensures f.info.Some? ==> m.info.info == f.info.value
  {
    Meta(
      f.originalFilename,
      ContentTypeOr(f.contentType),
      f,
      if f.info.Some? then Inspected(f.info.value) else EmptyObject)
  }
}
