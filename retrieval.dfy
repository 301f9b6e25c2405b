/**
 * The read side of the upload resource: listing a user's uploads, showing
 * one upload with its attachments, and serving an attachment's bytes, either
 * by id or the earliest one. The store is a snapshot of rows and attachments;
 * each lookup is a filter over it in stored order.
 */
module Retrieval {
  import opened Wrappers
  import opened Entities
  import opened Metadata
  import opened Store

  /** An upload record as stored, with its creation time. */
  datatype Row = Row(record: Record, created: nat)

  /** An attachment as stored: its own id, its record, creation time, declared content type and bytes. */
  datatype StoredAttachment = StoredAttachment(
    id: string,
    recordId: string,
    created: nat,
    contentType: Option<string>,
    body: seq<bv8>)

  /** What the store holds when a GET handler reads it. */
  datatype Catalog = Catalog(rows: seq<Row>, attachments: seq<StoredAttachment>)

  /** The elements of `s` that satisfy `p`, in their order in `s`. */
  function Filter<T>(s: seq<T>, p: T -> bool): (r: seq<T>)
    ensures |r| <= |s|
  {
    if s == [] then []
    else if p(s[0]) then [s[0]] + Filter(s[1..], p)
    else Filter(s[1..], p)
  }

  /** A filter keeps exactly the elements that satisfy its condition. */
  lemma {:induction false} FilterMembers<T>(s: seq<T>, p: T -> bool)
    ensures forall x :: x in Filter(s, p) <==> x in s && p(x)
  {
    if s != [] {
      FilterMembers(s[1..], p);
      assert s == [s[0]] + s[1..];
    }
  }

  /** When exactly one element satisfies the condition, the filter yields just that element. */
  lemma {:induction false} FilterSingle<T>(s: seq<T>, p: T -> bool, k: nat)
    requires k < |s| && p(s[k])
    requires forall i :: 0 <= i < |s| && i != k ==> !p(s[i])
    ensures Filter(s, p) == [s[k]]
  {
    if k == 0 {
      FilterNone(s[1..], p);
    } else {
      FilterSingle(s[1..], p, k - 1);
    }
  }

  /** When no element satisfies the condition, the filter is empty. */
  lemma {:induction false} FilterNone<T>(s: seq<T>, p: T -> bool)
    requires forall i :: 0 <= i < |s| ==> !p(s[i])
    ensures Filter(s, p) == []
  {
    if s != [] {
      FilterNone(s[1..], p);
    }
  }

  /**
   * `GET /upload`: the uploads of type `t` owned by the signed-in user, or
   * `NoUserData` when there is no signed-in user id.
   */
  function List(c: Catalog, t: string, user: Option<string>): (r: Result<seq<Row>, Error>)
    ensures r.Failure? <==> !Truthy(user)
    ensures r.Failure? ==> r.error == NoUserData
    ensures r.Success? ==>
      forall x :: x in r.value <==> x in c.rows && x.record.uploadType == t && x.record.user == user
  {
    if !Truthy(user) then Failure(NoUserData)
    else
      var owned := (x: Row) => x.record.uploadType == t && x.record.user == user;
      FilterMembers(c.rows, owned);
      Success(Filter(c.rows, owned))
  }

  /** The rows a lookup of upload `uuid` of type `t` matches. */
  function Matching(c: Catalog, t: string, uuid: string): seq<Row>
  {
    Filter(c.rows, (x: Row) => x.record.id == uuid && x.record.uploadType == t)
  }

  /** A lookup by id that insists on exactly one match. */
  function Single(c: Catalog, t: string, uuid: string): (r: Result<Row, Error>)
    ensures r.Success? <==> |Matching(c, t, uuid)| == 1
    ensures r.Failure? ==> r.error == WrongCount(|Matching(c, t, uuid)|)
    ensures r.Success? ==> r.value in c.rows && r.value.record.id == uuid && r.value.record.uploadType == t
    ensures r.Success? ==> r.value == Matching(c, t, uuid)[0]
  {
    var m := Matching(c, t, uuid);
    FilterMembers(c.rows, (x: Row) => x.record.id == uuid && x.record.uploadType == t);
    if |m| == 1 then
      assert m[0] in m;
      Success(m[0])
    else Failure(WrongCount(|m|))
  }

  /** The attachments stored under record `id`, in stored order. */
  function Under(c: Catalog, id: string): seq<StoredAttachment>
  {
    Filter(c.attachments, (a: StoredAttachment) => a.recordId == id)
  }

  /** One attachment as shown: its body reference (as path segments) and served content type. */
  datatype AttachmentView = AttachmentView(attachment: StoredAttachment, ref: seq<string>, contentType: string)

  /** One upload as shown, with the views of its attachments. */
  datatype UploadView = UploadView(upload: Row, attachments: seq<AttachmentView>)

  /** The view of attachment `a` of upload `uploadId`. */
  function ViewOf(uploadId: string, a: StoredAttachment): AttachmentView
  {
    AttachmentView(a, ["api/upload", uploadId, "attachments", a.id, "body"], ContentTypeOr(a.contentType))
  }

  /** The views of `atts`, one per attachment, in order. */
  function Views(uploadId: string, atts: seq<StoredAttachment>): (r: seq<AttachmentView>)
    ensures |r| == |atts|
    ensures forall k :: 0 <= k < |atts| ==> r[k] == ViewOf(uploadId, atts[k])
  {
    seq(|atts|, k requires 0 <= k < |atts| => ViewOf(uploadId, atts[k]))
  }

  /** `GET /upload/:uuid`: exactly one upload, with at least one attachment. */
  function Show(c: Catalog, t: string, uuid: string): (r: Result<UploadView, Error>)
    ensures r.Failure? <==> |Matching(c, t, uuid)| != 1 || Under(c, uuid) == []
    ensures |Matching(c, t, uuid)| != 1 ==> r == Failure(WrongCount(|Matching(c, t, uuid)|))
    ensures |Matching(c, t, uuid)| == 1 && Under(c, uuid) == [] ==> r == Failure(NoAttachments)
    ensures r.Success? ==>
      // the one upload of type `t` with that id
      && r.value.upload == Matching(c, t, uuid)[0]
      && r.value.upload in c.rows
      && r.value.upload.record.id == uuid && r.value.upload.record.uploadType == t
      // one view per attachment of the upload, each of its own attachment, in stored order
      && |r.value.attachments| == |Under(c, uuid)| >= 1
      && forall k :: 0 <= k < |Under(c, uuid)| ==> r.value.attachments[k] == ViewOf(uuid, Under(c, uuid)[k])
  {
    match Single(c, t, uuid)
    case Failure(e) => Failure(e)
    case Success(upload) =>
      var atts := Under(c, upload.record.id);
      if atts == [] then Failure(NoAttachments)
      else Success(UploadView(upload, Views(upload.record.id, atts)))
  }

  /** Building the attachment views one after another, appending each to the results. */
  method BuildViews(uploadId: string, atts: seq<StoredAttachment>) returns (results: seq<AttachmentView>)
    ensures results == Views(uploadId, atts)
  {
    results := [];
    for i := 0 to |atts|
      invariant |results| == i
      invariant forall k :: 0 <= k < i ==> results[k] == ViewOf(uploadId, atts[k])
    {
      results := results + [ViewOf(uploadId, atts[i])];
    }
  }

  /** The handler of `GET /upload/:uuid`. */
  method ShowUpload(c: Catalog, t: string, uuid: string) returns (r: Result<UploadView, Error>)
    ensures r == Show(c, t, uuid)
  {
    var found := Single(c, t, uuid);
    if found.Failure? {
      return Failure(found.error);
    }
    var upload := found.value;
    var atts := Under(c, upload.record.id);
    if atts == [] {
      return Failure(NoAttachments);
    }
    var views := BuildViews(upload.record.id, atts);
    return Success(UploadView(upload, views));
  }

  /** A response body: its content type and its bytes. */
  datatype Served = Served(contentType: string, body: seq<bv8>)

  /** Serving one stored attachment, with the generic binary type when it has none. */
  function Serve(a: StoredAttachment): (r: Served)
    ensures r.body == a.body && r.contentType != ""
    ensures Truthy(a.contentType) ==> r.contentType == a.contentType.value
    ensures !Truthy(a.contentType) ==> r.contentType == OctetStream
  {
    ContentTypeNonEmpty(a.contentType);
    Served(ContentTypeOr(a.contentType), a.body)
  }

  /** The attachments of record `id` with attachment id `aid`. */
  function Named(c: Catalog, id: string, aid: string): seq<StoredAttachment>
  {
    Filter(Under(c, id), (a: StoredAttachment) => a.id == aid)
  }

  /** `GET /upload/:uuid/attachments/:uuid2/body`: exactly one upload and exactly one such attachment. */
  function Body(c: Catalog, t: string, uuid: string, aid: string): (r: Result<Served, Error>)
    ensures r.Success? <==> |Matching(c, t, uuid)| == 1 && |Named(c, uuid, aid)| == 1
    ensures |Matching(c, t, uuid)| != 1 ==> r == Failure(WrongCount(|Matching(c, t, uuid)|))
    ensures |Matching(c, t, uuid)| == 1 && |Named(c, uuid, aid)| != 1 ==> r == Failure(WrongCount(|Named(c, uuid, aid)|))
    ensures r.Success? ==> exists a :: a in c.attachments && a.recordId == uuid && a.id == aid && r.value == Serve(a)
  {
    match Single(c, t, uuid)
    case Failure(e) => Failure(e)
    case Success(upload) =>
      var m := Named(c, upload.record.id, aid);
      if |m| != 1 then Failure(WrongCount(|m|))
      else
        FilterMembers(Under(c, uuid), (a: StoredAttachment) => a.id == aid);
        FilterMembers(c.attachments, (a: StoredAttachment) => a.recordId == uuid);
        assert m[0] in m;
        Success(Serve(m[0]))
  }

  /** The earliest attachment of `atts`; of several equally early ones, the first stored. */
  function Oldest(atts: seq<StoredAttachment>): Option<StoredAttachment>
  {
    if atts == [] then None
    else match Oldest(atts[1..])
      case None => Some(atts[0])
      case Some(b) => if b.created < atts[0].created then Some(b) else Some(atts[0])
  }

  /** The oldest attachment exists exactly for a non-empty list, belongs to it and is no later than any of it. */
  lemma {:induction false} OldestIsEarliest(atts: seq<StoredAttachment>)
    ensures Oldest(atts).Some? <==> atts != []
    ensures Oldest(atts).Some? ==>
      Oldest(atts).value in atts && forall a :: a in atts ==> Oldest(atts).value.created <= a.created
  {
    if atts != [] {
      OldestIsEarliest(atts[1..]);
      assert atts == [atts[0]] + atts[1..];
    }
  }

  /** The attachments of record `id` ordered by creation time and limited to one. */
  function FirstOf(c: Catalog, id: string): (r: seq<StoredAttachment>)
    ensures |r| <= 1
    ensures |r| == 1 <==> Under(c, id) != []
    ensures |r| == 1 ==> r[0] in Under(c, id) && forall b :: b in Under(c, id) ==> r[0].created <= b.created
  {
    OldestIsEarliest(Under(c, id));
    match Oldest(Under(c, id))
    case None => []
    case Some(a) => [a]
  }

  /** `GET /upload/:uuid/attachments/first/body`: exactly one upload, then its earliest attachment. */
  function FirstBody(c: Catalog, t: string, uuid: string): (r: Result<Served, Error>)
    // a lookup that does not find exactly one upload reports the number it found
    ensures |Matching(c, t, uuid)| != 1 ==> r == Failure(WrongCount(|Matching(c, t, uuid)|))
    // whatever is served is the body of one of the upload's attachments
    ensures r.Success? ==> exists a :: a in Under(c, uuid) && r.value == Serve(a)
  {
    match Single(c, t, uuid)
    case Failure(e) => Failure(e)
    case Success(upload) =>
      var first := FirstOf(c, upload.record.id);
      if |first| != 1 then Failure(WrongCount(|first|))
      else
        assert first[0] in Under(c, uuid);
        Success(Serve(first[0]))
  }

  /**
   * The first body is served exactly when the upload is found once and has
   * an attachment; it is then the body of an attachment of that upload
   * created no later than any other, and otherwise the count is reported.
   */
  lemma FirstBodyEarliest(c: Catalog, t: string, uuid: string)
    ensures FirstBody(c, t, uuid).Success? <==> |Matching(c, t, uuid)| == 1 && Under(c, uuid) != []
    ensures |Matching(c, t, uuid)| != 1 ==> FirstBody(c, t, uuid) == Failure(WrongCount(|Matching(c, t, uuid)|))
    ensures |Matching(c, t, uuid)| == 1 && Under(c, uuid) == [] ==> FirstBody(c, t, uuid) == Failure(WrongCount(0))
    ensures FirstBody(c, t, uuid).Success? ==>
      exists a :: a in Under(c, uuid) && FirstBody(c, t, uuid).value == Serve(a) &&
        forall b :: b in Under(c, uuid) ==> a.created <= b.created
  {
    OldestIsEarliest(Under(c, uuid));
    FilterMembers(c.attachments, (a: StoredAttachment) => a.recordId == uuid);
  }

  /** Attachment ids are unique within record `id`. */
  predicate DistinctIds(c: Catalog, id: string)
  {
    forall i, j :: 0 <= i < j < |Under(c, id)| ==> Under(c, id)[i].id != Under(c, id)[j].id
  }

  /**
   * When attachment ids are unique within the upload, every body reference
   * of a shown upload resolves, through the body route, to that
   * attachment's bytes with the content type the view announced.
   */
  lemma ReferencesResolve(c: Catalog, t: string, uuid: string, k: nat)
    requires Show(c, t, uuid).Success? && DistinctIds(c, uuid)
    requires k < |Show(c, t, uuid).value.attachments|
    ensures var v := Show(c, t, uuid).value.attachments[k];
      Body(c, t, v.ref[1], v.ref[3]) == Success(Served(v.contentType, v.attachment.body))
  {
    var atts := Under(c, uuid);
    var v := Show(c, t, uuid).value.attachments[k];
    assert v == ViewOf(uuid, atts[k]);
    var p := (a: StoredAttachment) => a.id == atts[k].id;
    FilterSingle(atts, p, k);
    assert Named(c, uuid, atts[k].id) == [atts[k]];
  }

  /**
   * An attachment written by the upload handler is served back with the
   * content type its metadata recorded: the part's own type when it had
   * one, the generic binary type otherwise.
   */
  lemma ServesUploadedType(f: UploadFile, a: StoredAttachment)
    requires a.contentType == Some(MetaOf(f).contentType)
    ensures Serve(a).contentType == ContentTypeOr(f.contentType)
    ensures Serve(a).contentType == OctetStream <==> !Truthy(f.contentType) || f.contentType.value == OctetStream
  {
  }
}
