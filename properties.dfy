/**
 * What one POST guarantees, stated on `Run` and its parts: the store sees
 * all of an upload or none of it, a failure after the record exists is
 * rolled back and reported with its own error, and the image steps run
 * only when switched on.
 */
module PostProperties {
  import opened Wrappers
  import opened Entities
  import opened Options
  import opened Selection
  import opened Geometry
  import opened Metadata
  import opened Store
  import opened Pipeline

  /** Every call of the attachment step creates an attachment. */
  lemma AttachCallsOnly(files: seq<UploadFile>, id: string, at: nat, oracle: Oracle)
    ensures forall c :: c in AttachFrom(files, 0, id, at, oracle).calls ==> c.CreateAttachment?
  {
    var a := AttachFrom(files, 0, id, at, oracle);
    AttachCallOrder(files, 0, id, at, oracle);
    forall c | c in a.calls ensures c.CreateAttachment? {
      var j :| 0 <= j < |a.calls| && a.calls[j] == c;
      assert a.calls[j] == CreateAttachment(AttachmentOf(id, files[0 + j]));
    }
  }

  /**
   * The attachments written are those of the first files, in file order;
   * when the step completes, they are the attachments of every file.
   */
  lemma AttachedPrefix(files: seq<UploadFile>, id: string, at: nat, oracle: Oracle)
    ensures |AttachFrom(files, 0, id, at, oracle).attachments| <= |files|
    ensures AttachFrom(files, 0, id, at, oracle).attachments
      == AttachmentsOf(id, files)[..|AttachFrom(files, 0, id, at, oracle).attachments|]
    ensures AttachFrom(files, 0, id, at, oracle).err.None? ==>
      AttachFrom(files, 0, id, at, oracle).attachments == AttachmentsOf(id, files)
  {
    var a := AttachFrom(files, 0, id, at, oracle);
    AttachmentOrder(files, 0, id, at, oracle);
    var all := AttachmentsOf(id, files);
    assert |a.attachments| <= |files|;
    forall j | 0 <= j < |a.attachments| ensures a.attachments[j] == all[j] {
      assert a.attachments[j] == AttachmentOf(id, files[0 + j]);
    }
  }

  /** The end of a request rolled back: the failed call, then the rollback, whose own answer is not reported. */
  predicate RolledBack(calls: seq<Call>, store: StoreState, outcome: Outcome, oracle: Oracle)
  {
    && |calls| >= 2 && calls[|calls| - 1] == Rollback
    && oracle(|calls| - 2).Fail?
    && outcome == Failed(External(oracle(|calls| - 2).reason))
    && store.rolledBack == !oracle(|calls| - 1).Fail?
  }

  /** A rollback is issued exactly when the record exists and the request fails, and then it ends the request. */
  predicate RollsBackOnFailure(db: Db, oracle: Oracle)
  {
    && (Rollback in db.calls <==> db.store.record.Some? && db.outcome.Failed?)
    && (Rollback in db.calls ==> RolledBack(db.calls, db.store, db.outcome, oracle))
  }

  /** A request that redirected: the record and every attachment committed, nothing rolled back. */
  predicate Delivered(calls: seq<Call>, store: StoreState, outcome: Outcome,
                      t: string, user: Option<string>, files: seq<UploadFile>, id: string)
  {
    && outcome == Redirected(id)
    && store == StoreState(Some(Record(id, t, user)), AttachmentsOf(id, files), true, false)
    && Rollback !in calls
    && |calls| >= 2 && calls[|calls| - 2..] == [Commit, Redirect(id)]
  }

  /** After the record exists, concluding changes only the transaction's flags and only appends store calls. */
  lemma ConcludeKeepsContents(s: StoreState, pre: seq<Call>, err: Option<Error>, id: string, oracle: Oracle)
    requires err.Some? ==> err.value.External?
    requires s.Valid() && s.record.Some? && !s.committed && Commit !in pre
    ensures var db := Conclude(s, pre, err, id, oracle); db.store.Valid()
    ensures var db := Conclude(s, pre, err, id, oracle); db.store.record == s.record
    ensures var db := Conclude(s, pre, err, id, oracle); db.store.attachments == s.attachments
    ensures var db := Conclude(s, pre, err, id, oracle); db.store.committed ==> Commit in db.calls
    ensures var db := Conclude(s, pre, err, id, oracle); Commit in db.calls ==> err.None?
    ensures var db := Conclude(s, pre, err, id, oracle); forall c :: c in db.calls ==> c in pre || !ImageCall(c)
  {
  }

  /**
   * Concluding after attaching: any failure is rolled back and reported with
   * its own error, and a redirect follows a commit of everything attached.
   */
  lemma ConcludeOutcome(s: StoreState, pre: seq<Call>, err: Option<Error>, id: string, oracle: Oracle)
    requires err.Some? ==> |pre| >= 1 && oracle(|pre| - 1).Fail? && err.value == External(oracle(|pre| - 1).reason)
    requires Rollback !in pre && Commit !in pre
    ensures var db := Conclude(s, pre, err, id, oracle); Rollback in db.calls <==> db.outcome.Failed?
    ensures var db := Conclude(s, pre, err, id, oracle); db.outcome.Failed? ==> RolledBack(db.calls, db.store, db.outcome, oracle)
    ensures var db := Conclude(s, pre, err, id, oracle);
      db.outcome.Redirected? ==>
      && db.outcome == Redirected(id)
      && db.store == s.(committed := true)
      && db.calls == pre + [Commit, Redirect(id)]
  {
  }

  /** The store after the record is created and the attachment step has run. */
  function Attached(t: string, user: Option<string>, files: seq<UploadFile>, id: string, at: nat, oracle: Oracle): StoreState
  {
    Opened.(record := Some(Record(id, t, user)), attachments := AttachFrom(files, 0, id, at, oracle).attachments)
  }

  /** Attaching writes only under the new record. */
  lemma AttachedValid(t: string, user: Option<string>, files: seq<UploadFile>, id: string, at: nat, oracle: Oracle)
    ensures Attached(t, user, files, id, at, oracle).Valid()
  {
    var a := AttachFrom(files, 0, id, at, oracle);
    AttachedPrefix(files, id, at, oracle);
    forall x | x in a.attachments ensures x.recordId == id {
      var j :| 0 <= j < |a.attachments| && a.attachments[j] == x;
      assert x == AttachmentsOf(id, files)[j];
    }
  }

  /**
   * Attaching calls neither commit nor rollback, and leaves the
   * transactional part to conclude.
   */
  lemma AttachStep(t: string, user: Option<string>, files: seq<UploadFile>, id: string, log: seq<Call>, oracle: Oracle)
    requires forall c :: c in log ==> ImageCall(c)
    requires !oracle(|log|).Fail?
    ensures Attached(t, user, files, id, |log| + 1, oracle).Valid()
    ensures var a := AttachFrom(files, 0, id, |log| + 1, oracle); Rollback !in log + [CreateRecord(t, user)] + a.calls
    ensures var a := AttachFrom(files, 0, id, |log| + 1, oracle); Commit !in log + [CreateRecord(t, user)] + a.calls
    ensures var a := AttachFrom(files, 0, id, |log| + 1, oracle);
      Persist(t, user, files, id, log, oracle)
        == Conclude(Attached(t, user, files, id, |log| + 1, oracle), log + [CreateRecord(t, user)] + a.calls, a.err, id, oracle)
  {
    var created := log + [CreateRecord(t, user)];
    var a := AttachFrom(files, 0, id, |created|, oracle);
    AttachCallsOnly(files, id, |created|, oracle);
    AttachedValid(t, user, files, id, |created|, oracle);
    forall c | c in created + a.calls ensures c != Rollback && c != Commit {
      assert c in log || c == CreateRecord(t, user) || c in a.calls;
    }
    assert Persist(t, user, files, id, log, oracle)
      == Conclude(Attached(t, user, files, id, |created|, oracle), created + a.calls, a.err, id, oracle);
  }

  /**
   * The record exists exactly when its creation was accepted, under the
   * request's id, type and user; the store only ever holds attachments of
   * that record. A refused creation ends the request with nothing else called.
   */
  lemma PersistRecord(t: string, user: Option<string>, files: seq<UploadFile>, id: string, log: seq<Call>, oracle: Oracle)
    requires forall c :: c in log ==> ImageCall(c)
    ensures var db := Persist(t, user, files, id, log, oracle); db.store.Valid()
    ensures var db := Persist(t, user, files, id, log, oracle); db.store.record.Some? <==> !oracle(|log|).Fail?
    ensures var db := Persist(t, user, files, id, log, oracle); db.store.record.Some? ==> db.store.record.value == Record(id, t, user)
    ensures var db := Persist(t, user, files, id, log, oracle);
      db.store.record.None? ==> db == Db(Opened, log + [CreateRecord(t, user)], Failed(External(oracle(|log|).reason)))
  {
    if !oracle(|log|).Fail? {
      AttachStep(t, user, files, id, log, oracle);
      var a := AttachFrom(files, 0, id, |log| + 1, oracle);
      ConcludeKeepsContents(Attached(t, user, files, id, |log| + 1, oracle),
                            log + [CreateRecord(t, user)] + a.calls, a.err, id, oracle);
    }
  }

  /** What `ConcludeOutcome` needs of the attachment step: a failure is that of its last call. */
  lemma AttachFailure(t: string, user: Option<string>, files: seq<UploadFile>, id: string, log: seq<Call>, oracle: Oracle)
    ensures var a := AttachFrom(files, 0, id, |log| + 1, oracle);
            var pre := log + [CreateRecord(t, user)] + a.calls;
            a.err.Some? ==> |pre| >= 1 && oracle(|pre| - 1).Fail? && a.err.value == External(oracle(|pre| - 1).reason)
  {
  }

  /** Concluding redirects only after an error-free attachment step, and then commits, redirects and nothing else. */
  lemma ConcludeRedirects(s: StoreState, pre: seq<Call>, err: Option<Error>, id: string, oracle: Oracle)
    requires err.Some? ==> err.value.External?
    requires Rollback !in pre
    ensures var db := Conclude(s, pre, err, id, oracle);
      db.outcome.Redirected? ==>
      && err.None?
      && db.outcome == Redirected(id)
      && db.store == s.(committed := true)
      && Rollback !in db.calls
      && |db.calls| >= 2
      && db.calls[|db.calls| - 2..] == [Commit, Redirect(id)]
  {
    var calls := pre + [Commit, Redirect(id)];
    assert calls[|calls| - 2..] == [Commit, Redirect(id)];
  }

  /** A redirect means the record and every attachment were committed and nothing was rolled back. */
  lemma PersistDelivers(t: string, user: Option<string>, files: seq<UploadFile>, id: string, log: seq<Call>, oracle: Oracle)
    requires forall c :: c in log ==> ImageCall(c)
    ensures var db := Persist(t, user, files, id, log, oracle);
      db.outcome.Redirected? ==> Delivered(db.calls, db.store, db.outcome, t, user, files, id)
    // and every call of the store part was accepted
    ensures var db := Persist(t, user, files, id, log, oracle);
      db.outcome.Redirected? ==> forall j :: |log| <= j < |db.calls| ==> !Refused(db.calls[j], oracle(j))
  {
    PersistStops(t, user, files, id, log, oracle);
    if !oracle(|log|).Fail? {
      AttachStep(t, user, files, id, log, oracle);
      AttachedPrefix(files, id, |log| + 1, oracle);
      var a := AttachFrom(files, 0, id, |log| + 1, oracle);
      ConcludeRedirects(Attached(t, user, files, id, |log| + 1, oracle), log + [CreateRecord(t, user)] + a.calls,
                        a.err, id, oracle);
    }
  }

  /**
   * A redirect that fails after the record, every attachment and the commit
   * were accepted still triggers the rollback, but the record stays
   * committed and visible while the request reports the redirect's error.
   */
  lemma RedirectFailureAfterCommit(t: string, user: Option<string>, files: seq<UploadFile>, id: string,
                                   log: seq<Call>, oracle: Oracle)
    requires !oracle(|log|).Fail?
    requires forall j :: |log| < j <= |log| + |files| ==> !oracle(j).Fail?
    requires !oracle(|log| + |files| + 1).Fail? && oracle(|log| + |files| + 2).Fail?
    ensures var db := Persist(t, user, files, id, log, oracle);
      && db.outcome == Failed(External(oracle(|log| + |files| + 2).reason))
      && |db.calls| == |log| + |files| + 4
      && db.calls[|log| + |files| + 1..] == [Commit, Redirect(id), Rollback]
      && db.store.committed
      && db.store.record == Some(Record(id, t, user))
      && db.store.attachments == AttachmentsOf(id, files)
      && db.store.Visible() == [Record(id, t, user)]
  {
    var created := log + [CreateRecord(t, user)];
    var a := AttachFrom(files, 0, id, |created|, oracle);
    AttachStops(files, 0, id, |created|, oracle);
    assert a.err.None?;
    AttachedPrefix(files, id, |created|, oracle);
    var pre := created + a.calls;
    var db := Persist(t, user, files, id, log, oracle);
    assert db == Undo(Attached(t, user, files, id, |created|, oracle).(committed := true), pre + [Commit, Redirect(id)],
                      External(oracle(|pre| + 1).reason), oracle);
    assert db.calls == pre + [Commit, Redirect(id)] + [Rollback];
  }

  /**
   * A rollback is issued exactly when the record exists and the request
   * fails; it is the last call, and the request fails with the error of the
   * call before it, whatever the rollback answers.
   */
  lemma PersistRollsBack(t: string, user: Option<string>, files: seq<UploadFile>, id: string, log: seq<Call>, oracle: Oracle)
    requires forall c :: c in log ==> ImageCall(c)
    ensures RollsBackOnFailure(Persist(t, user, files, id, log, oracle), oracle)
  {
    if oracle(|log|).Fail? {
      assert Rollback !in log + [CreateRecord(t, user)];
    } else {
      AttachStep(t, user, files, id, log, oracle);
      AttachFailure(t, user, files, id, log, oracle);
      var a := AttachFrom(files, 0, id, |log| + 1, oracle);
      ConcludeRollsBack(Attached(t, user, files, id, |log| + 1, oracle),
                        log + [CreateRecord(t, user)] + a.calls, a.err, id, oracle);
    }
  }

  /** Once the record exists, concluding rolls back exactly when it fails, right after the failed call. */
  lemma ConcludeRollsBack(s: StoreState, pre: seq<Call>, err: Option<Error>, id: string, oracle: Oracle)
    requires err.Some? ==> |pre| >= 1 && oracle(|pre| - 1).Fail? && err.value == External(oracle(|pre| - 1).reason)
    requires Rollback !in pre && Commit !in pre && s.record.Some?
    ensures RollsBackOnFailure(Conclude(s, pre, err, id, oracle), oracle)
  {
    ConcludeOutcome(s, pre, err, id, oracle);
  }

  /** Commit is only issued once every attachment is written, and nothing is committed without it. */
  lemma PersistCommits(t: string, user: Option<string>, files: seq<UploadFile>, id: string, log: seq<Call>, oracle: Oracle)
    requires forall c :: c in log ==> ImageCall(c)
    ensures var db := Persist(t, user, files, id, log, oracle); Commit in db.calls ==> db.store.attachments == AttachmentsOf(id, files)
    ensures var db := Persist(t, user, files, id, log, oracle); db.store.committed ==> Commit in db.calls
  {
    if oracle(|log|).Fail? {
      assert Commit !in log + [CreateRecord(t, user)];
    } else {
      AttachStep(t, user, files, id, log, oracle);
      AttachedPrefix(files, id, |log| + 1, oracle);
      var a := AttachFrom(files, 0, id, |log| + 1, oracle);
      ConcludeKeepsContents(Attached(t, user, files, id, |log| + 1, oracle),
                            log + [CreateRecord(t, user)] + a.calls, a.err, id, oracle);
    }
  }

  /** Apart from the store calls it adds, the transactional part calls nothing new. */
  lemma PersistCallsStore(t: string, user: Option<string>, files: seq<UploadFile>, id: string, log: seq<Call>, oracle: Oracle)
    requires forall c :: c in log ==> ImageCall(c)
    ensures var db := Persist(t, user, files, id, log, oracle); forall c :: c in db.calls ==> c in log || !ImageCall(c)
  {
    if !oracle(|log|).Fail? {
      AttachStep(t, user, files, id, log, oracle);
      var a := AttachFrom(files, 0, id, |log| + 1, oracle);
      AttachCallsOnly(files, id, |log| + 1, oracle);
      ConcludeKeepsContents(Attached(t, user, files, id, |log| + 1, oracle),
                            log + [CreateRecord(t, user)] + a.calls, a.err, id, oracle);
    }
  }

  /** Every call of an inspection step is an inspection. */
  lemma InspectCalls(files: seq<UploadFile>, original: bool, at: nat, oracle: Oracle)
    ensures forall c :: c in InspectFrom(files, 0, original, at, oracle).calls ==> c.Inspect?
  {
    var p := InspectFrom(files, 0, original, at, oracle);
    InspectionOrder(files, 0, original, at, oracle);
    forall c | c in p.calls ensures c.Inspect? {
      var j :| 0 <= j < |p.calls| && p.calls[j] == c;
      assert p.calls[j] == Inspect(files[0 + j].path);
    }
  }

  /** Every call of a resize step is a move or a resize. */
  lemma {:induction false} ResizeCalls(files: seq<UploadFile>, i: nat, spec: ResizeSpec, at: nat, oracle: Oracle)
    requires i <= |files|
    decreases |files| - i
    ensures forall c :: c in ResizeFrom(files, i, spec, at, oracle).calls ==> c.Rename? || c.Resize?
  {
    if i < |files| && !oracle(at).Fail? && !oracle(at + 1).Fail? {
      ResizeCalls(files[i := Moved(files[i])], i + 1, spec, at + 2, oracle);
    }
  }

  /** `after` is `before` with at most the field an inspection writes changed. */
  predicate InfoOnly(before: UploadFile, after: UploadFile, original: bool)
  {
    if original then after == before.(origInfo := after.origInfo) else after == before.(info := after.info)
  }

  /** An inspection step, even one that fails, changes nothing but the inspection results. */
  lemma {:induction false} InspectTouchesInfo(files: seq<UploadFile>, i: nat, original: bool, at: nat, oracle: Oracle)
    requires i <= |files|
    decreases |files| - i
    ensures forall k :: 0 <= k < |files| ==>
      InfoOnly(files[k], InspectFrom(files, i, original, at, oracle).files[k], original)
  {
    if i < |files| && oracle(at).Image? {
      var f := files[i := WithInfo(files[i], original, oracle(at).info)];
      InspectTouchesInfo(f, i + 1, original, at + 1, oracle);
      var p := InspectFrom(files, i, original, at, oracle);
      assert p.files == InspectFrom(f, i + 1, original, at + 1, oracle).files;
      forall k | 0 <= k < |files| ensures InfoOnly(files[k], p.files[k], original) {
        assert InfoOnly(f[k], p.files[k], original);
      }
    }
  }

  /** A resize step, even one that fails, changes nothing but `path_orig`. */
  lemma {:induction false} ResizeTouchesOrig(files: seq<UploadFile>, i: nat, spec: ResizeSpec, at: nat, oracle: Oracle)
    requires i <= |files|
    decreases |files| - i
    ensures forall k :: 0 <= k < |files| ==>
      ResizeFrom(files, i, spec, at, oracle).files[k] == files[k].(pathOrig := ResizeFrom(files, i, spec, at, oracle).files[k].pathOrig)
  {
    if i < |files| && !oracle(at).Fail? && !oracle(at + 1).Fail? {
      var f := files[i := Moved(files[i])];
      ResizeTouchesOrig(f, i + 1, spec, at + 2, oracle);
      var p := ResizeFrom(files, i, spec, at, oracle);
      assert p.files == ResizeFrom(f, i + 1, spec, at + 2, oracle).files;
      forall k | 0 <= k < |files| ensures p.files[k] == files[k].(pathOrig := p.files[k].pathOrig) {
        assert p.files[k] == f[k].(pathOrig := p.files[k].pathOrig);
      }
    }
  }

  /** The image steps call only the image inspector and the file system, each only when switched on. */
  lemma PrepareCalls(s: Settings, files: seq<UploadFile>, oracle: Oracle)
    ensures forall c :: c in Prepare(s, files, oracle).calls ==> ImageCall(c)
    ensures !ImageEnabled(s) ==> forall c :: c in Prepare(s, files, oracle).calls ==> !c.Inspect?
    ensures !ResizeEnabled(s) ==> forall c :: c in Prepare(s, files, oracle).calls ==> !c.Rename? && !c.Resize?
  {
    var p1 := if ImageEnabled(s) then InspectFrom(files, 0, true, 0, oracle) else Skipped(files);
    InspectCalls(files, true, 0, oracle);
    if p1.err.None? {
      var q2 := if ResizeEnabled(s) then ResizeFrom(p1.files, 0, s.resize.value, |p1.calls|, oracle) else Skipped(p1.files);
      if ResizeEnabled(s) {
        ResizeCalls(p1.files, 0, s.resize.value, |p1.calls|, oracle);
      }
      var p2 := Prefixed(p1.calls, q2);
      if p2.err.None? {
        InspectCalls(p2.files, false, |p2.calls|, oracle);
      }
    }
  }

  /** Each file keeps its path, its client name, its declared content type and its decoder stream. */
  predicate SameUpload(before: UploadFile, after: UploadFile)
  {
    && after.path == before.path
    && after.originalFilename == before.originalFilename
    && after.contentType == before.contentType
    && after.stream == before.stream
  }

  /** The request got as far as creating its record. */
  predicate Created(r: Report)
  {
    r.store.Some? && r.store.value.record.Some?
  }

  /** The image steps keep every file's identity and position. */
  lemma PrepareKeepsUploads(s: Settings, files: seq<UploadFile>, oracle: Oracle)
    ensures forall k :: 0 <= k < |files| ==> SameUpload(files[k], Prepare(s, files, oracle).files[k])
  {
    var p1 := if ImageEnabled(s) then InspectFrom(files, 0, true, 0, oracle) else Skipped(files);
    InspectTouchesInfo(files, 0, true, 0, oracle);
    if p1.err.None? {
      var q2 := if ResizeEnabled(s) then ResizeFrom(p1.files, 0, s.resize.value, |p1.calls|, oracle) else Skipped(p1.files);
      if ResizeEnabled(s) {
        ResizeTouchesOrig(p1.files, 0, s.resize.value, |p1.calls|, oracle);
      }
      var p2 := Prefixed(p1.calls, q2);
      if p2.err.None? {
        InspectTouchesInfo(p2.files, 0, false, |p2.calls|, oracle);
        var p3 := if ImageEnabled(s) then InspectFrom(p2.files, 0, false, |p2.calls|, oracle) else Skipped(p2.files);
        forall k | 0 <= k < |files| ensures SameUpload(files[k], Prepare(s, files, oracle).files[k]) {
          assert SameUpload(files[k], p1.files[k]);
          assert SameUpload(p1.files[k], p2.files[k]);
          assert SameUpload(p2.files[k], p3.files[k]);
        }
      }
    }
  }

  /** `x` holds the image metadata of the inspector's answer `a`. */
  predicate Answered(x: Option<ImageInfo>, a: Reply)
  {
    a.Image? && x == Some(a.info)
  }

  /** The position of the first re-inspection in the call log of `n` files. */
  function Reinspection(s: Settings, n: nat): nat
  {
    if ResizeEnabled(s) then 3 * n else n
  }

  /** The image steps after the first inspection, on its result `p1`. */
  function Later(s: Settings, p1: Pass, oracle: Oracle): Pass
  {
    var p2 := Prefixed(p1.calls,
      if ResizeEnabled(s) then ResizeFrom(p1.files, 0, s.resize.value, |p1.calls|, oracle) else Skipped(p1.files));
    if p2.err.Some? then p2
    else Prefixed(p2.calls, if ImageEnabled(s) then InspectFrom(p2.files, 0, false, |p2.calls|, oracle) else Skipped(p2.files))
  }

  /** The first inspection stores each answer in `orig_info`, and the later steps keep it. */
  lemma PrepareOriginals(s: Settings, files: seq<UploadFile>, oracle: Oracle)
    ensures Prepare(s, files, oracle).err.None? && ImageEnabled(s) ==>
      forall k :: 0 <= k < |files| ==> Answered(Prepare(s, files, oracle).files[k].origInfo, oracle(k))
  {
    var p1 := InspectFrom(files, 0, true, 0, oracle);
    if ImageEnabled(s) && p1.err.None? {
      InspectionStores(files, 0, true, 0, oracle);
      var p := Later(s, p1, oracle);
      assert Prepare(s, files, oracle) == p;
      if p.err.None? {
        var p2 := Prefixed(p1.calls,
          if ResizeEnabled(s) then ResizeFrom(p1.files, 0, s.resize.value, |p1.calls|, oracle) else Skipped(p1.files));
        if ResizeEnabled(s) {
          ResizeTouchesOrig(p1.files, 0, s.resize.value, |p1.calls|, oracle);
        }
        InspectTouchesInfo(p2.files, 0, false, |p2.calls|, oracle);
        forall k | 0 <= k < |files| ensures Answered(p.files[k].origInfo, oracle(k)) {
          assert Stored(files[k], p1.files[k], true, oracle(0 + (k - 0)));
          assert InfoOnly(p2.files[k], p.files[k], false);
        }
      }
    }
  }

  /** After a successful first inspection, the re-inspection stores each answer in `info`. */
  lemma LaterReinspects(s: Settings, p1: Pass, oracle: Oracle)
    requires ImageEnabled(s) && p1.err.None?
    ensures Later(s, p1, oracle).err.None? ==>
      forall k :: 0 <= k < |p1.files| ==>
        Answered(Later(s, p1, oracle).files[k].info,
                 oracle(|p1.calls| + (if ResizeEnabled(s) then 2 * |p1.files| else 0) + k))
  {
    var p := Later(s, p1, oracle);
    var p2 := Prefixed(p1.calls,
      if ResizeEnabled(s) then ResizeFrom(p1.files, 0, s.resize.value, |p1.calls|, oracle) else Skipped(p1.files));
    if p2.err.None? && p.err.None? {
      assert p == Prefixed(p2.calls, InspectFrom(p2.files, 0, false, |p2.calls|, oracle));
      InspectionStores(p2.files, 0, false, |p2.calls|, oracle);
      forall k | 0 <= k < |p1.files|
        ensures Answered(p.files[k].info, oracle(|p1.calls| + (if ResizeEnabled(s) then 2 * |p1.files| else 0) + k))
      {
        assert Stored(p2.files[k], p.files[k], false, oracle(|p2.calls| + (k - 0)));
      }
    }
  }

  /** The re-inspection stores each answer in `info`; it starts after the first inspection and the resizes. */
  lemma PrepareReinspects(s: Settings, files: seq<UploadFile>, oracle: Oracle)
    ensures Prepare(s, files, oracle).err.None? && ImageEnabled(s) ==>
      forall k :: 0 <= k < |files| ==> Answered(Prepare(s, files, oracle).files[k].info, oracle(Reinspection(s, |files|) + k))
  {
    var p1 := InspectFrom(files, 0, true, 0, oracle);
    if ImageEnabled(s) && p1.err.None? {
      assert Prepare(s, files, oracle) == Later(s, p1, oracle);
      assert |p1.calls| == |p1.files| == |files|;
      LaterReinspects(s, p1, oracle);
    }
  }

  /** Resizing records each file's `.orig` path, and the re-inspection keeps it. */
  lemma PrepareMoves(s: Settings, files: seq<UploadFile>, oracle: Oracle)
    ensures Prepare(s, files, oracle).err.None? && ResizeEnabled(s) ==>
      forall k :: 0 <= k < |files| ==> Prepare(s, files, oracle).files[k].pathOrig == Some(OrigPath(files[k].path))
  {
    var p1 := if ImageEnabled(s) then InspectFrom(files, 0, true, 0, oracle) else Skipped(files);
    if ResizeEnabled(s) && p1.err.None? {
      var p := Later(s, p1, oracle);
      assert Prepare(s, files, oracle) == p;
      var p2 := Prefixed(p1.calls, ResizeFrom(p1.files, 0, s.resize.value, |p1.calls|, oracle));
      if p2.err.None? {
        ResizeMoves(p1.files, 0, s.resize.value, |p1.calls|, oracle);
        InspectTouchesInfo(files, 0, true, 0, oracle);
        InspectTouchesInfo(p2.files, 0, false, |p2.calls|, oracle);
        forall k | 0 <= k < |files| ensures p.files[k].pathOrig == Some(OrigPath(files[k].path)) {
          assert p2.files[k] == Moved(p1.files[k]);
          assert InfoOnly(p2.files[k], p.files[k], false);
          assert InfoOnly(files[k], p1.files[k], true);
        }
      }
    }
  }

  /**
   * A POST without files under the enabled field names fails before calling
   * anything; otherwise its files are the selected ones, in order, and their
   * decoder streams are dropped exactly when the record was created.
   */
  lemma RunSelects(s: Settings, user: Option<string>, fields: map<string, Field>, id: string, oracle: Oracle)
    requires IsNormalized(s)
    ensures Selected(fields) == [] ==> Run(s, user, fields, id, oracle) == Report([], [], None, Failed(NoFiles))
    ensures Run(s, user, fields, id, oracle).outcome == Failed(NoFiles) ==> Selected(fields) == []
    ensures |Run(s, user, fields, id, oracle).files| == |Selected(fields)|
    ensures var r := Run(s, user, fields, id, oracle);
      forall k :: 0 <= k < |Selected(fields)| ==>
        SameUpload(Selected(fields)[k].(stream := Selected(fields)[k].stream && !Created(r)), r.files[k])
  {
    var files := Selected(fields);
    if files != [] {
      PrepareKeepsUploads(s, files, oracle);
    }
  }

  /** Until the transaction is opened only the image steps have been called, and the request has failed. */
  lemma RunBeforeStore(s: Settings, user: Option<string>, fields: map<string, Field>, id: string, oracle: Oracle)
    requires IsNormalized(s)
    ensures var r := Run(s, user, fields, id, oracle);
      r.store.None? ==> r.outcome.Failed? && forall c :: c in r.calls ==> ImageCall(c)
    ensures var r := Run(s, user, fields, id, oracle);
      r.store.Some? ==> CreateRecord(s.uploadType.value, Owner(user)) in r.calls
  {
    var files := Selected(fields);
    if files != [] {
      var p := Prepare(s, files, oracle);
      PrepareCalls(s, files, oracle);
      if p.err.None? {
        var db := Persist(s.uploadType.value, Owner(user), Released(p.files), id, p.calls, oracle);
        assert db.calls[|p.calls|] == (p.calls + [CreateRecord(s.uploadType.value, Owner(user))])[|p.calls|];
      }
    }
  }

  /**
   * A redirect goes to the new record, after every selected file was
   * attached to it and committed, with no rollback.
   */
  lemma RunDelivers(s: Settings, user: Option<string>, fields: map<string, Field>, id: string, oracle: Oracle)
    requires IsNormalized(s)
    ensures var r := Run(s, user, fields, id, oracle);
      r.outcome.Redirected? ==>
      && r.store.Some?
      && |r.files| >= 1
      && Delivered(r.calls, r.store.value, r.outcome, s.uploadType.value, Owner(user), r.files, id)
      // every call of the request, image steps included, was accepted
      && forall j :: 0 <= j < |r.calls| ==> !Refused(r.calls[j], oracle(j))
  {
    RunStops(s, user, fields, id, oracle);
    var files := Selected(fields);
    if files != [] {
      var p := Prepare(s, files, oracle);
      PrepareCalls(s, files, oracle);
      if p.err.None? {
        PersistDelivers(s.uploadType.value, Owner(user), Released(p.files), id, p.calls, oracle);
      }
    }
  }

  /**
   * A rollback is issued exactly when the record exists and the request
   * fails; it comes last, and the request fails with the error that caused
   * it, not with the rollback's.
   */
  lemma RunRollsBack(s: Settings, user: Option<string>, fields: map<string, Field>, id: string, oracle: Oracle)
    requires IsNormalized(s)
    ensures var r := Run(s, user, fields, id, oracle);
      Rollback in r.calls <==>
      && r.store.Some?
      && r.store.value.record.Some?
      && r.outcome.Failed?
    ensures var r := Run(s, user, fields, id, oracle);
      Rollback in r.calls ==>
      RolledBack(r.calls, r.store.value, r.outcome, oracle)
  {
    var files := Selected(fields);
    if files != [] {
      var p := Prepare(s, files, oracle);
      PrepareCalls(s, files, oracle);
      if p.err.None? {
        PersistRollsBack(s.uploadType.value, Owner(user), Released(p.files), id, p.calls, oracle);
      }
    }
  }

  /**
   * The transaction only ever holds attachments of its own record, and what
   * other readers can see is either nothing or the record of this request
   * with every selected file attached.
   */
  lemma RunCommitsWhole(s: Settings, user: Option<string>, fields: map<string, Field>, id: string, oracle: Oracle)
    requires IsNormalized(s)
    ensures var r := Run(s, user, fields, id, oracle);
      r.store.Some? ==> r.store.value.Valid()
    ensures var r := Run(s, user, fields, id, oracle);
      r.store.Some? && r.store.value.Visible() != [] ==>
      && Commit in r.calls
      && r.store.value.record == Some(Record(id, s.uploadType.value, Owner(user)))
      && r.store.value.attachments == AttachmentsOf(id, r.files)
  {
    var files := Selected(fields);
    if files != [] {
      var p := Prepare(s, files, oracle);
      PrepareCalls(s, files, oracle);
      if p.err.None? {
        PersistRecord(s.uploadType.value, Owner(user), Released(p.files), id, p.calls, oracle);
        PersistCommits(s.uploadType.value, Owner(user), Released(p.files), id, p.calls, oracle);
      }
    }
  }

  /** Inspections happen only with image features on, moves and resizes only with a resize target. */
  lemma RunImageCalls(s: Settings, user: Option<string>, fields: map<string, Field>, id: string, oracle: Oracle)
    requires IsNormalized(s)
    ensures !ImageEnabled(s) ==> forall c :: c in Run(s, user, fields, id, oracle).calls ==> !c.Inspect?
    ensures !ResizeEnabled(s) ==> forall c :: c in Run(s, user, fields, id, oracle).calls ==> !c.Rename? && !c.Resize?
  {
    var files := Selected(fields);
    if files != [] {
      var p := Prepare(s, files, oracle);
      PrepareCalls(s, files, oracle);
      if p.err.None? {
        PersistCallsStore(s.uploadType.value, Owner(user), Released(p.files), id, p.calls, oracle);
      }
    }
  }

  /** A request that reaches the store carries its prepared files, streams aside. */
  lemma RunCarriesPrepared(s: Settings, user: Option<string>, fields: map<string, Field>, id: string, oracle: Oracle)
    requires IsNormalized(s)
    ensures var r := Run(s, user, fields, id, oracle);
      r.store.Some? ==>
      && Selected(fields) != []
      && Prepare(s, Selected(fields), oracle).err.None?
      && |r.files| == |Selected(fields)|
      && forall k :: 0 <= k < |Selected(fields)| ==>
        r.files[k] ==
          Prepare(s, Selected(fields), oracle).files[k].(stream := r.files[k].stream)
  {
  }

  /** A request that reaches the store carries the inspection results of every file. */
  lemma RunInspections(s: Settings, user: Option<string>, fields: map<string, Field>, id: string, oracle: Oracle)
    requires IsNormalized(s)
    ensures var r := Run(s, user, fields, id, oracle);
      r.store.Some? && ImageEnabled(s) ==>
      forall k :: 0 <= k < |r.files| ==>
        Answered(r.files[k].origInfo, oracle(k)) &&
        Answered(r.files[k].info, oracle(Reinspection(s, |r.files|) + k))
  {
    var files := Selected(fields);
    var r := Run(s, user, fields, id, oracle);
    RunCarriesPrepared(s, user, fields, id, oracle);
    if r.store.Some? && ImageEnabled(s) {
      var p := Prepare(s, files, oracle);
      PrepareOriginals(s, files, oracle);
      PrepareReinspects(s, files, oracle);
      forall k | 0 <= k < |r.files|
        ensures Answered(r.files[k].origInfo, oracle(k)) && Answered(r.files[k].info, oracle(Reinspection(s, |r.files|) + k))
      {
        assert r.files[k].origInfo == p.files[k].origInfo && r.files[k].info == p.files[k].info;
      }
    }
  }

  /** A request that reaches the store with a resize target carries the `.orig` path of every file. */
  lemma RunMoves(s: Settings, user: Option<string>, fields: map<string, Field>, id: string, oracle: Oracle)
    requires IsNormalized(s)
    ensures var r := Run(s, user, fields, id, oracle);
      r.store.Some? && ResizeEnabled(s) ==>
      forall k :: 0 <= k < |r.files| ==>
        r.files[k].pathOrig == Some(OrigPath(r.files[k].path))
  {
    var files := Selected(fields);
    RunCarriesPrepared(s, user, fields, id, oracle);
    if files != [] {
      PrepareMoves(s, files, oracle);
      PrepareKeepsUploads(s, files, oracle);
    }
  }

  /** Without image features a request reaches the store with its files as selected, streams aside. */
  lemma RunWithoutImages(s: Settings, user: Option<string>, fields: map<string, Field>, id: string, oracle: Oracle)
    requires IsNormalized(s)
    ensures var r := Run(s, user, fields, id, oracle);
      r.store.Some? && !ImageEnabled(s) ==>
      r.files == if Created(r) then Released(Selected(fields)) else Selected(fields)
  {
  }

  // A refused call ends the request.

  /** The position of the call that made a request fail: the last call, or the one before a closing rollback. */
  function Cause(calls: seq<Call>): int
  {
    if |calls| > 0 && calls[|calls| - 1] == Rollback then |calls| - 2 else |calls| - 1
  }

  /**
   * From position `from` on, every call but the rollback was accepted,
   * except the one that caused the failure of a failed request.
   */
  predicate StopsAtFailure(calls: seq<Call>, from: nat, failed: bool, oracle: Oracle)
  {
    forall j :: from <= j < |calls| && calls[j] != Rollback ==>
      (Refused(calls[j], oracle(j)) <==> failed && j == Cause(calls))
  }

  /**
   * From position `from` on, the request stopped at its failure; a failed
   * request's cause lies there, and one that stays committed while failing
   * failed on its redirect.
   */
  predicate FailsAtCause(db: Db, from: nat, id: string, oracle: Oracle)
  {
    && StopsAtFailure(db.calls, from, db.outcome.Failed?, oracle)
    && (db.outcome.Failed? ==>
          && from <= Cause(db.calls) < |db.calls|
          && (db.store.committed ==> db.calls[Cause(db.calls)] == Redirect(id)))
  }

  /** The calls of a step appended to a log: from the log's end on, the request stops where the step does. */
  lemma Tail(xs: seq<Call>, ys: seq<Call>, failed: bool, oracle: Oracle)
    requires Rollback !in ys && StopsAt(ys, |xs|, failed, oracle) && (failed ==> ys != [])
    ensures StopsAtFailure(xs + ys, |xs|, failed, oracle)
    ensures failed ==> |xs| <= Cause(xs + ys)
  {
    var zs := xs + ys;
    if ys != [] {
      assert zs[|zs| - 1] == ys[|ys| - 1] && ys[|ys| - 1] in ys;
    }
    forall j | |xs| <= j < |zs| && zs[j] != Rollback ensures (Refused(zs[j], oracle(j)) <==> failed && j == Cause(zs)) {
      assert zs[j] == ys[j - |xs|] && |xs| + (j - |xs|) == j;
    }
  }

  /** A log whose calls were all accepted, extended by calls that stop at the failure, stops at the failure. */
  lemma Extended(log: seq<Call>, calls: seq<Call>, failed: bool, oracle: Oracle)
    requires |log| <= |calls| && calls[..|log|] == log
    requires StopsAt(log, 0, false, oracle) && StopsAtFailure(calls, |log|, failed, oracle)
    requires failed ==> |log| <= Cause(calls)
    ensures StopsAtFailure(calls, 0, failed, oracle)
  {
    forall j | 0 <= j < |calls| && calls[j] != Rollback ensures (Refused(calls[j], oracle(j)) <==> failed && j == Cause(calls)) {
      if j < |log| {
        assert calls[j] == log[j] && 0 + j == j;
      }
    }
  }

  /** A refused image call ends the image steps: no later step makes any call. */
  lemma PrepareStops(s: Settings, files: seq<UploadFile>, oracle: Oracle)
    ensures StopsAt(Prepare(s, files, oracle).calls, 0, Prepare(s, files, oracle).err.Some?, oracle)
  {
    var p1 := if ImageEnabled(s) then InspectFrom(files, 0, true, 0, oracle) else Skipped(files);
    var q2 := if ResizeEnabled(s) then ResizeFrom(p1.files, 0, s.resize.value, |p1.calls|, oracle) else Skipped(p1.files);
    var p2 := Prefixed(p1.calls, q2);
    var q3 := if ImageEnabled(s) then InspectFrom(p2.files, 0, false, |p2.calls|, oracle) else Skipped(p2.files);
    InspectPhaseStops(s, files, true, 0, oracle);
    ResizePhaseStops(s, p1.files, |p1.calls|, oracle);
    InspectPhaseStops(s, p2.files, false, |p2.calls|, oracle);
    ThreeSteps(p1, q2, q3, oracle);
  }

  /** Three steps run one after another, each only if the one before succeeded, stop at the first refusal. */
  lemma ThreeSteps(p1: Pass, q2: Pass, q3: Pass, oracle: Oracle)
    requires StopsAt(p1.calls, 0, p1.err.Some?, oracle)
    requires StopsAt(q2.calls, |p1.calls|, q2.err.Some?, oracle) && (q2.err.Some? ==> q2.calls != [])
    requires StopsAt(q3.calls, |p1.calls + q2.calls|, q3.err.Some?, oracle) && (q3.err.Some? ==> q3.calls != [])
    ensures var r := if p1.err.Some? then p1 else
              var p2 := Prefixed(p1.calls, q2);
              if p2.err.Some? then p2 else Prefixed(p2.calls, q3);
      StopsAt(r.calls, 0, r.err.Some?, oracle)
  {
    if p1.err.None? {
      JoinSteps(p1.calls, q2.calls, 0, q2.err.Some?, oracle);
      if q2.err.None? {
        JoinSteps(p1.calls + q2.calls, q3.calls, 0, q3.err.Some?, oracle);
      }
    }
  }

  /** An inspection phase, switched on or off, stops at its first refusal, which is then its last call. */
  lemma InspectPhaseStops(s: Settings, files: seq<UploadFile>, original: bool, at: nat, oracle: Oracle)
    ensures var q := if ImageEnabled(s) then InspectFrom(files, 0, original, at, oracle) else Skipped(files);
      StopsAt(q.calls, at, q.err.Some?, oracle) && (q.err.Some? ==> q.calls != [])
  {
    if ImageEnabled(s) {
      InspectStops(files, 0, original, at, oracle);
    }
  }

  /** A resize phase, switched on or off, stops at its first refusal, which is then its last call. */
  lemma ResizePhaseStops(s: Settings, files: seq<UploadFile>, at: nat, oracle: Oracle)
    ensures var q := if ResizeEnabled(s) then ResizeFrom(files, 0, s.resize.value, at, oracle) else Skipped(files);
      StopsAt(q.calls, at, q.err.Some?, oracle) && (q.err.Some? ==> q.calls != [])
  {
    if ResizeEnabled(s) {
      ResizeStops(files, 0, s.resize.value, at, oracle);
    }
  }

  /**
   * After attaching: a refused commit or redirect fails the request and is
   * the cause reported; a request that stays committed while failing failed
   * on its redirect.
   */
  lemma ConcludeStops(s: StoreState, pre: seq<Call>, err: Option<Error>, id: string, oracle: Oracle, from: nat)
    requires err.Some? ==> err.value.External?
    requires from <= |pre| && Rollback !in pre && !s.committed
    requires StopsAtFailure(pre, from, err.Some?, oracle) && (err.Some? ==> from < |pre|)
    ensures FailsAtCause(Conclude(s, pre, err, id, oracle), from, id, oracle)
  {
    var db := Conclude(s, pre, err, id, oracle);
    if pre != [] {
      assert pre[|pre| - 1] in pre;
    }
    if err.Some? {
      assert db.calls == pre + [Rollback];
      forall j | from <= j < |db.calls| && db.calls[j] != Rollback
        ensures (Refused(db.calls[j], oracle(j)) <==> j == Cause(db.calls))
      {
        assert db.calls[j] == pre[j];
      }
    } else if oracle(|pre|).Fail? {
      assert db.calls == pre + [Commit] + [Rollback];
      forall j | from <= j < |db.calls| && db.calls[j] != Rollback
        ensures (Refused(db.calls[j], oracle(j)) <==> j == Cause(db.calls))
      {
        if j < |pre| {
          assert db.calls[j] == pre[j];
        }
      }
    } else if oracle(|pre| + 1).Fail? {
      assert db.calls == pre + [Commit, Redirect(id)] + [Rollback];
      forall j | from <= j < |db.calls| && db.calls[j] != Rollback
        ensures (Refused(db.calls[j], oracle(j)) <==> j == Cause(db.calls))
      {
        if j < |pre| {
          assert db.calls[j] == pre[j];
        }
      }
    } else {
      assert db.calls == pre + [Commit, Redirect(id)];
      forall j | from <= j < |db.calls| && db.calls[j] != Rollback ensures !Refused(db.calls[j], oracle(j)) {
        if j < |pre| {
          assert db.calls[j] == pre[j];
        }
      }
    }
  }

  /**
   * From the record creation on, a refused call fails the request and is
   * its cause; a request that stays committed while failing failed on its
   * redirect.
   */
  lemma PersistStops(t: string, user: Option<string>, files: seq<UploadFile>, id: string, log: seq<Call>, oracle: Oracle)
    requires forall c :: c in log ==> ImageCall(c)
    ensures FailsAtCause(Persist(t, user, files, id, log, oracle), |log|, id, oracle)
  {
    var created := log + [CreateRecord(t, user)];
    if oracle(|log|).Fail? {
      Tail(log, [CreateRecord(t, user)], true, oracle);
    } else {
      AttachStep(t, user, files, id, log, oracle);
      AttachCallsOnly(files, id, |created|, oracle);
      AttachStops(files, 0, id, |created|, oracle);
      var a := AttachFrom(files, 0, id, |created|, oracle);
      AcceptedThen(log, CreateRecord(t, user), a.calls, a.err.Some?, oracle);
      ConcludeStops(Attached(t, user, files, id, |created|, oracle), created + a.calls, a.err, id, oracle, |log|);
    }
  }

  /** An accepted call followed by a step that stops at its failure: from that call on, the request stops there too. */
  lemma AcceptedThen(log: seq<Call>, c: Call, calls: seq<Call>, failed: bool, oracle: Oracle)
    requires c != Rollback && !Refused(c, oracle(|log|))
    requires Rollback !in calls && StopsAt(calls, |log| + 1, failed, oracle) && (failed ==> calls != [])
    ensures StopsAtFailure(log + [c] + calls, |log|, failed, oracle)
  {
    JoinSteps([c], calls, |log|, failed, oracle);
    assert Rollback !in [c] + calls;
    Tail(log, [c] + calls, failed, oracle);
    assert log + ([c] + calls) == log + [c] + calls;
  }

  /**
   * A refused call, of any kind but the rollback, fails the request and is
   * the cause it reports; a request that stays committed while failing
   * failed on its redirect.
   */
  lemma RunStops(s: Settings, user: Option<string>, fields: map<string, Field>, id: string, oracle: Oracle)
    requires IsNormalized(s)
    ensures var r := Run(s, user, fields, id, oracle);
      StopsAtFailure(r.calls, 0, r.outcome.Failed?, oracle)
    ensures var r := Run(s, user, fields, id, oracle);
      r.outcome.Failed? && r.store.Some? && r.store.value.committed ==>
      && 0 <= Cause(r.calls)
      && r.calls[Cause(r.calls)] == Redirect(id)
  {
    var files := Selected(fields);
    if files != [] {
      var p := Prepare(s, files, oracle);
      PrepareStops(s, files, oracle);
      PrepareCalls(s, files, oracle);
      if p.err.Some? {
        ImageStepsStop(p.calls, oracle);
      } else {
        var db := Persist(s.uploadType.value, Owner(user), Released(p.files), id, p.calls, oracle);
        PersistStops(s.uploadType.value, Owner(user), Released(p.files), id, p.calls, oracle);
        Preceded(p.calls, CreateRecord(s.uploadType.value, Owner(user)), db, id, oracle);
      }
    }
  }

  /** Image steps that failed stop at their last call, which is the failure's cause. */
  lemma ImageStepsStop(calls: seq<Call>, oracle: Oracle)
    requires forall c :: c in calls ==> ImageCall(c)
    requires StopsAt(calls, 0, true, oracle)
    ensures StopsAtFailure(calls, 0, true, oracle)
  {
    if calls != [] {
      assert calls[|calls| - 1] in calls;
    }
    forall j | 0 <= j < |calls| && calls[j] != Rollback ensures (Refused(calls[j], oracle(j)) <==> j == Cause(calls)) {
      assert 0 + j == j;
    }
  }

  /** Accepted image steps before the store part keep it stopping at its failure, from the first call on. */
  lemma Preceded(log: seq<Call>, c: Call, db: Db, id: string, oracle: Oracle)
    requires StopsAt(log, 0, false, oracle)
    requires |db.calls| > |log| && db.calls[..|log| + 1] == log + [c]
    requires FailsAtCause(db, |log|, id, oracle)
    ensures FailsAtCause(db, 0, id, oracle)
  {
    assert db.calls[..|log|] == (db.calls[..|log| + 1])[..|log|];
    Extended(log, db.calls, db.outcome.Failed?, oracle);
  }

  /**
   * A committed upload had every call before its redirect accepted: a
   * refused image step, record creation, attachment or commit leaves
   * nothing committed.
   */
  lemma RunCommitsOnlyAccepted(s: Settings, user: Option<string>, fields: map<string, Field>, id: string, oracle: Oracle)
    requires IsNormalized(s)
    ensures var r := Run(s, user, fields, id, oracle);
      r.store.Some? && r.store.value.committed ==>
      forall j :: 0 <= j < |r.calls| && r.calls[j] != Rollback && r.calls[j] != Redirect(id) ==>
        !Refused(r.calls[j], oracle(j))
  {
    RunStops(s, user, fields, id, oracle);
  }
}
