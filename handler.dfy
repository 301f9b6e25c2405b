/**
 * The POST handler as it runs: each per-file step is a loop over the files
 * that makes one call at a time, updates the file it is at and stops at the
 * first failure, and the store part drives a `Transaction`. Each method is
 * proved to do exactly what the corresponding function of `Pipeline` says.
 */
module Handler {
  import opened Wrappers
  import opened Entities
  import opened Options
  import opened Selection
  import opened Geometry
  import opened Metadata
  import opened Store
  import opened Pipeline

  /**
   * Inspecting every file in turn after the calls `log`, storing each answer
   * in `orig_info` (`original`) or `info`.
   */
  method InspectFiles(files0: seq<UploadFile>, original: bool, log: seq<Call>, oracle: Oracle)
    returns (files: seq<UploadFile>, calls: seq<Call>, err: Option<Error>)
    ensures Pass(files, calls, err) == Prefixed(log, InspectFrom(files0, 0, original, |log|, oracle))
  {
    files, calls, err := files0, log, None;
    var i := 0;
    while i < |files| && err.None?
      invariant i <= |files| == |files0|
      invariant err.None? ==>
        Prefixed(log, InspectFrom(files0, 0, original, |log|, oracle))
          == Prefixed(calls, InspectFrom(files, i, original, |calls|, oracle))
      invariant err.Some? ==>
        Prefixed(log, InspectFrom(files0, 0, original, |log|, oracle)) == Pass(files, calls, err)
      decreases |files| - i, if err.None? then 1 else 0
    {
      var before := calls;
      var call := Inspect(files[i].path);
      calls := calls + [call];
      match oracle(|before|)
      case Image(d) =>
        InspectAdvance(files, i, original, before, oracle);
        files := files[i := WithInfo(files[i], original, d)];
        i := i + 1;
      case _ =>
        err := InspectError(oracle(|before|));
    }
  }

  /** An inspection answered with an object: inspecting goes on with the next file. */
  lemma InspectAdvance(files: seq<UploadFile>, i: nat, original: bool, before: seq<Call>, oracle: Oracle)
    requires i < |files| && oracle(|before|).Image?
    ensures Prefixed(before, InspectFrom(files, i, original, |before|, oracle))
      == Prefixed(before + [Inspect(files[i].path)],
                  InspectFrom(files[i := WithInfo(files[i], original, oracle(|before|).info)], i + 1, original, |before| + 1, oracle))
  {
    var rest := InspectFrom(files[i := WithInfo(files[i], original, oracle(|before|).info)], i + 1, original, |before| + 1, oracle);
    assert before + ([Inspect(files[i].path)] + rest.calls) == (before + [Inspect(files[i].path)]) + rest.calls;
  }

  /** A refused move ends the resize step with the file system's error. */
  lemma MoveRefused(files: seq<UploadFile>, i: nat, spec: ResizeSpec, before: seq<Call>, oracle: Oracle)
    requires i < |files| && oracle(|before|).Fail?
    ensures Prefixed(before, ResizeFrom(files, i, spec, |before|, oracle))
      == Pass(files[i := Moved(files[i])], before + [Rename(files[i].path, OrigPath(files[i].path))],
              Some(External(oracle(|before|).reason)))
  {
  }

  /** An accepted move followed by a refused resize ends the resize step with the resizer's error. */
  lemma ResizeRefused(files: seq<UploadFile>, i: nat, spec: ResizeSpec, before: seq<Call>, oracle: Oracle)
    requires i < |files| && !oracle(|before|).Fail? && oracle(|before| + 1).Fail?
    ensures Prefixed(before, ResizeFrom(files, i, spec, |before|, oracle))
      == Pass(files[i := Moved(files[i])],
              before + [Rename(files[i].path, OrigPath(files[i].path))] + [Resize(ResizeOptionsFor(files[i], spec))],
              Some(External(oracle(|before| + 1).reason)))
  {
    var f := files[i];
    assert before + [Rename(f.path, OrigPath(f.path)), Resize(ResizeOptionsFor(f, spec))]
      == before + [Rename(f.path, OrigPath(f.path))] + [Resize(ResizeOptionsFor(f, spec))];
  }

  /** A move and a resize both accepted: resizing goes on with the next file. */
  lemma ResizeAdvance(files: seq<UploadFile>, i: nat, spec: ResizeSpec, before: seq<Call>, oracle: Oracle)
    requires i < |files| && !oracle(|before|).Fail? && !oracle(|before| + 1).Fail?
    ensures Prefixed(before, ResizeFrom(files, i, spec, |before|, oracle))
      == Prefixed(before + [Rename(files[i].path, OrigPath(files[i].path))] + [Resize(ResizeOptionsFor(files[i], spec))],
                  ResizeFrom(files[i := Moved(files[i])], i + 1, spec, |before| + 2, oracle))
  {
    var f := files[i];
    var step := [Rename(f.path, OrigPath(f.path)), Resize(ResizeOptionsFor(f, spec))];
    var rest := ResizeFrom(files[i := Moved(f)], i + 1, spec, |before| + 2, oracle);
    assert ResizeFrom(files, i, spec, |before|, oracle) == Pass(rest.files, step + rest.calls, rest.err);
    Shifted(before, step, rest);
    assert before + step == before + [step[0]] + [step[1]];
  }

  /** Calls made by a step can be moved from the step's pass to the log before it. */
  lemma Shifted(before: seq<Call>, step: seq<Call>, rest: Pass)
    ensures Prefixed(before, Pass(rest.files, step + rest.calls, rest.err)) == Prefixed(before + step, rest)
  {
    assert before + (step + rest.calls) == (before + step) + rest.calls;
  }

  /**
   * Resizing every file in turn after the calls `log`: record the `.orig`
   * path, move the file there, then resize it back onto its own path.
   */
  method ResizeFiles(files0: seq<UploadFile>, spec: ResizeSpec, log: seq<Call>, oracle: Oracle)
    returns (files: seq<UploadFile>, calls: seq<Call>, err: Option<Error>)
    ensures Pass(files, calls, err) == Prefixed(log, ResizeFrom(files0, 0, spec, |log|, oracle))
  {
    files, calls, err := files0, log, None;
    var i := 0;
    while i < |files| && err.None?
      invariant i <= |files| == |files0|
      invariant err.None? ==>
        Prefixed(log, ResizeFrom(files0, 0, spec, |log|, oracle))
          == Prefixed(calls, ResizeFrom(files, i, spec, |calls|, oracle))
      invariant err.Some? ==>
        Prefixed(log, ResizeFrom(files0, 0, spec, |log|, oracle)) == Pass(files, calls, err)
      decreases |files| - i, if err.None? then 1 else 0
    {
      var f := files[i];
      var rename := Rename(f.path, OrigPath(f.path));
      var resize := Resize(ResizeOptionsFor(f, spec));
      if oracle(|calls|).Fail? {
        MoveRefused(files, i, spec, calls, oracle);
        files, calls, err := files[i := Moved(f)], calls + [rename], Some(External(oracle(|calls|).reason));
      } else if oracle(|calls| + 1).Fail? {
        ResizeRefused(files, i, spec, calls, oracle);
        files, calls, err := files[i := Moved(f)], calls + [rename] + [resize], Some(External(oracle(|calls| + 1).reason));
      } else {
        ResizeAdvance(files, i, spec, calls, oracle);
        files, calls, i := files[i := Moved(f)], calls + [rename] + [resize], i + 1;
      }
    }
  }

  /** Rolling back after `err`: the request fails with `err`, whatever the rollback answers. */
  method Abort(tx: Transaction, log: seq<Call>, err: Error, oracle: Oracle) returns (calls: seq<Call>, outcome: Outcome)
    requires tx.State().Valid() && !tx.rolledBack
    modifies tx
    ensures Db(tx.State(), calls, outcome) == Undo(old(tx.State()), log, err, oracle)
  {
    tx.Rollback(!oracle(|log|).Fail?);
    calls, outcome := log + [Rollback], Failed(err);
  }

  /** `a` after the attachments `done` were written by the calls `calls`. */
  function After(done: seq<Attachment>, calls: seq<Call>, a: Attaching): Attaching
  {
    Attaching(done + a.attachments, calls + a.calls, a.err)
  }

  /** An accepted attachment of `files[i]` is written and attaching goes on with the next file. */
  lemma AttachAccepted(files: seq<UploadFile>, i: nat, id: string, n: nat, oracle: Oracle,
                       done: seq<Attachment>, calls: seq<Call>)
    requires i < |files| && !oracle(n).Fail?
    ensures After(done, calls, AttachFrom(files, i, id, n, oracle))
      == After(done + [AttachmentOf(id, files[i])], calls + [CreateAttachment(AttachmentOf(id, files[i]))],
               AttachFrom(files, i + 1, id, n + 1, oracle))
  {
    var rest := AttachFrom(files, i + 1, id, n + 1, oracle);
    assert done + ([AttachmentOf(id, files[i])] + rest.attachments) == (done + [AttachmentOf(id, files[i])]) + rest.attachments;
    assert calls + ([CreateAttachment(AttachmentOf(id, files[i]))] + rest.calls)
      == (calls + [CreateAttachment(AttachmentOf(id, files[i]))]) + rest.calls;
  }

  /** A refused attachment of `files[i]` stops attaching with the store's error. */
  lemma AttachRefused(files: seq<UploadFile>, i: nat, id: string, n: nat, oracle: Oracle,
                      done: seq<Attachment>, calls: seq<Call>)
    requires i < |files| && oracle(n).Fail?
    ensures After(done, calls, AttachFrom(files, i, id, n, oracle))
      == Attaching(done, calls + [CreateAttachment(AttachmentOf(id, files[i]))], Some(External(oracle(n).reason)))
  {
  }

  /** Attaching `files[i..]` from the `n`-th call on, after `written` and `calls`, completes `total`. */
  predicate Resumes(total: Attaching, written: seq<Attachment>, calls: seq<Call>,
                    files: seq<UploadFile>, i: nat, id: string, n: nat, oracle: Oracle)
    requires i <= |files|
  {
    total == After(written, calls, AttachFrom(files, i, id, n, oracle))
  }

  /** Before the first file nothing is written and nothing called: attaching resumes at the start. */
  lemma AttachStart(files: seq<UploadFile>, id: string, at: nat, oracle: Oracle)
    ensures Resumes(AttachFrom(files, 0, id, at, oracle), [], [], files, 0, id, at, oracle)
  {
    var a := AttachFrom(files, 0, id, at, oracle);
    assert [] + a.attachments == a.attachments && [] + a.calls == a.calls;
  }

  /** Attaching from the end of the files adds nothing. */
  lemma AttachDone(total: Attaching, written: seq<Attachment>, calls: seq<Call>,
                   files: seq<UploadFile>, id: string, n: nat, oracle: Oracle)
    requires Resumes(total, written, calls, files, |files|, id, n, oracle)
    ensures total == Attaching(written, calls, None)
  {
    assert written + [] == written && calls + [] == calls;
  }

  /**
   * Writing the attachment of every file in turn under the record `r` of
   * `tx`, the first call being the `at`-th of the request; the first refused
   * attachment stops the loop.
   */
  method AttachFiles(tx: Transaction, r: Record, files: seq<UploadFile>, at: nat, oracle: Oracle)
    returns (calls: seq<Call>, err: Option<Error>)
    requires tx.State() == Opened.(record := Some(r))
    modifies tx
    ensures tx.State().Valid()
    ensures tx.State() == Opened.(record := Some(r), attachments := AttachFrom(files, 0, r.id, at, oracle).attachments)
    ensures Attaching(tx.attachments, calls, err) == AttachFrom(files, 0, r.id, at, oracle)
  {
    ghost var total := AttachFrom(files, 0, r.id, at, oracle);
    var written: seq<Attachment> := [];
    calls, err := [], None;
    var i, n := 0, at;
    AttachStart(files, r.id, at, oracle);
    while i < |files|
      invariant i <= |files|
      invariant tx.State() == Opened.(record := Some(r), attachments := written)
      invariant forall a :: a in written ==> a.recordId == r.id
      invariant Resumes(total, written, calls, files, i, r.id, n, oracle)
    {
      var attachment := AttachmentOf(r.id, files[i]);
      if oracle(n).Fail? {
        AttachRefused(files, i, r.id, n, oracle, written, calls);
        tx.CreateAttachment(files[i].path, MetaOf(files[i]), false);
        calls, err := calls + [CreateAttachment(attachment)], Some(External(oracle(n).reason));
        return;
      }
      AttachAccepted(files, i, r.id, n, oracle, written, calls);
      tx.CreateAttachment(files[i].path, MetaOf(files[i]), true);
      calls, written, i, n := calls + [CreateAttachment(attachment)], written + [attachment], i + 1, n + 1;
    }
    AttachDone(total, written, calls, files, r.id, n, oracle);
    assert tx.attachments == written;
  }

  /** Committing and redirecting after attaching, or rolling back after the first failure. */
  method Complete(tx: Transaction, pre: seq<Call>, err: Option<Error>, id: string, oracle: Oracle)
    returns (calls: seq<Call>, outcome: Outcome)
    requires tx.State().Valid() && tx.record.Some? && !tx.committed && !tx.rolledBack
    requires err.Some? ==> err.value.External?
    modifies tx
    ensures Db(tx.State(), calls, outcome) == Conclude(old(tx.State()), pre, err, id, oracle)
  {
    if err.Some? {
      calls, outcome := Abort(tx, pre, err.value, oracle);
      return;
    }
    tx.Commit(!oracle(|pre|).Fail?);
    if oracle(|pre|).Fail? {
      calls, outcome := Abort(tx, pre + [Commit], External(oracle(|pre|).reason), oracle);
    } else if oracle(|pre| + 1).Fail? {
      calls, outcome := Abort(tx, pre + [Commit, Redirect(id)], External(oracle(|pre| + 1).reason), oracle);
    } else {
      calls, outcome := pre + [Commit, Redirect(id)], Redirected(id);
    }
  }

  /**
   * The transactional part on the transaction `tx`, after the calls `log`:
   * create the record, attach every file in turn, commit, redirect, and
   * roll back on any failure after the record exists.
   */
  method PersistFiles(tx: Transaction, t: string, user: Option<string>, files: seq<UploadFile>, id: string,
                      log: seq<Call>, oracle: Oracle)
    returns (kept: seq<UploadFile>, calls: seq<Call>, outcome: Outcome)
    requires tx.State() == Opened
    modifies tx
    ensures Db(tx.State(), calls, outcome) == Persist(t, user, Released(files), id, log, oracle)
    ensures kept == if tx.record.Some? then Released(files) else files
  {
    var created := log + [CreateRecord(t, user)];
    var record := Record(id, t, user);
    tx.Create(record, !oracle(|log|).Fail?);
    if oracle(|log|).Fail? {
      return files, created, Failed(External(oracle(|log|).reason));
    }
    kept := ReleaseStreams(files);
    var done, err := AttachFiles(tx, record, kept, |created|, oracle);
    calls, outcome := Complete(tx, created + done, err, id, oracle);
  }

  /**
   * Dropping the decoder's write stream from every file before its metadata
   * is built; nothing else about a file changes.
   */
  method ReleaseStreams(files: seq<UploadFile>) returns (r: seq<UploadFile>)
    ensures |r| == |files|
    ensures forall k :: 0 <= k < |r| ==> !r[k].stream && r[k].(stream := files[k].stream) == files[k]
    ensures r == Released(files)
  {
    r := files;
    for i := 0 to |files|
      invariant |r| == |files|
      invariant forall k :: 0 <= k < i ==> r[k] == files[k].(stream := false)
      invariant forall k :: i <= k < |files| ==> r[k] == files[k]
    {
      if r[i].stream {
        r := r[i := r[i].(stream := false)];
      }
    }
  }

  /** The image steps: inspect the originals, resize, re-inspect, each only when switched on. */
  method PrepareFiles(s: Settings, files0: seq<UploadFile>, oracle: Oracle)
    returns (files: seq<UploadFile>, calls: seq<Call>, err: Option<Error>)
    ensures Pass(files, calls, err) == Prepare(s, files0, oracle)
  {
    files, calls, err := files0, [], None;
    if ImageEnabled(s) {
      files, calls, err := InspectFiles(files, true, calls, oracle);
      assert Pass(files, calls, err) == InspectFrom(files0, 0, true, 0, oracle);
    }
    if err.Some? {
      return;
    }
    ghost var p1 := Pass(files, calls, err);
    if ResizeEnabled(s) {
      files, calls, err := ResizeFiles(files, s.resize.value, calls, oracle);
    }
    assert Pass(files, calls, err) == Prefixed(p1.calls,
      if ResizeEnabled(s) then ResizeFrom(p1.files, 0, s.resize.value, |p1.calls|, oracle) else Skipped(p1.files));
    if err.Some? {
      return;
    }
    ghost var p2 := Pass(files, calls, err);
    if ImageEnabled(s) {
      files, calls, err := InspectFiles(files, false, calls, oracle);
    }
    assert Pass(files, calls, err) == Prefixed(p2.calls,
      if ImageEnabled(s) then InspectFrom(p2.files, 0, false, |p2.calls|, oracle) else Skipped(p2.files));
  }

  /**
   * `POST /upload` on the decoded form `fields`, for settings already
   * normalised: select the files, run the image steps, then open a
   * transaction and persist. The transaction is opened only when the image
   * steps succeed.
   */
  method Post(s: Settings, user: Option<string>, fields: map<string, Field>, id: string, oracle: Oracle)
    returns (outcome: Outcome, files: seq<UploadFile>, calls: seq<Call>, tx: Transaction?)
    requires IsNormalized(s)
    ensures tx == null ==> Run(s, user, fields, id, oracle) == Report(files, calls, None, outcome)
    ensures tx != null ==> fresh(tx) && Run(s, user, fields, id, oracle) == Report(files, calls, Some(tx.State()), outcome)
  {
    SelectedIsUnion(fields);
    var selected := SelectFiles(fields);
    if selected.Failure? {
      return Failed(selected.error), [], [], null;
    }
    var err;
    files, calls, err := PrepareFiles(s, selected.value, oracle);
    if err.Some? {
      return Failed(err.value), files, calls, null;
    }
    tx := new Transaction.Start();
    files, calls, outcome := PersistFiles(tx, s.uploadType.value, Owner(user), files, id, calls, oracle);
  }
}
