/**
 * The ingestion pipeline of `POST /upload`: file selection, inspection of
 * the originals, resizing, re-inspection, then record creation, attachment
 * creation file by file, commit and redirect, with a rollback on any
 * failure once the record exists.
 *
 * Every call to a collaborator (image inspector, file system, image
 * resizer, document store, response) is appended to a call log, and its
 * answer is taken from an oracle: the k-th call of the request gets
 * `oracle(k)`. `Run` and its phase functions define what the request does;
 * the methods carry it out step by step and are proved to agree with them.
 */
module Pipeline {
  import opened Wrappers
  import opened Entities
  import opened Options
  import opened Selection
  import opened Geometry
  import opened Metadata
  import opened Store

  /** A collaborator's answer: success, success with image metadata, or failure. */
  datatype Reply = Done | Image(info: ImageInfo) | Fail(reason: string)

  /** The answers to a request's external calls, in call order. */
  type Oracle = nat -> Reply

  /** One call to a collaborator. */
  datatype Call =
    | Inspect(path: string)
    | Rename(from: string, to: string)
    | Resize(options: ResizeOptions)
    | CreateRecord(uploadType: string, user: Option<string>)
    | CreateAttachment(attachment: Attachment)
    | Commit
    | Rollback
    | Redirect(id: string)

  /** A call made by the image steps, before the store is touched. */
  predicate ImageCall(c: Call)
  {
    c.Inspect? || c.Rename? || c.Resize?
  }

  /**
   * Call `c` was refused by its answer `a`: an inspection is refused by any
   * answer that is not image metadata, every other call by a failure.
   */
  predicate Refused(c: Call, a: Reply)
  {
    if c.Inspect? then !a.Image? else a.Fail?
  }

  /**
   * The calls of one step, the first one answered by `oracle(at)`, went on
   * while their calls were accepted: a call is refused exactly when the step
   * failed and it is the step's last call.
   */
  predicate StopsAt(calls: seq<Call>, at: nat, failed: bool, oracle: Oracle)
  {
    forall j :: 0 <= j < |calls| ==> (Refused(calls[j], oracle(at + j)) <==> failed && j == |calls| - 1)
  }

  /** A step whose calls were all accepted, followed by another step, behaves as one step. */
  lemma JoinSteps(xs: seq<Call>, ys: seq<Call>, at: nat, failed: bool, oracle: Oracle)
    requires StopsAt(xs, at, false, oracle) && StopsAt(ys, at + |xs|, failed, oracle)
    requires failed ==> ys != []
    ensures StopsAt(xs + ys, at, failed, oracle)
  {
    var zs := xs + ys;
    forall j | 0 <= j < |zs| ensures (Refused(zs[j], oracle(at + j)) <==> failed && j == |zs| - 1) {
      if j < |xs| {
        assert zs[j] == xs[j];
      } else {
        assert zs[j] == ys[j - |xs|] && at + |xs| + (j - |xs|) == at + j;
      }
    }
  }

  /** One accepted call is a step that did not fail. */
  lemma AcceptedOne(c: Call, at: nat, oracle: Oracle)
    requires !Refused(c, oracle(at))
    ensures StopsAt([c], at, false, oracle)
  {
    assert [c][0] == c && at + 0 == at;
  }

  /** One refused call is a step that failed on its last call. */
  lemma RefusedOne(c: Call, at: nat, oracle: Oracle)
    requires Refused(c, oracle(at))
    ensures StopsAt([c], at, true, oracle)
  {
    assert [c][0] == c && at + 0 == at;
  }

  /** Two calls of which the first was accepted: the step failed iff the second was refused. */
  lemma TwoCalls(c: Call, d: Call, at: nat, oracle: Oracle)
    requires !Refused(c, oracle(at))
    ensures StopsAt([c, d], at, Refused(d, oracle(at + 1)), oracle)
  {
    assert [c, d][0] == c && [c, d][1] == d && at + 0 == at;
  }

  /** How a POST ends: a 303 redirect to the new record, or an error. */
  datatype Outcome = Redirected(id: string) | Failed(error: Error)

  /** The files after one per-file step, the calls it made, and the error that stopped it. */
  datatype Pass = Pass(files: seq<UploadFile>, calls: seq<Call>, err: Option<Error>)

  /** A step that is switched off: nothing is called and nothing changes. */
  function Skipped(files: seq<UploadFile>): Pass
  {
    Pass(files, [], None)
  }

  function Prefixed(c: seq<Call>, p: Pass): Pass
  {
    Pass(p.files, c + p.calls, p.err)
  }

  /** The error an inspector answer raises: its failure, or an answer that is not an object. */
  function InspectError(a: Reply): Option<Error>
  {
    match a
    case Fail(reason) => Some(External(reason))
    case Done => Some(NotAnObject)
    case Image(_) => None
  }

  /**
   * The error a call raises with answer `a`: an inspection's by `InspectError`,
   * any other call's by its failure.
   */
  function Raised(c: Call, a: Reply): Option<Error>
  {
    if c.Inspect? then InspectError(a)
    else match a
      case Fail(reason) => Some(External(reason))
      case _ => None
  }

  /** A file with an inspection result stored: `orig_info` before resizing, `info` after. */
  function WithInfo(f: UploadFile, original: bool, d: ImageInfo): UploadFile
  {
    if original then f.(origInfo := Some(d)) else f.(info := Some(d))
  }

  /**
   * Inspecting `files[i..]` one after another, the first call getting
   * `oracle(at)`; the first failure stops the step.
   */
  function InspectFrom(files: seq<UploadFile>, i: nat, original: bool, at: nat, oracle: Oracle): (p: Pass)
    requires i <= |files|
    decreases |files| - i
    ensures |p.files| == |files| && |p.calls| <= |files| - i
    ensures p.err.None? ==> |p.calls| == |files| - i
    // the step fails with the error of its last call's answer
    ensures p.err.Some? ==> |p.calls| >= 1 && p.err == InspectError(oracle(at + |p.calls| - 1))
    ensures p.err.Some? ==> p.calls[|p.calls| - 1].Inspect?
  {
    if i == |files| then Skipped(files)
    else
      var call := Inspect(files[i].path);
      match oracle(at)
      case Image(d) =>
        Prefixed([call], InspectFrom(files[i := WithInfo(files[i], original, d)], i + 1, original, at + 1, oracle))
      case _ => Pass(files, [call], InspectError(oracle(at)))
  }

  /** Every answer before the last was image metadata: the first other answer stops the inspections. */
  lemma {:induction false} InspectStops(files: seq<UploadFile>, i: nat, original: bool, at: nat, oracle: Oracle)
    requires i <= |files|
    decreases |files| - i
    ensures StopsAt(InspectFrom(files, i, original, at, oracle).calls, at, InspectFrom(files, i, original, at, oracle).err.Some?, oracle)
  {
    if i < |files| {
      InspectUnfold(files, i, original, at, oracle);
      if oracle(at).Image? {
        var f := files[i := WithInfo(files[i], original, oracle(at).info)];
        InspectStops(f, i + 1, original, at + 1, oracle);
        AcceptedOne(Inspect(files[i].path), at, oracle);
        var rest := InspectFrom(f, i + 1, original, at + 1, oracle);
        JoinSteps([Inspect(files[i].path)], rest.calls, at, rest.err.Some?, oracle);
      } else {
        RefusedOne(Inspect(files[i].path), at, oracle);
      }
    }
  }

  /** One step of the inspections: the call for `files[i]`, then, on image metadata, the rest. */
  lemma InspectUnfold(files: seq<UploadFile>, i: nat, original: bool, at: nat, oracle: Oracle)
    requires i < |files|
    ensures oracle(at).Image? ==>
      var rest := InspectFrom(files[i := WithInfo(files[i], original, oracle(at).info)], i + 1, original, at + 1, oracle);
      && InspectFrom(files, i, original, at, oracle).calls == [Inspect(files[i].path)] + rest.calls
      && InspectFrom(files, i, original, at, oracle).err == rest.err
    ensures !oracle(at).Image? ==>
      InspectFrom(files, i, original, at, oracle).calls == [Inspect(files[i].path)]
      && InspectFrom(files, i, original, at, oracle).err.Some?
  {
  }

  /** The calls of `p` inspect `files[i..]` in file order, one call per file. */
  predicate InspectsInOrder(files: seq<UploadFile>, i: nat, p: Pass)
  {
    forall j :: 0 <= j < |p.calls| ==> i + j < |files| && p.calls[j] == Inspect(files[i + j].path)
  }

  /** The inspections are made in file order, one per file, and nothing else is called. */
  lemma {:induction false} InspectionOrder(files: seq<UploadFile>, i: nat, original: bool, at: nat, oracle: Oracle)
    requires i <= |files|
    decreases |files| - i
    ensures InspectsInOrder(files, i, InspectFrom(files, i, original, at, oracle))
  {
    if i < |files| && oracle(at).Image? {
      var f := files[i := WithInfo(files[i], original, oracle(at).info)];
      InspectionOrder(f, i + 1, original, at + 1, oracle);
      var rest := InspectFrom(f, i + 1, original, at + 1, oracle);
      var p := InspectFrom(files, i, original, at, oracle);
      assert p == Prefixed([Inspect(files[i].path)], rest);
      forall j | 0 <= j < |p.calls| ensures i + j < |files| && p.calls[j] == Inspect(files[i + j].path) {
        if j > 0 {
          assert p.calls[j] == rest.calls[j - 1];
          assert f[(i + 1) + (j - 1)] == files[i + j];
        }
      }
    }
  }

  /** `after` is `before` with the image metadata of answer `a` stored in it. */
  predicate Stored(before: UploadFile, after: UploadFile, original: bool, a: Reply)
  {
    a.Image? && after == WithInfo(before, original, a.info)
  }

  /** Each of `files[i..]` holds its own answer in `result`; the files before `i` are as they were. */
  predicate StoresAnswers(files: seq<UploadFile>, i: nat, original: bool, at: nat, oracle: Oracle, result: seq<UploadFile>)
  {
    && |result| == |files|
    && (forall k :: 0 <= k < i && k < |files| ==> result[k] == files[k])
    && (forall k :: i <= k < |files| ==> Stored(files[k], result[k], original, oracle(at + (k - i))))
  }

  /**
   * After a successful inspection step every file from `i` on holds its own
   * answer (in `orig_info` or `info`), and the files before `i` are untouched.
   */
  lemma {:induction false} InspectionStores(files: seq<UploadFile>, i: nat, original: bool, at: nat, oracle: Oracle)
    requires i <= |files|
    decreases |files| - i
    ensures InspectFrom(files, i, original, at, oracle).err.None? ==>
      StoresAnswers(files, i, original, at, oracle, InspectFrom(files, i, original, at, oracle).files)
  {
    if i < |files| && oracle(at).Image? {
      var f := files[i := WithInfo(files[i], original, oracle(at).info)];
      InspectionStores(f, i + 1, original, at + 1, oracle);
      var rest := InspectFrom(f, i + 1, original, at + 1, oracle);
      var p := InspectFrom(files, i, original, at, oracle);
      assert p == Prefixed([Inspect(files[i].path)], rest);
      if p.err.None? {
        forall k | 0 <= k < i ensures p.files[k] == files[k] {
          assert rest.files[k] == f[k];
        }
        forall k | i <= k < |files|
          ensures Stored(files[k], p.files[k], original, oracle(at + (k - i)))
        {
          if k == i {
            assert rest.files[i] == f[i];
          } else {
            assert at + (k - i) == (at + 1) + (k - (i + 1));
            assert f[k] == files[k];
          }
        }
      }
    }
  }

  /** A file whose `path_orig` has been set, as done just before it is moved. */
  function Moved(f: UploadFile): UploadFile
  {
    f.(pathOrig := Some(OrigPath(f.path)))
  }

  /**
   * Resizing `files[i..]` one after another: each file is moved to its
   * `.orig` path and resized from there back onto its own path.
   */
  function ResizeFrom(files: seq<UploadFile>, i: nat, spec: ResizeSpec, at: nat, oracle: Oracle): (p: Pass)
    requires i <= |files|
    decreases |files| - i
    ensures |p.files| == |files| && |p.calls| <= 2 * (|files| - i)
    ensures p.err.None? ==> |p.calls| == 2 * (|files| - i)
    // the step fails with the failure its last call got
    ensures p.err.Some? ==> |p.calls| >= 1 && oracle(at + |p.calls| - 1).Fail?
    ensures p.err.Some? ==> p.err == Some(External(oracle(at + |p.calls| - 1).reason))
    ensures p.err.Some? ==> !p.calls[|p.calls| - 1].Inspect?
  {
    if i == |files| then Skipped(files)
    else
      var f := files[i];
      var rename := Rename(f.path, OrigPath(f.path));
      var moved := files[i := Moved(f)];
      if oracle(at).Fail? then Pass(moved, [rename], Some(External(oracle(at).reason)))
      else
        var resize := Resize(ResizeOptionsFor(f, spec));
        if oracle(at + 1).Fail? then Pass(moved, [rename, resize], Some(External(oracle(at + 1).reason)))
        else Prefixed([rename, resize], ResizeFrom(moved, i + 1, spec, at + 2, oracle))
  }

  /** Every move and resize before the last was accepted: the first failure stops the resize step. */
  lemma {:induction false} ResizeStops(files: seq<UploadFile>, i: nat, spec: ResizeSpec, at: nat, oracle: Oracle)
    requires i <= |files|
    decreases |files| - i
    ensures StopsAt(ResizeFrom(files, i, spec, at, oracle).calls, at, ResizeFrom(files, i, spec, at, oracle).err.Some?, oracle)
  {
    if i < |files| {
      var rename := Rename(files[i].path, OrigPath(files[i].path));
      var resize := Resize(ResizeOptionsFor(files[i], spec));
      var moved := files[i := Moved(files[i])];
      ResizeUnfold(files, i, spec, at, oracle);
      if oracle(at).Fail? {
        RefusedOne(rename, at, oracle);
      } else if oracle(at + 1).Fail? {
        TwoCalls(rename, resize, at, oracle);
      } else {
        ResizeStops(moved, i + 1, spec, at + 2, oracle);
        TwoCalls(rename, resize, at, oracle);
        var rest := ResizeFrom(moved, i + 1, spec, at + 2, oracle);
        JoinSteps([rename, resize], rest.calls, at, rest.err.Some?, oracle);
      }
    }
  }

  /** One step of resizing: the move and the resize of `files[i]`, then, if both were accepted, the rest. */
  lemma ResizeUnfold(files: seq<UploadFile>, i: nat, spec: ResizeSpec, at: nat, oracle: Oracle)
    requires i < |files|
    ensures var calls := ResizeFrom(files, i, spec, at, oracle).calls;
      var rename := Rename(files[i].path, OrigPath(files[i].path));
      var resize := Resize(ResizeOptionsFor(files[i], spec));
      var rest := ResizeFrom(files[i := Moved(files[i])], i + 1, spec, at + 2, oracle);
      && (oracle(at).Fail? ==> calls == [rename] && ResizeFrom(files, i, spec, at, oracle).err.Some?)
      && (!oracle(at).Fail? && oracle(at + 1).Fail? ==>
            calls == [rename, resize] && ResizeFrom(files, i, spec, at, oracle).err.Some?)
      && (!oracle(at).Fail? && !oracle(at + 1).Fail? ==>
            calls == [rename, resize] + rest.calls && ResizeFrom(files, i, spec, at, oracle).err == rest.err)
  {
  }

  /** From position `n` of `calls` on: the move of `f` to its `.orig` path, then its resize. */
  predicate ResizedAt(f: UploadFile, spec: ResizeSpec, calls: seq<Call>, n: nat)
  {
    && (n < |calls| ==> calls[n] == Rename(f.path, OrigPath(f.path)))
    && (n + 1 < |calls| ==> calls[n + 1] == Resize(ResizeOptionsFor(f, spec)))
  }

  /** The calls of `p` move and then resize `files[i..]`, file by file in order. */
  predicate ResizesInOrder(files: seq<UploadFile>, i: nat, spec: ResizeSpec, p: Pass)
  {
    forall k :: i <= k < |files| ==> ResizedAt(files[k], spec, p.calls, 2 * (k - i))
  }

  /** Resizing `files[i]` before the files of `rest` keeps the file order. */
  lemma ResizesShift(files: seq<UploadFile>, moved: seq<UploadFile>, i: nat, spec: ResizeSpec, rest: Pass, p: Pass)
    requires i < |files| == |moved| && moved == files[i := Moved(files[i])]
    requires ResizesInOrder(moved, i + 1, spec, rest)
    requires p.calls == [Rename(files[i].path, OrigPath(files[i].path)), Resize(ResizeOptionsFor(files[i], spec))] + rest.calls
    ensures ResizesInOrder(files, i, spec, p)
  {
    forall k | i < k < |files| ensures ResizedAt(files[k], spec, p.calls, 2 * (k - i)) {
      assert moved[k] == files[k];
      assert ResizedAt(files[k], spec, rest.calls, 2 * (k - (i + 1)));
      assert 2 * (k - i) == 2 * (k - (i + 1)) + 2;
    }
  }

  /**
   * File by file, in order: the move of the file to its `.orig` path, then
   * the resize from that copy back onto the file's path.
   */
  lemma {:induction false} ResizeOrder(files: seq<UploadFile>, i: nat, spec: ResizeSpec, at: nat, oracle: Oracle)
    requires i <= |files|
    decreases |files| - i
    ensures ResizesInOrder(files, i, spec, ResizeFrom(files, i, spec, at, oracle))
  {
    if i < |files| {
      var rename := Rename(files[i].path, OrigPath(files[i].path));
      var resize := Resize(ResizeOptionsFor(files[i], spec));
      var p := ResizeFrom(files, i, spec, at, oracle);
      if oracle(at).Fail? {
        assert p.calls == [rename];
      } else if oracle(at + 1).Fail? {
        assert p.calls == [rename, resize];
      } else {
        var moved := files[i := Moved(files[i])];
        ResizeOrder(moved, i + 1, spec, at + 2, oracle);
        ResizesShift(files, moved, i, spec, ResizeFrom(moved, i + 1, spec, at + 2, oracle), p);
      }
    }
  }

  /** A successful resize step has set `path_orig` on every file from `i` on, and changed nothing else. */
  lemma {:induction false} ResizeMoves(files: seq<UploadFile>, i: nat, spec: ResizeSpec, at: nat, oracle: Oracle)
    requires i <= |files|
    decreases |files| - i
    ensures ResizeFrom(files, i, spec, at, oracle).err.None? ==>
      forall k :: 0 <= k < |files| ==>
        ResizeFrom(files, i, spec, at, oracle).files[k] == if k < i then files[k] else Moved(files[k])
  {
    if i < |files| && !oracle(at).Fail? && !oracle(at + 1).Fail? {
      ResizeMoves(files[i := Moved(files[i])], i + 1, spec, at + 2, oracle);
    }
  }

  /** The attachment created for a file under the record `id`. */
  function AttachmentOf(id: string, f: UploadFile): Attachment
  {
    Attachment(id, f.path, MetaOf(f))
  }

  /** The attachments of all `files` under the record `id`, in file order. */
  function AttachmentsOf(id: string, files: seq<UploadFile>): (r: seq<Attachment>)
    ensures |r| == |files|
    ensures forall k :: 0 <= k < |files| ==> r[k].recordId == id && r[k].meta == MetaOf(files[k])
  {
    seq(|files|, k requires 0 <= k < |files| => AttachmentOf(id, files[k]))
  }

  /** The attachments created so far, the calls made, and the error that stopped attaching. */
  datatype Attaching = Attaching(attachments: seq<Attachment>, calls: seq<Call>, err: Option<Error>)

  /** Creating the attachments of `files[i..]` one after another. */
  function AttachFrom(files: seq<UploadFile>, i: nat, id: string, at: nat, oracle: Oracle): (a: Attaching)
    requires i <= |files|
    decreases |files| - i
    ensures |a.calls| <= |files| - i
    ensures a.err.None? ==> |a.calls| == |files| - i && |a.attachments| == |a.calls|
    // a failure stops attaching: the failing file has no attachment and its error is the one reported
    ensures a.err.Some? ==> |a.calls| >= 1 && |a.attachments| == |a.calls| - 1
    ensures a.err.Some? ==> oracle(at + |a.calls| - 1).Fail?
    ensures a.err.Some? ==> a.err == Some(External(oracle(at + |a.calls| - 1).reason))
  {
    if i == |files| then Attaching([], [], None)
    else
      var att := AttachmentOf(id, files[i]);
      if oracle(at).Fail? then Attaching([], [CreateAttachment(att)], Some(External(oracle(at).reason)))
      else
        var rest := AttachFrom(files, i + 1, id, at + 1, oracle);
        Attaching([att] + rest.attachments, [CreateAttachment(att)] + rest.calls, rest.err)
  }

  /** Every attachment before the last was accepted: the first refusal stops attaching. */
  lemma {:induction false} AttachStops(files: seq<UploadFile>, i: nat, id: string, at: nat, oracle: Oracle)
    requires i <= |files|
    decreases |files| - i
    ensures StopsAt(AttachFrom(files, i, id, at, oracle).calls, at, AttachFrom(files, i, id, at, oracle).err.Some?, oracle)
  {
    if i < |files| {
      var create := CreateAttachment(AttachmentOf(id, files[i]));
      AttachUnfold(files, i, id, at, oracle);
      if oracle(at).Fail? {
        RefusedOne(create, at, oracle);
      } else {
        AttachStops(files, i + 1, id, at + 1, oracle);
        AcceptedOne(create, at, oracle);
        var rest := AttachFrom(files, i + 1, id, at + 1, oracle);
        JoinSteps([create], rest.calls, at, rest.err.Some?, oracle);
      }
    }
  }

  /** One step of attaching: the call for `files[i]`, then, if it was accepted, the rest. */
  lemma AttachUnfold(files: seq<UploadFile>, i: nat, id: string, at: nat, oracle: Oracle)
    requires i < |files|
    ensures var create := CreateAttachment(AttachmentOf(id, files[i]));
      var rest := AttachFrom(files, i + 1, id, at + 1, oracle);
      && (oracle(at).Fail? ==> AttachFrom(files, i, id, at, oracle).calls == [create] && AttachFrom(files, i, id, at, oracle).err.Some?)
      && (!oracle(at).Fail? ==>
            AttachFrom(files, i, id, at, oracle).calls == [create] + rest.calls && AttachFrom(files, i, id, at, oracle).err == rest.err)
  {
  }

  /** The calls of `a` create the attachments of `files[i..]`, in file order, under the record `id`. */
  predicate AttachCallsInOrder(files: seq<UploadFile>, i: nat, id: string, a: Attaching)
  {
    forall j :: 0 <= j < |a.calls| && i + j < |files| ==>
      a.calls[j] == CreateAttachment(AttachmentOf(id, files[i + j]))
  }

  /** The attachments of `a` are those of `files[i..]`, in file order, under the record `id`. */
  predicate AttachmentsInOrder(files: seq<UploadFile>, i: nat, id: string, a: Attaching)
  {
    forall j :: 0 <= j < |a.attachments| && i + j < |files| ==>
      a.attachments[j] == AttachmentOf(id, files[i + j])
  }

  /** Creating the attachment of `files[i]` before those of `rest` keeps the file order. */
  lemma AttachCallsShift(files: seq<UploadFile>, i: nat, id: string, rest: Attaching, a: Attaching)
    requires i < |files| && AttachCallsInOrder(files, i + 1, id, rest)
    requires a.calls == [CreateAttachment(AttachmentOf(id, files[i]))] + rest.calls
    ensures AttachCallsInOrder(files, i, id, a)
  {
    forall j | 1 <= j < |a.calls| && i + j < |files|
      ensures a.calls[j] == CreateAttachment(AttachmentOf(id, files[i + j]))
    {
      assert a.calls[j] == rest.calls[j - 1];
      assert (i + 1) + (j - 1) == i + j;
    }
  }

  /** Attachments are requested in file order, each under the record `id`. */
  lemma {:induction false} AttachCallOrder(files: seq<UploadFile>, i: nat, id: string, at: nat, oracle: Oracle)
    requires i <= |files|
    decreases |files| - i
    ensures AttachCallsInOrder(files, i, id, AttachFrom(files, i, id, at, oracle))
  {
    if i < |files| {
      var a := AttachFrom(files, i, id, at, oracle);
      if oracle(at).Fail? {
        assert a.calls == [CreateAttachment(AttachmentOf(id, files[i]))];
      } else {
        AttachCallOrder(files, i + 1, id, at + 1, oracle);
        AttachCallsShift(files, i, id, AttachFrom(files, i + 1, id, at + 1, oracle), a);
      }
    }
  }

  /** Keeping the attachment of `files[i]` before those of `rest` keeps the file order. */
  lemma AttachmentsShift(files: seq<UploadFile>, i: nat, id: string, rest: Attaching, a: Attaching)
    requires i < |files| && AttachmentsInOrder(files, i + 1, id, rest)
    requires a.attachments == [AttachmentOf(id, files[i])] + rest.attachments
    ensures AttachmentsInOrder(files, i, id, a)
  {
    forall j | 1 <= j < |a.attachments| && i + j < |files|
      ensures a.attachments[j] == AttachmentOf(id, files[i + j])
    {
      assert a.attachments[j] == rest.attachments[j - 1];
      assert (i + 1) + (j - 1) == i + j;
    }
  }

  /** An accepted attachment is kept in front of those of the following files. */
  lemma AttachKept(files: seq<UploadFile>, i: nat, id: string, at: nat, oracle: Oracle)
    requires i < |files| && !oracle(at).Fail?
    ensures AttachFrom(files, i, id, at, oracle).attachments
      == [AttachmentOf(id, files[i])] + AttachFrom(files, i + 1, id, at + 1, oracle).attachments
  {
  }

  /** Attachments are created in file order, each under the record `id`. */
  lemma {:induction false} AttachmentOrder(files: seq<UploadFile>, i: nat, id: string, at: nat, oracle: Oracle)
    requires i <= |files|
    decreases |files| - i
    ensures AttachmentsInOrder(files, i, id, AttachFrom(files, i, id, at, oracle))
  {
    if i < |files| && !oracle(at).Fail? {
      AttachmentOrder(files, i + 1, id, at + 1, oracle);
      AttachKept(files, i, id, at, oracle);
      AttachmentsShift(files, i, id, AttachFrom(files, i + 1, id, at + 1, oracle), AttachFrom(files, i, id, at, oracle));
    } else {
      AttachNone(files, i, id, at, oracle);
    }
  }

  /** With no file left, or the first attachment refused, nothing is kept. */
  lemma AttachNone(files: seq<UploadFile>, i: nat, id: string, at: nat, oracle: Oracle)
    requires i == |files| || (i < |files| && oracle(at).Fail?)
    ensures AttachFrom(files, i, id, at, oracle).attachments == []
  {
  }

  /** The transaction's final state, the calls made on it, and the request's outcome. */
  datatype Db = Db(store: StoreState, calls: seq<Call>, outcome: Outcome)

  /**
   * Rolling back after `err`: the rollback is the next call, and whatever it
   * answers, `err` is what the request fails with.
   */
  function Undo(s: StoreState, calls: seq<Call>, err: Error, oracle: Oracle): (db: Db)
    // the original error is reported, whether or not the rollback is accepted
    ensures db.outcome == Failed(err)
    ensures db.calls == calls + [Rollback]
    // only the rolled-back flag changes: it is set iff the rollback is accepted
    ensures db.store.record == s.record && db.store.attachments == s.attachments && db.store.committed == s.committed
    ensures db.store.rolledBack <==> !oracle(|calls|).Fail?
  {
    Db(s.(rolledBack := !oracle(|calls|).Fail?), calls + [Rollback], Failed(err))
  }

  /**
   * After the attachment step that made the calls `pre` and stopped with
   * `err`: roll back on that error, or commit and redirect, rolling back if
   * either fails.
   */
  function Conclude(s: StoreState, pre: seq<Call>, err: Option<Error>, id: string, oracle: Oracle): (db: Db)
    requires err.Some? ==> err.value.External?
    ensures db.outcome.Failed? ==> db.outcome.error.External?
    // the request redirects exactly when attaching, the commit and the redirect were all accepted
    ensures db.outcome.Redirected? <==> err.None? && !oracle(|pre|).Fail? && !oracle(|pre| + 1).Fail?
    // the transaction is committed exactly when the commit was issued and accepted
    ensures db.store.committed <==> s.committed || (err.None? && !oracle(|pre|).Fail?)
  {
    if err.Some? then Undo(s, pre, err.value, oracle)
    else if oracle(|pre|).Fail? then
      Undo(s, pre + [Commit], External(oracle(|pre|).reason), oracle)
    else if oracle(|pre| + 1).Fail? then
      Undo(s.(committed := true), pre + [Commit, Redirect(id)], External(oracle(|pre| + 1).reason), oracle)
    else Db(s.(committed := true), pre + [Commit, Redirect(id)], Redirected(id))
  }

  /**
   * The transactional part, after the calls `log`: create the record, attach
   * every file, commit, redirect. A failure of the record creation is not
   * rolled back; a failure of anything after it is.
   */
  function Persist(t: string, user: Option<string>, files: seq<UploadFile>, id: string, log: seq<Call>, oracle: Oracle): (db: Db)
    ensures |db.calls| > |log| && db.calls[..|log| + 1] == log + [CreateRecord(t, user)]
    // the store part only fails because a store or response call failed
    ensures db.outcome.Failed? ==> db.outcome.error.External?
  {
    var created := log + [CreateRecord(t, user)];
    if oracle(|log|).Fail? then Db(Opened, created, Failed(External(oracle(|log|).reason)))
    else
      var a := AttachFrom(files, 0, id, |created|, oracle);
      Conclude(Opened.(record := Some(Record(id, t, user)), attachments := a.attachments), created + a.calls, a.err, id, oracle)
  }

  /** The files with their decoder streams dropped, as done once the record exists. */
  function Released(files: seq<UploadFile>): (r: seq<UploadFile>)
    ensures |r| == |files|
    ensures forall k :: 0 <= k < |files| ==> r[k] == files[k].(stream := false)
  {
    seq(|files|, k requires 0 <= k < |files| => files[k].(stream := false))
  }

  /** The user stored on the record: the request's user id when it has a truthy one. */
  function Owner(user: Option<string>): (r: Option<string>)
    ensures r.Some? <==> Truthy(user)
    ensures r.Some? ==> r == user
  {
    if Truthy(user) then user else None
  }

  /** Everything one POST does: its files, its calls, the transaction (if one was opened) and its outcome. */
  datatype Report = Report(files: seq<UploadFile>, calls: seq<Call>, store: Option<StoreState>, outcome: Outcome)

  /**
   * The image steps before the store is touched: inspect the originals,
   * resize, re-inspect, each switched on by the settings and each stopped
   * by its first failure.
   */
  function Prepare(s: Settings, files: seq<UploadFile>, oracle: Oracle): (p: Pass)
    ensures |p.files| == |files|
    // an image step fails because an answer was a failure or not image metadata
    ensures p.err.Some? ==> p.err.value.External? || p.err.value == NotAnObject
    // the failing step reports the error its last call raised
    ensures p.err.Some? ==> |p.calls| >= 1 && p.err == Raised(p.calls[|p.calls| - 1], oracle(|p.calls| - 1))
  {
    var p1 := if ImageEnabled(s) then InspectFrom(files, 0, true, 0, oracle) else Skipped(files);
    if p1.err.Some? then p1
    else
      var p2 := Prefixed(p1.calls,
        if ResizeEnabled(s) then ResizeFrom(p1.files, 0, s.resize.value, |p1.calls|, oracle) else Skipped(p1.files));
      if p2.err.Some? then p2
      else
        Prefixed(p2.calls,
          if ImageEnabled(s) then InspectFrom(p2.files, 0, false, |p2.calls|, oracle) else Skipped(p2.files))
  }

  /** The POST handler on the decoded form, for settings already normalised. */
  function Run(s: Settings, user: Option<string>, fields: map<string, Field>, id: string, oracle: Oracle): (r: Report)
    requires IsNormalized(s)
    // the request fails for want of files exactly when neither field holds any
    ensures r.outcome == Failed(NoFiles) <==> Selected(fields) == []
    // a request that never opened the transaction has failed
    ensures r.store.None? ==> r.outcome.Failed?
    ensures |r.files| == |Selected(fields)|
    // a request that fails in the image steps reports the error its last call raised
    ensures r.store.None? && Selected(fields) != [] ==>
      |r.calls| >= 1 && r.outcome.Failed? && Raised(r.calls[|r.calls| - 1], oracle(|r.calls| - 1)) == Some(r.outcome.error)
  {
    var files := Selected(fields);
    if files == [] then Report(files, [], None, Failed(NoFiles))
    else
      var p := Prepare(s, files, oracle);
      if p.err.Some? then Report(p.files, p.calls, None, Failed(p.err.value))
      else
        var released := Released(p.files);
        var db := Persist(s.uploadType.value, Owner(user), released, id, p.calls, oracle);
        Report(if db.store.record.Some? then released else p.files, db.calls, Some(db.store), db.outcome)
  }
}
