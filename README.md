# nor-api-upload in Dafny

A model of the upload resource of `nor-api-upload` (`src/upload.js`), with
proofs about it. The resource is built by `upload_builder(opts)`. It
normalises its options and then serves five routes:

- `GET /upload` lists the signed-in user's uploads.
- `POST /upload` ingests files. It selects the uploaded files under the
  field names `image` and `background` and can inspect them with an image
  inspector. It can also move each file to `<path>.orig` and resize it back
  onto its own path, then inspect it again. It then creates an upload record
  in a document-store transaction and writes one attachment per file, in
  file order. Finally it commits and redirects to the new record. A failure
  after the record exists is rolled back, and the request fails with the
  original error whatever the rollback answers.
- `GET /upload/:uuid` shows one upload with a body reference for each of its
  attachments.
- `GET /upload/:uuid/attachments/:uuid2/body` serves the bytes of one
  attachment.
- `GET /upload/:uuid/attachments/first/body` serves the bytes of the
  earliest attachment.

Modules, leaf first:

- `Wrappers`: `Option`, `Result`.
- `Entities`: image info, the uploaded file, errors, and JavaScript
  truthiness of an optional string.
- `Options`: the options object. Normalisation is a function (`Normalized`)
  and also an in-place method on a class (`UploadOptions.Normalize`).
- `Selection`: the working set of a POST, and the loop that builds it.
- `Geometry`: the `.orig` path and the resize target. A missing dimension
  follows the original aspect ratio, rounded half up.
- `Metadata`: the content-type default and the metadata of an attachment.
- `Store`: the transaction as a class with a record, attachments and
  committed/rolled-back flags.
- `Pipeline`: the POST handler as functions.
  - Every call to a collaborator is appended to a call log. The k-th call
    gets the answer `oracle(k)`.
  - `InspectFrom`, `ResizeFrom`, `AttachFrom`, `Conclude` and `Persist`
    define each phase. `Run` defines the whole request.
- `PostProperties`: the guarantees of one POST, stated on `Run` and its
  phases.
- `Handler`: the POST handler as imperative code.
  - Each per-file step is a loop that updates the file it is at and stops
    at the first failure.
  - The store part drives a `Transaction` object.
  - Each method is proved equal to the function in `Pipeline` that
    specifies it.
- `Retrieval`: the four GET handlers over a snapshot of the store.

Behaviour of the code that is easy to misread:

- **Selection is a union.** It takes the files under `image` followed by
  those under `background`. Each entry counts only when it is an array.
  This is not the first name that matches.
- **No geometry error.** A missing or zero original dimension leaves the
  other target dimension absent, and no error is raised.
- **Re-inspection always runs with image features on.** When the resize
  step is skipped, `info` is still re-inspected; it is not copied from
  `orig_info`.
- **Rollback also runs after a failed redirect.** It then rolls back a
  transaction that is already committed. The record stays visible while
  the request reports the redirect's error (`RedirectFailureAfterCommit`).
- **An empty content type counts as missing.** The default is applied with
  `||`, so an empty header also becomes `application/octet-stream`.

## Model

| member | source | states |
|---|---|---|
| Options.Normalized | src/upload.js:43-63 | Normalised options: a falsy upload type becomes `"Upload"` and a truthy one is kept. Any `resize` object switches `image` on, even one that is then dropped. A `resize` survives unchanged exactly when it defines `w` or `h`. Without `resize`, `image` is untouched. |
| Options.NormalizedIdempotent | src/upload.js:43-63 | Normalising already normalised options changes nothing. |
| Options.UploadOptions.Normalize | src/upload.js:43-63 | The in-place rewrite leaves the options equal to `Normalized` of the old options, which are therefore normalised. |
| Selection.SelectedIsUnion | src/upload.js:96-105 | The working set is the `image` files followed by the `background` files. |
| Selection.SelectFiles | src/upload.js:96-107 | The loop appends every array-valued entry of the two names in order. It succeeds iff either list is non-empty, with exactly their concatenation; otherwise it fails with `NoFiles`. |
| Geometry.OrigPath | src/upload.js:143 | The `.orig` path extends the file's path and differs from it. |
| Geometry.RoundDivIsNearest | src/upload.js:154-158 | The integer rounding used for a derived dimension is the nearest integer to the quotient, with halves going up (as `Math.round` does for positive values). |
| Geometry.Target | src/upload.js:150-159 | Two given dimensions pass through unchanged. With only one given and a known non-zero original size, the other follows the original aspect ratio. With an unknown or zero original size nothing is derived and nothing fails. A given dimension is never altered. With neither given, both target dimensions are absent. |
| Geometry.ZeroIsAbsent | src/upload.js:150-151 | A zero `w` or `h` gives the same target as a missing one. |
| Geometry.ResizeOptionsFor | src/upload.js:145-159 | The resize call reads from the `.orig` copy, writes onto the file's own path, and targets exactly the `Target` dimensions. |
| Geometry.WidthOnlyExample | src/upload.js:157-158 | A 200x50 original resized to width 100 gets height 25. |
| Metadata.ContentTypeOr | src/upload.js:206 | A truthy content type is kept; a missing or empty one becomes `application/octet-stream`. |
| Metadata.ContentTypeNonEmpty | src/upload.js:206 | The defaulted content type is never empty. |
| Metadata.MetaOf | src/upload.js:204-209 | The metadata carries the original file name, the content type (the part's own when truthy, otherwise `application/octet-stream`) and the file itself. `info` is empty exactly when the file has no inspection result, and otherwise is that result. |
| Store.Transaction.Start | src/upload.js:189 | A new transaction holds nothing and is neither committed nor rolled back. |
| Store.Transaction.Create | src/upload.js:189-190 | An accepted creation sets the record and changes nothing else; a refused one changes nothing. |
| Store.Transaction.CreateAttachment | src/upload.js:211-213 | An accepted attachment is appended under the record; a refused one changes nothing. Every attachment stays under the record. |
| Store.Transaction.Commit | src/upload.js:216-218 | An accepted commit sets only the committed flag. |
| Store.Transaction.Rollback | src/upload.js:227 | An accepted rollback sets only the rolled-back flag; the contents stay as written. |
| Pipeline.InspectFrom | src/upload.js:117-129 | At most one call per file. A complete step makes exactly one call per file. A failed step fails with the error of its last call's answer: the inspector's failure, or `NotAnObject` for an answer that is not image metadata. That last call is an inspection. |
| Pipeline.InspectStops | src/upload.js:122-129 | An inspection is refused (its answer is not image metadata) iff the step failed and it is the step's last call: the first refusal stops the step. |
| Pipeline.InspectionOrder | src/upload.js:118-129 | The inspections are of the files' paths in file order, and nothing else is called. |
| Pipeline.InspectionStores | src/upload.js:123-126 | After a complete step each file holds its own answer in `orig_info` (or `info`); files before the start are untouched. |
| Pipeline.ResizeFrom | src/upload.js:136-166 | At most two calls per file, exactly two when complete. A failure is that of the last call, a move or a resize, never an inspection. |
| Pipeline.ResizeStops | src/upload.js:142-166 | A move or resize fails iff the step failed and it is the step's last call: the first failure stops the step. |
| Pipeline.ResizeOrder | src/upload.js:142-166 | File by file in order: the move to the `.orig` path, then the resize from that copy back onto the file's path. |
| Pipeline.ResizeMoves | src/upload.js:143 | After a complete step every file has `path_orig` set to its `.orig` path, and nothing else about it changed. |
| Pipeline.AttachFrom | src/upload.js:196-214 | At most one call per file. A failed step's last call was refused; its attachment is not kept, and its error is the one reported. A complete step keeps one attachment per file. |
| Pipeline.AttachStops | src/upload.js:196-214 | An attachment is refused iff the step failed and it is the step's last call: the first refusal stops attaching. |
| Pipeline.AttachCallOrder | src/upload.js:196-213 | Attachments are requested in file order, each under the new record. |
| Pipeline.AttachmentOrder | src/upload.js:196-213 | The attachments kept are those of the first files, in file order. |
| Pipeline.Conclude | src/upload.js:214-232 | After attaching, the request fails only with a collaborator's error. It redirects iff attaching succeeded and the commit and the redirect were both accepted. The transaction is committed iff the commit was issued and accepted, so a refused commit leaves it uncommitted and the request failed. |
| Pipeline.Persist | src/upload.js:186-233 | The store part starts with the record creation after the image steps' calls, and fails only with a collaborator's error. |
| Pipeline.Undo | src/upload.js:225-232 | The rollback is the next call. The request fails with the original error whether or not the rollback is accepted. Only the rolled-back flag changes, and it is set iff the rollback is accepted. |
| Pipeline.Released | src/upload.js:200-202 | One entry per file, each the same file with its decoder stream dropped. |
| Pipeline.Owner | src/upload.js:109-112 | The record gets an owner iff the request's user id is truthy, and then it is that id. |
| Pipeline.Prepare | src/upload.js:114-184 | The image steps keep one entry per file, and fail only with a collaborator's error or `NotAnObject`. A failure is the error the last call raised: `InspectError` of an inspection's answer, or the failure of a move or resize. |
| PostProperties.PrepareStops | src/upload.js:114-184 | Across the three image steps, a call is refused iff the image steps failed and it is their last call: a failed step is followed by no call of a later step. |
| PostProperties.AttachCallsOnly | src/upload.js:211-213 | The attachment step calls nothing but attachment creation. |
| PostProperties.AttachedPrefix | src/upload.js:196-214 | The attachments written are those of a prefix of the files, in order; after a complete step they are those of all files. |
| PostProperties.ConcludeKeepsContents | src/upload.js:214-232 | Committing, redirecting and rolling back keep the record and attachments. Commit is issued only after an error-free attachment step, and nothing is committed without it. Only store and response calls are added. |
| PostProperties.ConcludeOutcome | src/upload.js:225-232 | After attaching, a rollback is issued iff the request fails. It comes right after the failed call, and the request fails with that call's error whatever the rollback answers. A redirect follows a commit and nothing else. |
| PostProperties.ConcludeRollsBack | src/upload.js:225-232 | With the record created, a rollback after attaching is issued iff the request fails. It comes last, right after the failed call, and the request reports that call's error. |
| PostProperties.ConcludeRedirects | src/upload.js:214-222 | A redirect happens only after an error-free attachment step, as commit then redirect, with no rollback. |
| PostProperties.AttachedValid | src/upload.js:196-213 | The transaction only holds attachments of its own record. |
| PostProperties.AttachStep | src/upload.js:189-214 | After an accepted record creation, attaching issues no commit or rollback, and the rest of the request is `Conclude` of what was attached. |
| PostProperties.PersistRecord | src/upload.js:189-193 | The record exists iff its creation was accepted, with the request's id, type and owner. A refused creation ends the request with its own error, no rollback and nothing else called. |
| PostProperties.PersistDelivers | src/upload.js:214-222 | A redirect means the record and every file's attachment were committed, with no rollback and commit then redirect as the last calls. Every call of the store part, the record creation, each attachment and the commit included, was accepted. |
| PostProperties.RedirectFailureAfterCommit | src/upload.js:189-232 | For any files and any log: when the record, every attachment and the commit are accepted but the redirect fails, the calls end with commit, redirect, rollback. The record is committed and visible with every file's attachment, while the request reports the redirect's error. |
| PostProperties.PersistRollsBack | src/upload.js:191-233 | A rollback is issued iff the record exists and the request fails. It is the last call, and the reported error is that of the call before it. |
| PostProperties.PersistCommits | src/upload.js:196-218 | Commit is issued only once every file's attachment is written; nothing is committed otherwise. |
| PostProperties.PersistCallsStore | src/upload.js:186-233 | The store part adds only store and response calls. |
| PostProperties.InspectCalls | src/upload.js:117-129 | An inspection step calls only the inspector. |
| PostProperties.ResizeCalls | src/upload.js:136-166 | A resize step calls only the file system move and the resizer. |
| PostProperties.InspectTouchesInfo | src/upload.js:123-127 | An inspection step, even a failed one, changes nothing but the field it writes. |
| PostProperties.ResizeTouchesOrig | src/upload.js:142-148 | A resize step, even a failed one, changes nothing but `path_orig`. |
| PostProperties.PrepareCalls | src/upload.js:114-184 | The image steps call only the inspector, the mover and the resizer. With `image` off nothing is inspected, and without a resize target nothing is moved or resized. |
| PostProperties.PrepareKeepsUploads | src/upload.js:114-184 | The image steps keep each file's path, name, content type and stream. |
| PostProperties.PrepareOriginals | src/upload.js:117-129 | After complete image steps each file's `orig_info` is the answer of its own first inspection. |
| PostProperties.LaterReinspects | src/upload.js:172-184 | After resizing, each file's `info` is the answer of its own re-inspection. |
| PostProperties.PrepareReinspects | src/upload.js:172-184 | Each file's `info` is the answer of its re-inspection. That inspection comes after one inspection per file and, with resizing, two more calls per file. |
| PostProperties.PrepareMoves | src/upload.js:136-148 | With a resize target, each file records its `.orig` path after complete image steps. |
| Pipeline.Run | src/upload.js:87-235 | The request fails with `NoFiles` iff neither field holds a file. A request that never opens the transaction has failed. It reports one entry per selected file. A request that fails in the image steps reports the error its last call raised. Its failure, rollback and redirect guarantees are `RunStops`, `RunRollsBack` and `RunDelivers`. |
| PostProperties.RunSelects | src/upload.js:96-107 | An empty selection fails with `NoFiles` before anything is called, and only then. Otherwise the files are the selected ones in order. Their decoder streams are dropped exactly when the record was created. |
| PostProperties.RunBeforeStore | src/upload.js:114-190 | Without an opened transaction the request failed and called only the image steps. With one, the record creation was called. |
| PostProperties.RunDelivers | src/upload.js:114-222 | A redirect goes to the new record after every selected file was attached and committed, with no rollback. Every call of the request, image steps included, was accepted. |
| PostProperties.ConcludeStops | src/upload.js:214-232 | After attaching, a call other than the rollback is refused iff the request failed and it is the call that caused the failure. A request that fails while committed failed on its redirect. |
| PostProperties.PersistStops | src/upload.js:186-233 | From the record creation on, a call other than the rollback is refused iff the request failed and it is the call that caused the failure: the last call, or the one just before the rollback. A request that fails while committed failed on its redirect. |
| PostProperties.RunStops | src/upload.js:114-233 | Over the whole request, a call other than the rollback is refused iff the request failed and it caused the failure. So any refused call fails the request, and nothing but the rollback follows it. A request that fails while committed failed on its redirect. |
| PostProperties.RunCommitsOnlyAccepted | src/upload.js:114-222 | A committed upload had every call before its redirect accepted. A refused image step, record creation, attachment or commit leaves nothing committed. |
| PostProperties.RunRollsBack | src/upload.js:225-232 | A rollback is issued iff the record exists and the request fails. It is last, and the request fails with the error that caused it. |
| PostProperties.RunCommitsWhole | src/upload.js:189-218 | The transaction holds only its own record's attachments. Anything visible to readers is this request's record with every file attached, after a commit. |
| PostProperties.RunImageCalls | src/upload.js:117-184 | Inspections happen only with `image` on; moves and resizes only with a resize target. |
| PostProperties.RunCarriesPrepared | src/upload.js:186-202 | A request that reaches the store carries its prepared files, apart from their streams. |
| PostProperties.RunInspections | src/upload.js:117-184 | A request that reaches the store with `image` on carries each file's own first and second inspection results. |
| PostProperties.RunMoves | src/upload.js:143 | A request that reaches the store with a resize target carries each file's `.orig` path. |
| PostProperties.RunWithoutImages | src/upload.js:114-202 | With `image` off the files reach the store as selected, their streams dropped once the record exists. |
| Handler.InspectFiles | src/upload.js:117-129 | The inspection loop computes exactly `InspectFrom`: same files, calls and error. |
| Handler.ResizeFiles | src/upload.js:136-166 | The move-and-resize loop computes exactly `ResizeFrom`. |
| Handler.Abort | src/upload.js:225-232 | Rolling back leaves the transaction and outcome of `Undo`: the original error whatever the rollback answers. |
| Handler.AttachFiles | src/upload.js:196-214 | The attachment loop writes into the transaction exactly the attachments of `AttachFrom`, makes its calls and stops with its error. |
| Handler.Complete | src/upload.js:214-232 | Commit, redirect and rollback leave the transaction and outcome of `Conclude`. |
| Handler.PersistFiles | src/upload.js:186-233 | The store part leaves the transaction, calls and outcome of `Persist` on the released files. The files are released exactly when the record was created. |
| Handler.ReleaseStreams | src/upload.js:196-202 | Every file loses its decoder stream and nothing else changes. |
| Handler.PrepareFiles | src/upload.js:114-184 | The image steps compute exactly `Prepare`. |
| Handler.Post | src/upload.js:87-235 | The handler's files, calls, transaction and outcome are those of `Run`; a transaction it opens is a new object. |
| Retrieval.List | src/upload.js:71-84 | Without a truthy user id it fails with `NoUserData`. Otherwise it returns exactly the uploads of the configured type owned by that user. |
| Retrieval.Single | src/upload.js:249-253 | Lookup by id succeeds iff exactly one upload of the type has that id, and returns that one match. Otherwise it fails with the number of matches. |
| Retrieval.Show | src/upload.js:246-287 | It fails with the count unless exactly one upload matches, and with `NoAttachments` when it has none. Otherwise it returns the one matching upload, of type `t` and with that id. View k is `ViewOf` attachment k of that upload, so there is one view per attachment, in stored order, and at least one. |
| Retrieval.BuildViews | src/upload.js:259-276 | The loop appends one view per attachment, in order. Each view holds a body reference and the defaulted content type. |
| Retrieval.ShowUpload | src/upload.js:246-287 | The handler returns exactly `Show`. |
| Retrieval.Serve | src/upload.js:328-337 | The body is the stored bytes. The content type is the stored one when truthy, and `application/octet-stream` when it is missing or empty. |
| Retrieval.Body | src/upload.js:297-341 | It succeeds iff exactly one upload and exactly one attachment of it with that id match, serving that attachment. Otherwise it fails with the count that was not one. |
| Retrieval.OldestIsEarliest | src/upload.js:359-362 | Ordering by creation time and taking one yields an attachment iff there is one, and none is earlier. |
| Retrieval.FirstOf | src/upload.js:359-362 | The limited query yields at most one attachment, and one iff the upload has any. That one belongs to the upload and was created no later than any other. |
| Retrieval.FirstBody | src/upload.js:344-379 | A lookup that does not find exactly one upload fails with the number it found. Whatever is served is the body of one of that upload's attachments. `FirstBodyEarliest` adds that it is an earliest one, and when it is served. |
| Retrieval.FirstBodyEarliest | src/upload.js:344-379 | It serves iff exactly one upload matches and it has an attachment, and then serves one no later than any other. Otherwise it fails with the upload count, or with count 0. |
| Retrieval.ReferencesResolve | src/upload.js:263-266 | With attachment ids unique within the upload, every body reference of a shown upload resolves through the body route to that attachment's bytes, with the content type the view announced. |
| Retrieval.ServesUploadedType | src/upload.js:332 | An attachment written by POST is served with the part's own content type, or the generic binary type when it had none. |

## Left out

- The multipart decoder (`src/multiparty.js`) is not part of this model. Its result is an input: a map from field name to an array of files, or to something else.
- Document-store internals: SQL, connections, `fetch` and `getBuffer` are not modelled. A transaction is the `Transaction` class, and whether each operation is accepted comes from the oracle. The new record's id and the attachments' creation times are inputs. Reads are filters over a snapshot of rows and attachments.
- `easyimage.info`, `easyimage.resize` and `fs.rename` are foreign I/O. They become oracle answers: a failure, an object with width and height, or an answer that is not an object.
- HTTP plumbing is not modelled: `res.redirect`, `writeHead`, `write`, `end`, status codes and thrown messages. The redirect is a call that can fail, and a served body is a content type plus bytes.
- `ref(...)` URL building is not modelled; a body reference is kept as its path segments.
- The `opts.views` formatters are not modelled; a shown attachment is its view value.
- Promise mechanics (`$Q.fcall`, `.reduce($Q.when, $Q())`) become plain sequential loops that stop at the first error.
- A listing error thrown synchronously and a rejected promise are the same `Failure`.
- `Math.round` on floating point is not modelled. Sizes are naturals, and rounding is integer round-half-up. Negative, fractional or NaN sizes and inspector dimensions are not represented.
- `debug.assert` type checks (options, paths, `item`, `buffer`) become Dafny types. The asserts that can fail on data are modelled as errors: the inspector's object check (`NotAnObject`), the non-empty working set (`NoFiles`), and the single-record and at-least-one-attachment checks of `GET /upload/:uuid` (`WrongCount`, `NoAttachments`).
- `NoPg.start(opts.pg)` and `.create(opts.upload_type)` (`src/upload.js:189-190`) are one `CreateRecord` call. Starting the transaction cannot fail in the model. A failed start and a failed creation end the request the same way: with that error, no rollback and nothing else called.
- Logging (`debug.log`, `debug.error`) is not modelled, including the logged rollback error.
- Option normalisation does not model the defaulting of `opts.views`, the `opts.pg` string, or the `copy` of `resize`. `UploadOptions` has no aliasing to observe.
- File objects are values, not shared references. `meta.original` is a copy of the file at the moment its metadata is built. All metadata is built after the streams are dropped and before any attachment is written, so the copy agrees with the shared object.
- The write stream `ws` is a flag; it carries no stream object.
- `Retrieval.FirstBodyEarliest`: among attachments created at the same time the database may return any. The model picks the first stored, and the lemma states only what holds for any choice.
- Result order of the listing and of attachment queries is the stored order; the database's own order is not modelled.
- `Retrieval.List`: the field projection of the query (`$id`, `$type`, `$created`, `user`) is not modelled; whole rows are returned.

