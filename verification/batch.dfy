/** The loop of `process_uploaded_photos` (backend/services/image_processor.py):
    run the per-file body on every file in order, threading the database and
    storage from one file to the next, and collect the uploaded photos and
    the failures. One file's failure never stops the loop.

    The loop and its lemmas are stated over any per-file body that behaves as
    the real one does (`Conforms`); `Body` is the real one, and
    `BodyConforms` proves that it qualifies. */
module Batch {
  import Database
  import opened Ingest

  type FileBody = (Upload, FileEnv, State) -> FileOutcome

  /** The loop body for album `albumId`. The loop only ever calls it with
      well-formed readings on a valid database; elsewhere it answers
      `Skipped` so that it is defined everywhere. */
  function Body(albumId: int): FileBody {
    (u: Upload, env: FileEnv, st: State) =>
      if WellFormed(env) && Database.Valid(st.db) then ProcessFile(albumId, u, env, st) else Skipped
  }

  /** What the loop relies on of the outcome `o` of one file `u` processed
      on state `st`: it is skipped exactly when the file is absent or
      unnamed; a failure names the file and leaves the tables alone; an
      upload adds exactly one fresh photo row and keeps the tables valid;
      storage only grows. */
  predicate Sound(u: Upload, st: State, o: FileOutcome) {
    && (o.Skipped? <==> IsSkipped(u))
    && (o.Failed? ==> o.failure.filename == u.filename && o.after.db == st.db)
    && (o.Uploaded? ==>
          && Database.Valid(o.after.db)
          && o.photo.originalFilename == u.filename
          && o.after.db.albums == st.db.albums
          && o.photo.id !in st.db.photos
          && o.photo.id in o.after.db.photos
          && o.after.db.photos == st.db.photos[o.photo.id := o.after.db.photos[o.photo.id]])
    && (!o.Skipped? ==> st.blobs.Keys <= o.after.blobs.Keys)
  }

  /** Two outcomes that do the same to the tables and report the same. */
  predicate SameEffect(o1: FileOutcome, o2: FileOutcome) {
    && o1.Skipped? == o2.Skipped?
    && o1.Uploaded? == o2.Uploaded?
    && (o1.Uploaded? ==> o1.photo == o2.photo)
    && (!o1.Skipped? ==> o1.after.db == o2.after.db)
    && (o1.Failed? ==> o1.failure == o2.failure)
  }

  /** A body the loop lemmas hold for: every outcome is sound, and what it
      does to the tables does not depend on storage. */
  ghost predicate Conforms(body: FileBody) {
    && (forall u: Upload, env: FileEnv, st: State :: WellFormed(env) && Database.Valid(st.db) ==> Sound(u, st, body(u, env, st)))
    && (forall u: Upload, env: FileEnv, st1: State, st2: State ::
          WellFormed(env) && Database.Valid(st1.db) && st1.db == st2.db ==>
            SameEffect(body(u, env, st1), body(u, env, st2)))
  }

  /** The real loop body qualifies. */
  lemma BodyConforms(albumId: int)
    ensures Conforms(Body(albumId))
  {
    var body := Body(albumId);
    forall u: Upload, env: FileEnv, st: State | WellFormed(env) && Database.Valid(st.db)
      ensures Sound(u, st, body(u, env, st))
    {
      assert body(u, env, st) == ProcessFile(albumId, u, env, st);
      if ProcessFile(albumId, u, env, st).Uploaded? {
        UploadedOnlyAfterBothWrites(albumId, u, env, st);
      }
    }
    forall u: Upload, env: FileEnv, st1: State, st2: State | WellFormed(env) && Database.Valid(st1.db) && st1.db == st2.db
      ensures SameEffect(body(u, env, st1), body(u, env, st2))
    {
      ProcessFileIgnoresBlobs(albumId, u, env, st1, st2);
    }
  }

  /** The lists the loop builds, and the state it leaves. */
  datatype Progress = Progress(photos: seq<PhotoSummary>, failures: seq<FileFault>, state: State)

  /** One iteration: append the outcome to the list of its kind and move on
      to the state it left. Both lists only grow, and by one entry together
      unless the file was skipped. */
  function Step(p: Progress, o: FileOutcome): (q: Progress)
    ensures p.photos <= q.photos && p.failures <= q.failures
    ensures |q.photos| + |q.failures| == |p.photos| + |p.failures| + (if o.Skipped? then 0 else 1)
    ensures |q.photos| == |p.photos| + (if o.Uploaded? then 1 else 0)
  {
    match o
    case Skipped => p
    case Uploaded(photo, after) => Progress(p.photos + [photo], p.failures, after)
    case Failed(failure, after) => Progress(p.photos, p.failures + [failure], after)
  }

  /** The loop over a prefix of the files. */
  function Run(body: FileBody, files: seq<Upload>, envs: seq<FileEnv>, st: State): Progress
    requires |envs| == |files|
    decreases |files|
  {
    if files == [] then Progress([], [], st)
    else
      var n := |files| - 1;
      var p := Run(body, files[..n], envs[..n], st);
      Step(p, body(files[n], envs[n], p.state))
  }

  /** The loop over one more file is one more step. */
  lemma RunExtends(body: FileBody, files: seq<Upload>, envs: seq<FileEnv>, st: State, i: int)
    requires |envs| == |files| && 0 <= i < |files|
    ensures var p := Run(body, files[..i], envs[..i], st);
      Run(body, files[..i + 1], envs[..i + 1], st) == Step(p, body(files[i], envs[i], p.state))
  {
    assert files[..i + 1][..i] == files[..i];
    assert envs[..i + 1][..i] == envs[..i];
  }

  /** The loop changes the tables only by adding one photo row per uploaded
      file: the tables stay valid, no album changes, no existing photo row
      changes, and every returned photo is in the table. Storage only
      grows. */
  lemma {:induction false} RunRecordsOnlyUploads(body: FileBody, files: seq<Upload>, envs: seq<FileEnv>, st: State)
    requires |envs| == |files| && AllWellFormed(envs) && Database.Valid(st.db) && Conforms(body)
    ensures var p := Run(body, files, envs, st);
      && Database.Valid(p.state.db)
      && p.state.db.albums == st.db.albums
      && |p.state.db.photos| == |st.db.photos| + |p.photos|
      && (forall id :: id in st.db.photos ==> id in p.state.db.photos && p.state.db.photos[id] == st.db.photos[id])
      && (forall k :: 0 <= k < |p.photos| ==> p.photos[k].id in p.state.db.photos)
      && st.blobs.Keys <= p.state.blobs.Keys
    decreases |files|
  {
    if files != [] {
      var n := |files| - 1;
      RunRecordsOnlyUploads(body, files[..n], envs[..n], st);
      var p := Run(body, files[..n], envs[..n], st);
      assert Sound(files[n], p.state, body(files[n], envs[n], p.state));
    }
  }

  lemma RunStaysValid(body: FileBody, files: seq<Upload>, envs: seq<FileEnv>, st: State)
    requires |envs| == |files| && AllWellFormed(envs) && Database.Valid(st.db) && Conforms(body)
    ensures Database.Valid(Run(body, files, envs, st).state.db)
  {
    RunRecordsOnlyUploads(body, files, envs, st);
  }

  lemma SameEffectOn(body: FileBody, u: Upload, env: FileEnv, st1: State, st2: State)
    requires Conforms(body) && WellFormed(env) && Database.Valid(st1.db) && st1.db == st2.db
    ensures SameEffect(body(u, env, st1), body(u, env, st2))
  {
  }

  /** The files that are not skipped. */
  function ProcessedCount(files: seq<Upload>): nat
    decreases |files|
  {
    if files == [] then 0
    else ProcessedCount(files[..|files| - 1]) + (if IsSkipped(files[|files| - 1]) then 0 else 1)
  }

  /** Every file that is not skipped lands in exactly one of the photo list
      and the failure list. */
  lemma {:induction false} RunAccounting(body: FileBody, files: seq<Upload>, envs: seq<FileEnv>, st: State)
    requires |envs| == |files| && AllWellFormed(envs) && Database.Valid(st.db) && Conforms(body)
    ensures var p := Run(body, files, envs, st);
      |p.photos| + |p.failures| == ProcessedCount(files)
    decreases |files|
  {
    if files != [] {
      var n := |files| - 1;
      RunAccounting(body, files[..n], envs[..n], st);
      RunRecordsOnlyUploads(body, files[..n], envs[..n], st);
      var p := Run(body, files[..n], envs[..n], st);
      var o := body(files[n], envs[n], p.state);
      assert Outcomes(body, files, envs, st)[n] == o;
      assert Sound(files[n], p.state, o);
    }
  }

  /** The outcome of each file, in input order, each computed on the state
      the files before it left. */
  function Outcomes(body: FileBody, files: seq<Upload>, envs: seq<FileEnv>, st: State): (os: seq<FileOutcome>)
    requires |envs| == |files|
    ensures |os| == |files|
    decreases |files|
  {
    if files == [] then []
    else
      var n := |files| - 1;
      Outcomes(body, files[..n], envs[..n], st) + [body(files[n], envs[n], Run(body, files[..n], envs[..n], st).state)]
  }

  function UploadedPhotos(os: seq<FileOutcome>): seq<PhotoSummary>
    decreases |os|
  {
    if os == [] then []
    else UploadedPhotos(os[..|os| - 1]) + (if os[|os| - 1].Uploaded? then [os[|os| - 1].photo] else [])
  }

  function Failures(os: seq<FileOutcome>): seq<FileFault>
    decreases |os|
  {
    if os == [] then []
    else Failures(os[..|os| - 1]) + (if os[|os| - 1].Failed? then [os[|os| - 1].failure] else [])
  }

  /** The outcome at position i is about the i-th file: skipped exactly when
      that file is, and naming that file otherwise. */
  lemma {:induction false} OutcomesFollowFiles(body: FileBody, files: seq<Upload>, envs: seq<FileEnv>, st: State, i: int)
    requires |envs| == |files| && AllWellFormed(envs) && Database.Valid(st.db) && Conforms(body)
    requires 0 <= i < |files|
    ensures var o := Outcomes(body, files, envs, st)[i];
      && (o.Skipped? <==> IsSkipped(files[i]))
      && (o.Uploaded? ==> o.photo.originalFilename == files[i].filename)
      && (o.Failed? ==> o.failure.filename == files[i].filename)
    decreases |files|
  {
    var n := |files| - 1;
    if i < n {
      OutcomesFollowFiles(body, files[..n], envs[..n], st, i);
      assert Outcomes(body, files, envs, st)[i] == Outcomes(body, files[..n], envs[..n], st)[i];
    } else {
      RunRecordsOnlyUploads(body, files[..n], envs[..n], st);
      var p := Run(body, files[..n], envs[..n], st);
      var o := body(files[n], envs[n], p.state);
      assert Outcomes(body, files, envs, st)[n] == o;
      assert Sound(files[n], p.state, o);
    }
  }

  /** Filtering a list with one more outcome appends that outcome's part. */
  lemma FiltersAppend(os: seq<FileOutcome>, o: FileOutcome)
    ensures UploadedPhotos(os + [o]) == UploadedPhotos(os) + (if o.Uploaded? then [o.photo] else [])
    ensures Failures(os + [o]) == Failures(os) + (if o.Failed? then [o.failure] else [])
  {
    assert (os + [o])[..|os|] == os;
  }

  /** The returned lists are the file outcomes filtered by kind, so they
      keep the input order. */
  lemma {:induction false} RunKeepsInputOrder(body: FileBody, files: seq<Upload>, envs: seq<FileEnv>, st: State)
    requires |envs| == |files|
    ensures var p := Run(body, files, envs, st);
      var os := Outcomes(body, files, envs, st);
      p.photos == UploadedPhotos(os) && p.failures == Failures(os)
    decreases |files|
  {
    if files != [] {
      var n := |files| - 1;
      RunKeepsInputOrder(body, files[..n], envs[..n], st);
      var p := Run(body, files[..n], envs[..n], st);
      FiltersAppend(Outcomes(body, files[..n], envs[..n], st), body(files[n], envs[n], p.state));
    }
  }

  /** `s` without its i-th element. */
  function DropAt<T>(s: seq<T>, i: int): (r: seq<T>)
    requires 0 <= i < |s|
    ensures |r| == |s| - 1
    ensures forall k :: 0 <= k < i ==> r[k] == s[k]
    ensures forall k :: i <= k < |r| ==> r[k] == s[k + 1]
  {
    s[..i] + s[i + 1..]
  }

  /** Dropping an element before the last keeps the last element last. */
  lemma DropAtBeforeLast<T>(s: seq<T>, i: int)
    requires 0 <= i < |s| - 1
    ensures DropAt(s, i)[..|s| - 2] == DropAt(s[..|s| - 1], i)
    ensures DropAt(s, i)[|s| - 2] == s[|s| - 1]
  {
  }

  /** The loop without the i-th file, for an i before the last file. */
  lemma RunWithoutBeforeLast(body: FileBody, files: seq<Upload>, envs: seq<FileEnv>, st: State, i: int)
    requires |envs| == |files| && 0 <= i < |files| - 1
    ensures var n := |files| - 1;
      var q := Run(body, DropAt(files[..n], i), DropAt(envs[..n], i), st);
      Run(body, DropAt(files, i), DropAt(envs, i), st) == Step(q, body(files[n], envs[n], q.state))
  {
    DropAtBeforeLast(files, i);
    DropAtBeforeLast(envs, i);
  }

  /** Steps with outcomes of the same effect keep equal photos and tables
      equal. */
  lemma StepSameEffect(p: Progress, q: Progress, o1: FileOutcome, o2: FileOutcome)
    requires p.photos == q.photos && p.state.db == q.state.db && SameEffect(o1, o2)
    ensures Step(p, o1).photos == Step(q, o2).photos
    ensures Step(p, o1).state.db == Step(q, o2).state.db
  {
  }

  /** Failure isolation: a file that fails leaves no trace in the tables or
      in the returned photos. Running the batch with it gives the same photos
      and the same tables as running the batch without it. */
  lemma {:induction false} FailedFileIsInvisible(body: FileBody, files: seq<Upload>, envs: seq<FileEnv>, st: State, i: int)
    requires |envs| == |files| && AllWellFormed(envs) && Database.Valid(st.db) && Conforms(body)
    requires 0 <= i < |files|
    requires body(files[i], envs[i], Run(body, files[..i], envs[..i], st).state).Failed?
    ensures var with := Run(body, files, envs, st);
      var without := Run(body, DropAt(files, i), DropAt(envs, i), st);
      with.photos == without.photos && with.state.db == without.state.db
    decreases |files|
  {
    var n := |files| - 1;
    if i == n {
      FailedLastIsInvisible(body, files, envs, st);
    } else {
      assert files[..n][..i] == files[..i];
      assert envs[..n][..i] == envs[..i];
      FailedFileIsInvisible(body, files[..n], envs[..n], st, i);
      LaterFileKeepsInvisibility(body, files, envs, st, i);
    }
  }

  /** The base case: a failing last file changes neither list nor tables. */
  lemma FailedLastIsInvisible(body: FileBody, files: seq<Upload>, envs: seq<FileEnv>, st: State)
    requires |envs| == |files| && AllWellFormed(envs) && Database.Valid(st.db) && Conforms(body)
    requires files != []
    requires var n := |files| - 1; body(files[n], envs[n], Run(body, files[..n], envs[..n], st).state).Failed?
    ensures var n := |files| - 1;
      var with := Run(body, files, envs, st);
      var without := Run(body, DropAt(files, n), DropAt(envs, n), st);
      with.photos == without.photos && with.state.db == without.state.db
  {
    var n := |files| - 1;
    var p := Run(body, files[..n], envs[..n], st);
    RunRecordsOnlyUploads(body, files[..n], envs[..n], st);
    assert DropAt(files, n) == files[..n];
    assert DropAt(envs, n) == envs[..n];
    assert Sound(files[n], p.state, body(files[n], envs[n], p.state));
  }

  /** The inductive step: processing the same last file after runs that agree
      on photos and tables keeps them in agreement. */
  lemma LaterFileKeepsInvisibility(body: FileBody, files: seq<Upload>, envs: seq<FileEnv>, st: State, i: int)
    requires |envs| == |files| && AllWellFormed(envs) && Database.Valid(st.db) && Conforms(body)
    requires 0 <= i < |files| - 1
    requires var n := |files| - 1;
      var with := Run(body, files[..n], envs[..n], st);
      var without := Run(body, DropAt(files[..n], i), DropAt(envs[..n], i), st);
      with.photos == without.photos && with.state.db == without.state.db
    ensures var with := Run(body, files, envs, st);
      var without := Run(body, DropAt(files, i), DropAt(envs, i), st);
      with.photos == without.photos && with.state.db == without.state.db
  {
    var n := |files| - 1;
    var p := Run(body, files[..n], envs[..n], st);
    var q := Run(body, DropAt(files[..n], i), DropAt(envs[..n], i), st);
    RunStaysValid(body, files[..n], envs[..n], st);
    RunWithoutBeforeLast(body, files, envs, st, i);
    SameEffectOn(body, files[n], envs[n], p.state, q.state);
    StepSameEffect(p, q, body(files[n], envs[n], p.state), body(files[n], envs[n], q.state));
  }

  /** The real body skips an absent or unnamed file, whatever the state. */
  lemma BodySkips(albumId: int, u: Upload, env: FileEnv, st: State)
    requires IsSkipped(u)
    ensures Body(albumId)(u, env, st) == Skipped
  {
  }

  /** A skipped file leaves no trace at all: running the batch with it gives
      the same photos, failures and state as running it without it. */
  lemma {:induction false} SkippedFileIsInvisible(albumId: int, files: seq<Upload>, envs: seq<FileEnv>, st: State, i: int)
    requires |envs| == |files| && 0 <= i < |files| && IsSkipped(files[i])
    ensures Run(Body(albumId), files, envs, st) == Run(Body(albumId), DropAt(files, i), DropAt(envs, i), st)
    decreases |files|
  {
    var body := Body(albumId);
    var n := |files| - 1;
    if i == n {
      BodySkips(albumId, files[n], envs[n], Run(body, files[..n], envs[..n], st).state);
      assert DropAt(files, n) == files[..n];
      assert DropAt(envs, n) == envs[..n];
    } else {
      assert files[..n][i] == files[i];
      SkippedFileIsInvisible(albumId, files[..n], envs[..n], st, i);
      RunWithoutBeforeLast(body, files, envs, st, i);
    }
  }

  /** The error messages of a list of failures, in order. */
  function ErrorTexts(fs: seq<FileFault>): (ms: seq<string>)
    ensures |ms| == |fs|
    decreases |fs|
  {
    if fs == [] then []
    else ErrorTexts(fs[..|fs| - 1]) + [ErrorText(fs[|fs| - 1].filename, Detail(fs[|fs| - 1].fault))]
  }

  /** The k-th message is the k-th failure's. */
  lemma {:induction false} ErrorTextsPointwise(fs: seq<FileFault>, k: int)
    requires 0 <= k < |fs|
    ensures ErrorTexts(fs)[k] == ErrorText(fs[k].filename, Detail(fs[k].fault))
    decreases |fs|
  {
    var n := |fs| - 1;
    if k < n {
      ErrorTextsPointwise(fs[..n], k);
    }
  }

  /** The dictionary `process_uploaded_photos` returns. */
  datatype BatchResult = BatchResult(uploaded: nat, failed: nat, photos: seq<PhotoSummary>, errors: seq<string>)

  /** `process_uploaded_photos(album_id, files)`: the loop, with the counts
      taken as the lengths of the lists and the messages rendered from the
      failures in order. */
  method ProcessUploadedPhotos(albumId: int, files: seq<Upload>, envs: seq<FileEnv>, st0: State)
    returns (result: BatchResult, st: State)
    requires |envs| == |files| && AllWellFormed(envs) && Database.Valid(st0.db)
    ensures result.uploaded == |result.photos|
    ensures result.uploaded + result.failed == ProcessedCount(files)
    ensures result.failed == |result.errors|
    ensures result.photos == UploadedPhotos(Outcomes(Body(albumId), files, envs, st0))
    ensures result.errors == ErrorTexts(Failures(Outcomes(Body(albumId), files, envs, st0)))
    ensures st == Run(Body(albumId), files, envs, st0).state
    ensures Database.Valid(st.db) && st.db.albums == st0.db.albums
    ensures |st.db.photos| == |st0.db.photos| + result.uploaded
    ensures forall k :: 0 <= k < |result.photos| ==> result.photos[k].id in st.db.photos
  {
    BodyConforms(albumId);
    var photos: seq<PhotoSummary> := [];
    var failures: seq<FileFault> := [];
    st := st0;
    var i := 0;
    while i < |files|
      invariant 0 <= i <= |files|
      invariant Progress(photos, failures, st) == Run(Body(albumId), files[..i], envs[..i], st0)
    {
      RunRecordsOnlyUploads(Body(albumId), files[..i], envs[..i], st0);
      RunExtends(Body(albumId), files, envs, st0, i);
      var out := ProcessFile(albumId, files[i], envs[i], st);
      assert out == Body(albumId)(files[i], envs[i], st);
      match out {
        case Skipped =>
        case Uploaded(photo, after) =>
          photos := photos + [photo];
          st := after;
        case Failed(failure, after) =>
          failures := failures + [failure];
          st := after;
      }
      i := i + 1;
    }
    assert files[..i] == files;
    assert envs[..i] == envs;
    RunAccounting(Body(albumId), files, envs, st0);
    RunKeepsInputOrder(Body(albumId), files, envs, st0);
    RunRecordsOnlyUploads(Body(albumId), files, envs, st0);
    result := BatchResult(|photos|, |failures|, photos, ErrorTexts(failures));
  }

  /** Failure isolation for the real loop body. */
  lemma FailedUploadIsInvisible(albumId: int, files: seq<Upload>, envs: seq<FileEnv>, st: State, i: int)
    requires |envs| == |files| && AllWellFormed(envs) && Database.Valid(st.db)
    requires 0 <= i < |files|
    requires Body(albumId)(files[i], envs[i], Run(Body(albumId), files[..i], envs[..i], st).state).Failed?
    ensures var with := Run(Body(albumId), files, envs, st);
      var without := Run(Body(albumId), DropAt(files, i), DropAt(envs, i), st);
      with.photos == without.photos && with.state.db == without.state.db
  {
    BodyConforms(albumId);
    FailedFileIsInvisible(Body(albumId), files, envs, st, i);
  }
}
