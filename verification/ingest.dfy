/** The body of the batch upload loop `process_uploaded_photos`
    (backend/services/image_processor.py) for one file: the file is
    classified, given two storage names, saved as an original, compressed,
    and recorded; a failure at any step is caught and reported with the
    file's name. The loop itself is in module Batch.

    Everything outside the code is an input: per file, a `FileEnv` says what
    the clock and the random generator returned, whether saving the original
    succeeded and how large it was, what the image library decodes and
    encodes, and whether the metadata insert raised. Blob storage is a map
    from path to the size of the file written there. */
module Ingest {
  import opened Results
  import opened Formats
  import Config
  import Paths
  import Classifier
  import Naming
  import Transcoder
  import Database
  import FileManager

  /** One element of the uploaded `files` list: a missing part (which Python
      treats as false), or a part carrying the client's file name. */
  datatype Upload = NoFile | Upload(filename: string)

  /** The outside world while one file is processed. */
  datatype FileEnv = FileEnv(
    compressedNameTime: nat,
    compressedNameSuffix: nat,
    originalNameTime: nat,
    originalNameSuffix: nat,
    saveOriginal: Result<nat>,
    decode: Transcoder.Decoder -> Result<Transcoder.Image>,
    encode: Transcoder.EncodeRequest -> Result<nat>,
    recordFault: Option<string>)

  /** `random.randint(1000, 9999)` stays in its range. */
  predicate WellFormed(env: FileEnv) {
    && 1000 <= env.compressedNameSuffix <= 9999
    && 1000 <= env.originalNameSuffix <= 9999
  }

  predicate AllWellFormed(envs: seq<FileEnv>) {
    forall i :: 0 <= i < |envs| ==> WellFormed(envs[i])
  }

  datatype State = State(db: Database.Store, blobs: map<string, nat>)

  /** One element of `uploaded_photos`. */
  datatype PhotoSummary = PhotoSummary(
    id: int,
    filename: string,
    originalFilename: string,
    fileFormat: Format,
    originalSize: nat,
    compressedSize: nat,
    width: nat,
    height: nat,
    compressionRatio: real)

  /** Why a file failed: its extension is outside the allowed set, the
      classification fell through, or saving the original, compressing or
      inserting the row raised with the given text. */
  datatype Fault =
    | NotAllowed
    | Unrecognised
    | SaveError(cause: string)
    | CompressError(cause: string)
    | InsertError(cause: string)

  /** The text `str(e)` of the exception behind a fault. */
  function Detail(f: Fault): string {
    match f
    case NotAllowed => "Unsupported format"
    case Unrecognised => "Unknown format"
    case SaveError(c) => c
    case CompressError(c) => Transcoder.FailureText(c)
    case InsertError(c) => c
  }

  /** `f"File {filename}: {detail}"`. */
  function ErrorText(filename: string, detail: string): string {
    "File " + filename + ": " + detail
  }

  /** A message is made of the fixed lead-in, the file name, a colon and a
      space, and the detail, so both can be read back from it. */
  lemma ErrorTextSplits(filename: string, detail: string)
    ensures var m := ErrorText(filename, detail);
      && |m| == 7 + |filename| + |detail|
      && m[..5] == "File "
      && m[5..5 + |filename|] == filename
      && m[5 + |filename|..7 + |filename|] == ": "
      && m[7 + |filename|..] == detail
  {
    var m := ErrorText(filename, detail);
    assert m == "File " + (filename + (": " + detail));
  }

  /** The detail of a save, compression or insert fault ends with the
      exception's own text; the compression detail adds the fixed prefix in
      front of it. */
  lemma DetailEndsWithCause(f: Fault)
    requires f.SaveError? || f.CompressError? || f.InsertError?
    ensures |f.cause| <= |Detail(f)| && Detail(f)[|Detail(f)| - |f.cause|..] == f.cause
    ensures f.CompressError? ==> Detail(f)[..|Transcoder.FailurePrefix|] == Transcoder.FailurePrefix
  {
  }

  /** A failed file: its name and why it failed. */
  datatype FileFault = FileFault(filename: string, fault: Fault)

  /** What happened to one file, and the state it left behind. */
  datatype FileOutcome =
    | Skipped
    | Uploaded(photo: PhotoSummary, after: State)
    | Failed(failure: FileFault, after: State)

  /** `not file or file.filename == ''`. */
  predicate IsSkipped(u: Upload) {
    u.NoFile? || u.filename == ""
  }

  /** The storage names and paths of one file: the compressed name is
      generated first, the original name second. */
  datatype Placement = Placement(compressedName: string, originalName: string, originalPath: string, compressedPath: string)

  function Place(filename: string, fmt: Format, env: FileEnv): (pl: Placement)
    requires WellFormed(env)
    ensures '/' !in pl.compressedName && '/' !in pl.originalName
    ensures pl.originalPath == Config.OriginalsFolder + "/" + pl.originalName
    ensures pl.compressedPath == Config.CompressedFolder + "/" + pl.compressedName
  {
    var compressedName := Naming.GenerateFilename(filename, fmt, env.compressedNameTime, env.compressedNameSuffix);
    var originalName := Naming.GenerateFilename(filename, fmt, env.originalNameTime, env.originalNameSuffix);
    Paths.JoinName(Config.OriginalsFolder, originalName);
    Paths.JoinName(Config.CompressedFolder, compressedName);
    Placement(compressedName, originalName,
              Paths.Join(Config.OriginalsFolder, originalName),
              Paths.Join(Config.CompressedFolder, compressedName))
  }

  /** The body of the loop for one file. */
  function ProcessFile(albumId: int, u: Upload, env: FileEnv, st: State): (out: FileOutcome)
    requires WellFormed(env) && Database.Valid(st.db)
    ensures out.Skipped? <==> IsSkipped(u)
    ensures out.Failed? ==> out.failure.filename == u.filename && out.after.db == st.db
    ensures out.Uploaded? ==> Database.Valid(out.after.db) && out.photo.originalFilename == u.filename
    ensures !out.Skipped? ==> st.blobs.Keys <= out.after.blobs.Keys
  {
    if IsSkipped(u) then Skipped else ProcessNamed(albumId, u.filename, env, st)
  }

  /** A file that is present: classify it, then store it if it is supported. */
  function ProcessNamed(albumId: int, filename: string, env: FileEnv, st: State): (out: FileOutcome)
    requires WellFormed(env) && Database.Valid(st.db)
    ensures !out.Skipped?
    ensures out.Failed? ==> out.failure.filename == filename && out.after.db == st.db
    ensures out.Uploaded? ==> Database.Valid(out.after.db) && out.photo.originalFilename == filename
    ensures st.blobs.Keys <= out.after.blobs.Keys
  {
    match Classifier.Classify(filename)
    case UnsupportedFormat => Failed(FileFault(filename, NotAllowed), st)
    case UnknownFormat => Failed(FileFault(filename, Unrecognised), st)
    case Supported(fmt) => StoreFile(albumId, filename, fmt, Place(filename, fmt, env), env, st)
  }

  /** A supported file with its names chosen: save the original, compress,
      insert the row. A failure keeps whatever was written before it. */
  function StoreFile(albumId: int, filename: string, fmt: Format, pl: Placement, env: FileEnv, st: State): (out: FileOutcome)
    requires Database.Valid(st.db)
    ensures !out.Skipped?
    ensures out.Failed? ==> out.failure.filename == filename && out.after.db == st.db
    ensures out.Uploaded? ==> Database.Valid(out.after.db) && out.photo.originalFilename == filename
    ensures st.blobs.Keys <= out.after.blobs.Keys
  {
    match env.saveOriginal
    case Err(e) => Failed(FileFault(filename, SaveError(e)), st)
    case Ok(originalSize) =>
      var saved := st.blobs[pl.originalPath := originalSize];
      match Transcoder.CompressImage(fmt, env.decode, env.encode)
      case Err(e) => Failed(FileFault(filename, CompressError(e)), st.(blobs := saved))
      case Ok(c) =>
        var written := saved[pl.compressedPath := c.size];
        match env.recordFault
        case Some(e) => Failed(FileFault(filename, InsertError(e)), st.(blobs := written))
        case None =>
          var (db, id) := Database.CreatePhoto(st.db, albumId, pl.compressedName, filename, fmt,
                                               pl.originalPath, pl.compressedPath, originalSize, c.size,
                                               c.width, c.height);
          Uploaded(PhotoSummary(id, pl.compressedName, filename, fmt, originalSize, c.size, c.width, c.height,
                                Database.CompressionRatio(originalSize, c.size)),
                   State(db, written))
  }

  /** The two folders differ, so an original and a compressed rendition never
      share a path. */
  lemma PlacementPathsDistinct(filename: string, fmt: Format, env: FileEnv)
    requires WellFormed(env)
    ensures Place(filename, fmt, env).originalPath != Place(filename, fmt, env).compressedPath
  {
    var pl := Place(filename, fmt, env);
    assert pl.originalPath[8] == 'o';
    assert pl.compressedPath[8] == 'c';
  }

  /** A photo is recorded only for a supported file whose original was saved,
      whose compression returned, and whose insert did not raise; at that
      point both renditions are in storage with the sizes the record holds,
      and the record is the only row added. */
  lemma {:induction false} UploadedOnlyAfterBothWrites(albumId: int, u: Upload, env: FileEnv, st: State)
    requires WellFormed(env) && Database.Valid(st.db)
    requires ProcessFile(albumId, u, env, st).Uploaded?
    ensures var out := ProcessFile(albumId, u, env, st);
      var ph := out.photo;
      var pl := Place(u.filename, ph.fileFormat, env);
      && u.Upload?
      && Classifier.Classify(u.filename) == Classifier.Supported(ph.fileFormat)
      && env.saveOriginal == Ok(ph.originalSize)
      && Transcoder.CompressImage(ph.fileFormat, env.decode, env.encode)
         == Ok(Transcoder.Compressed(ph.compressedSize, ph.width, ph.height))
      && env.recordFault.None?
      && pl.originalPath in out.after.blobs && out.after.blobs[pl.originalPath] == ph.originalSize
      && pl.compressedPath in out.after.blobs && out.after.blobs[pl.compressedPath] == ph.compressedSize
      && ph.filename == pl.compressedName
      && ph.id !in st.db.photos
      && out.after.db.albums == st.db.albums
      && out.after.db.photos == st.db.photos[ph.id := Database.Photo(
           albumId, pl.compressedName, u.filename, ph.fileFormat, pl.originalPath, pl.compressedPath,
           ph.originalSize, ph.compressedSize, ph.width, ph.height,
           Database.CompressionRatio(ph.originalSize, ph.compressedSize), Database.PhotoActive)]
  {
    var fmt := Classifier.Classify(u.filename).format;
    var pl := Place(u.filename, fmt, env);
    PlacementPathsDistinct(u.filename, fmt, env);
    assert ProcessFile(albumId, u, env, st) == StoreFile(albumId, u.filename, fmt, pl, env, st);
    StoreFileRecords(albumId, u.filename, fmt, pl, env, st);
  }

  /** How the fault of a supported file that failed relates to the step
      that raised: saving, compressing and inserting are tried in that order,
      and each fault carries the text of its exception. Storage keeps what
      was written before the step that raised: nothing after a save fault,
      the original after a compression fault, both renditions after an
      insert fault. */
  predicate FailedAt(fmt: Format, pl: Placement, env: FileEnv, st: State, f: Fault, after: State) {
    var compressed := Transcoder.CompressImage(fmt, env.decode, env.encode);
    && (f.SaveError? <==> env.saveOriginal.Err?)
    && (f.SaveError? ==> after == st && f.cause == env.saveOriginal.message)
    && (f.CompressError? <==> env.saveOriginal.Ok? && compressed.Err?)
    && (f.CompressError? ==>
          && f.cause == compressed.message
          && after == st.(blobs := st.blobs[pl.originalPath := env.saveOriginal.value]))
    && (f.InsertError? <==> env.saveOriginal.Ok? && compressed.Ok? && env.recordFault.Some?)
    && (f.InsertError? ==>
          && f.cause == env.recordFault.value
          && after == st.(blobs := st.blobs[pl.originalPath := env.saveOriginal.value]
                                           [pl.compressedPath := compressed.value.size]))
  }

  lemma StoreFileFaults(albumId: int, filename: string, fmt: Format, pl: Placement, env: FileEnv, st: State)
    requires Database.Valid(st.db)
    requires StoreFile(albumId, filename, fmt, pl, env, st).Failed?
    ensures var out := StoreFile(albumId, filename, fmt, pl, env, st);
      && !out.failure.fault.NotAllowed? && !out.failure.fault.Unrecognised?
      && FailedAt(fmt, pl, env, st, out.failure.fault, out.after)
  {
  }

  /** Each failure names the step that raised, and the steps are tried in
      order: a format fault or a save fault leaves storage as it was, a
      compression fault leaves the saved original in storage, and an insert
      fault leaves both renditions there. The tables never change on a
      failure. */
  lemma {:induction false} FailureNamesTheStep(albumId: int, u: Upload, env: FileEnv, st: State)
    requires WellFormed(env) && Database.Valid(st.db)
    requires ProcessFile(albumId, u, env, st).Failed?
    ensures var out := ProcessFile(albumId, u, env, st);
      var c := Classifier.Classify(u.filename);
      && out.after.db == st.db
      && out.failure.filename == u.filename
      && (out.failure.fault == NotAllowed <==> c == Classifier.UnsupportedFormat)
      && out.failure.fault != Unrecognised
      && (out.failure.fault.NotAllowed? ==> out.after == st)
      && (!out.failure.fault.NotAllowed? ==>
            c.Supported? && FailedAt(c.format, Place(u.filename, c.format, env), env, st, out.failure.fault, out.after))
  {
    var c := Classifier.Classify(u.filename);
    assert ProcessFile(albumId, u, env, st) == ProcessNamed(albumId, u.filename, env, st);
    if c.Supported? {
      var pl := Place(u.filename, c.format, env);
      assert ProcessNamed(albumId, u.filename, env, st) == StoreFile(albumId, u.filename, c.format, pl, env, st);
      StoreFileFaults(albumId, u.filename, c.format, pl, env, st);
    }
  }

  /** Once the original has been saved, a later failure leaves it in storage:
      nothing removes a file the loop wrote. */
  lemma StoreFileKeepsSavedOriginal(albumId: int, filename: string, fmt: Format, pl: Placement, env: FileEnv, st: State)
    requires Database.Valid(st.db)
    requires pl.originalPath != pl.compressedPath && env.saveOriginal.Ok?
    ensures var out := StoreFile(albumId, filename, fmt, pl, env, st);
      pl.originalPath in out.after.blobs && out.after.blobs[pl.originalPath] == env.saveOriginal.value
  {
  }

  lemma {:induction false} SavedOriginalOutlivesFailure(albumId: int, u: Upload, env: FileEnv, st: State)
    requires WellFormed(env) && Database.Valid(st.db)
    requires ProcessFile(albumId, u, env, st).Failed?
    requires Classifier.Classify(u.filename).Supported? && env.saveOriginal.Ok?
    ensures var out := ProcessFile(albumId, u, env, st);
      var pl := Place(u.filename, Classifier.Classify(u.filename).format, env);
      pl.originalPath in out.after.blobs && out.after.blobs[pl.originalPath] == env.saveOriginal.value
  {
    var fmt := Classifier.Classify(u.filename).format;
    var pl := Place(u.filename, fmt, env);
    PlacementPathsDistinct(u.filename, fmt, env);
    assert ProcessFile(albumId, u, env, st) == StoreFile(albumId, u.filename, fmt, pl, env, st);
    StoreFileKeepsSavedOriginal(albumId, u.filename, fmt, pl, env, st);
  }

  /** The message of a compression failure carries the file name, the fixed
      prefix and the library's text, in that order. */
  lemma CompressionErrorText(filename: string, cause: string)
    ensures var m := ErrorText(filename, Detail(CompressError(cause)));
      && m == "File " + filename + ": " + Transcoder.FailurePrefix + cause
      && m[..5] == "File "
      && m[|m| - |cause|..] == cause
  {
    var m := ErrorText(filename, Detail(CompressError(cause)));
    var d := Transcoder.FailureText(cause);
    assert d[|d| - |cause|..] == cause;
    assert m[|m| - |d|..] == d;
    assert m[|m| - |cause|..] == d[|d| - |cause|..];
  }

  /** A file with an extension outside the allowed set fails with the fixed
      message and touches nothing. */
  lemma UnsupportedFormatFails(albumId: int, filename: string, env: FileEnv, st: State)
    requires WellFormed(env) && Database.Valid(st.db)
    requires filename != "" && Classifier.Classify(filename) == Classifier.UnsupportedFormat
    ensures ProcessFile(albumId, Upload(filename), env, st) == Failed(FileFault(filename, NotAllowed), st)
    ensures Detail(NotAllowed) == "Unsupported format"
  {
    assert ProcessFile(albumId, Upload(filename), env, st) == ProcessNamed(albumId, filename, env, st);
  }

  /** The paths a record stores resolve to themselves through the file
      manager, so the view and download routes find the files written. */
  lemma {:induction false} StoredPathsResolve(albumId: int, u: Upload, env: FileEnv, st: State)
    requires WellFormed(env) && Database.Valid(st.db)
    requires ProcessFile(albumId, u, env, st).Uploaded?
    ensures var pl := Place(u.filename, ProcessFile(albumId, u, env, st).photo.fileFormat, env);
      && FileManager.GetFilePath(pl.compressedPath) == pl.compressedPath
      && FileManager.GetOriginalFilePath(pl.originalPath) == pl.originalPath
  {
    var pl := Place(u.filename, ProcessFile(albumId, u, env, st).photo.fileFormat, env);
    FileManager.GetFilePathRoundTrip(pl.compressedName);
    FileManager.GetOriginalFilePathRoundTrip(pl.originalName);
    Paths.JoinName(Config.OriginalsFolder, pl.originalName);
    Paths.JoinName(Config.CompressedFolder, pl.compressedName);
  }

  /** A HEIC upload is recorded with format HEIC and a compressed name whose
      extension is `heic`, although the library was asked for JPEG bytes. */
  lemma {:induction false} HeicRecordedUnderHeicName(albumId: int, u: Upload, env: FileEnv, st: State)
    requires WellFormed(env) && Database.Valid(st.db)
    requires ProcessFile(albumId, u, env, st).Uploaded?
    requires Classifier.Classify(u.filename) == Classifier.Supported(HEIC)
    ensures var ph := ProcessFile(albumId, u, env, st).photo;
      && ph.fileFormat == HEIC
      && Naming.ParseStorageName(ph.filename) == Some(Naming.StorageName(env.compressedNameTime, env.compressedNameSuffix, "heic"))
      && env.decode(Transcoder.HeifReader).Ok?
      && Transcoder.PlanEncoding(HEIC, env.decode(Transcoder.HeifReader).value).encoding.JpegEncoding?
  {
    var pl := Place(u.filename, HEIC, env);
    assert ProcessFile(albumId, u, env, st) == StoreFile(albumId, u.filename, HEIC, pl, env, st);
    StoreFileNamesAndCompresses(albumId, u.filename, HEIC, pl, env, st);
    PlacedNameParses(u.filename, HEIC, env);
    Transcoder.HeicCompressionDecodesWithHeifReader(env.decode, env.encode);
  }

  /** A stored file was saved, compressed and inserted; both renditions
      are in storage under its placement with the sizes the record holds,
      and the record is the only row added. */
  lemma StoreFileRecords(albumId: int, filename: string, fmt: Format, pl: Placement, env: FileEnv, st: State)
    requires Database.Valid(st.db) && pl.originalPath != pl.compressedPath
    requires StoreFile(albumId, filename, fmt, pl, env, st).Uploaded?
    ensures var out := StoreFile(albumId, filename, fmt, pl, env, st);
      var ph := out.photo;
      && ph.fileFormat == fmt
      && env.saveOriginal == Ok(ph.originalSize)
      && Transcoder.CompressImage(fmt, env.decode, env.encode)
         == Ok(Transcoder.Compressed(ph.compressedSize, ph.width, ph.height))
      && env.recordFault.None?
      && pl.originalPath in out.after.blobs && out.after.blobs[pl.originalPath] == ph.originalSize
      && pl.compressedPath in out.after.blobs && out.after.blobs[pl.compressedPath] == ph.compressedSize
      && ph.filename == pl.compressedName
      && ph.id !in st.db.photos
      && out.after.db.albums == st.db.albums
      && out.after.db.photos == st.db.photos[ph.id := Database.Photo(
           albumId, pl.compressedName, filename, fmt, pl.originalPath, pl.compressedPath,
           ph.originalSize, ph.compressedSize, ph.width, ph.height,
           Database.CompressionRatio(ph.originalSize, ph.compressedSize), Database.PhotoActive)]
  {
  }

  /** A stored file keeps its format, is named by its placement, and was
      compressed. */
  lemma StoreFileNamesAndCompresses(albumId: int, filename: string, fmt: Format, pl: Placement, env: FileEnv, st: State)
    requires Database.Valid(st.db)
    requires StoreFile(albumId, filename, fmt, pl, env, st).Uploaded?
    ensures var ph := StoreFile(albumId, filename, fmt, pl, env, st).photo;
      ph.fileFormat == fmt && ph.filename == pl.compressedName
      && Transcoder.CompressImage(fmt, env.decode, env.encode).Ok?
  {
  }

  /** The compressed name reads back as the clock reading, the random draw
      and the format's extension. */
  lemma PlacedNameParses(filename: string, fmt: Format, env: FileEnv)
    requires WellFormed(env)
    ensures Naming.ParseStorageName(Place(filename, fmt, env).compressedName)
            == Some(Naming.StorageName(env.compressedNameTime, env.compressedNameSuffix, Naming.FormatExtension(fmt)))
  {
    Naming.GenerateFilenameRoundTrip(filename, fmt, env.compressedNameTime, env.compressedNameSuffix);
  }

  /** Storage paths depend only on the format, the clock and the random
      draws: two files of one format that see the same readings get the
      same paths, whatever their names, and nothing detects it. */
  lemma SameReadingsSamePaths(name1: string, name2: string, fmt: Format, env1: FileEnv, env2: FileEnv)
    requires WellFormed(env1) && WellFormed(env2)
    requires env1.compressedNameTime == env2.compressedNameTime && env1.compressedNameSuffix == env2.compressedNameSuffix
    requires env1.originalNameTime == env2.originalNameTime && env1.originalNameSuffix == env2.originalNameSuffix
    ensures Place(name1, fmt, env1) == Place(name2, fmt, env2)
  {
  }

  /** What storing a file does to the tables, and whether it succeeds, does
      not depend on what is already in storage. */
  lemma StoreFileIgnoresBlobs(albumId: int, filename: string, fmt: Format, pl: Placement, env: FileEnv, st1: State, st2: State)
    requires Database.Valid(st1.db) && st1.db == st2.db
    ensures var o1 := StoreFile(albumId, filename, fmt, pl, env, st1);
      var o2 := StoreFile(albumId, filename, fmt, pl, env, st2);
      && o1.Uploaded? == o2.Uploaded?
      && (o1.Uploaded? ==> o1.photo == o2.photo)
      && o1.after.db == o2.after.db
      && (o1.Failed? ==> o1.failure == o2.failure)
  {
  }

  /** What a file's processing does to the tables, and whether it succeeds,
      does not depend on what is already in storage. */
  lemma {:induction false} ProcessFileIgnoresBlobs(albumId: int, u: Upload, env: FileEnv, st1: State, st2: State)
    requires WellFormed(env) && Database.Valid(st1.db) && st1.db == st2.db
    ensures var o1 := ProcessFile(albumId, u, env, st1);
      var o2 := ProcessFile(albumId, u, env, st2);
      && o1.Skipped? == o2.Skipped?
      && o1.Uploaded? == o2.Uploaded?
      && (o1.Uploaded? ==> o1.photo == o2.photo)
      && (!o1.Skipped? ==> o1.after.db == o2.after.db)
      && (o1.Failed? ==> o1.failure == o2.failure)
  {
    if !IsSkipped(u) {
      var c := Classifier.Classify(u.filename);
      if c.Supported? {
        var pl := Place(u.filename, c.format, env);
        assert ProcessFile(albumId, u, env, st1) == StoreFile(albumId, u.filename, c.format, pl, env, st1);
        assert ProcessFile(albumId, u, env, st2) == StoreFile(albumId, u.filename, c.format, pl, env, st2);
        StoreFileIgnoresBlobs(albumId, u.filename, c.format, pl, env, st1, st2);
      }
    }
  }
}
