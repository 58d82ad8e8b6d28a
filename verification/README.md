# Photo Organizer backend core, modelled in Dafny

This project models the core of the Photo Organizer backend: the upload
ingestion pipeline, the album/photo metadata store, and path resolution into
the two storage folders.

The ingestion pipeline (`process_uploaded_photos`) handles each file of a
batch in order:

- It skips a missing part or one with an empty name.
- It classifies the file by its last extension, case-insensitively.
- It generates two storage names of the form `photo_<ts>_<rand>.<fmt>`.
- It saves the original, compresses it, and records a photo row, in that order.
- A failure at any step is caught and reported as
  `File <name>: <detail>`, and the loop goes on with the next file.

Compression (`compress_image`) caps the width at 1920 pixels, truncating the
scaled height. It re-encodes HEIC sources as JPEG and flattens alpha and
palette images onto white, but only on the JPEG path.

The metadata store has two tables, albums and photos, with soft deletes:

- Album names are unique across every row, deleted ones included.
- Every read returns only active rows.
- An album's photo count is the number of its active photos.

`get_file_path` and `get_original_file_path` keep only the last component of
a stored path and place it inside the configured folder.

Modules, one per concern:

- `Results`: `Option` and `Result`. A Python exception is an `Err` carrying
  its `str(e)`.
- `Config`: the constants of `backend/config.py`.
- `Strings`: ASCII `str.lower` and `str(n)` for naturals, with the decimal
  round trip.
- `Paths`: POSIX `rfind`, `basename`, `join` and `splitext`.
- `FileManager`: path resolution.
- `Formats`: the three formats.
- `Classifier`: extension classification.
- `Naming`: `generate_filename` and a parser that reads a storage name back.
- `Transcoder`: the decisions of `compress_image`. The image library is
  represented by two oracles.
- `Database`: the tables as maps from id to row, with every query and update
  as a pure function of the store.
- `Ingest`: the loop body for one file.
- `Batch`: the loop itself, the returned dictionary, and the batch-level
  properties. The batch-level lemmas hold for any per-file body that
  `Conforms`, and `BodyConforms` shows the real body does.

Everything outside the code is an explicit input, in a per-file `FileEnv`:

- the two clock readings and two random draws;
- whether saving the original succeeded, and its size;
- what the decoder returns for each of the two decoders;
- what the encoder returns for each encode request;
- whether the metadata insert raised.

Blob storage is a map from path to the size of the file written there.

## Model

| member | source | states |
|---|---|---|
| Strings.Lower | backend/services/image_processor.py:80 | ASCII lower-casing keeps the length and lower-cases each character in place |
| Strings.LowerIdempotent | backend/services/image_processor.py:80 | lower-casing twice is the same as lower-casing once |
| Strings.Decimal | backend/services/image_processor.py:18 | `str(n)` is a non-empty run of digits with no leading zero |
| Strings.DecimalRoundTrip | backend/services/image_processor.py:18 | reading the decimal rendering of `n` as a number gives `n` back |
| Strings.DecimalInjective | backend/services/image_processor.py:18 | two numbers render alike exactly when they are equal |
| Strings.DecimalFourDigits | backend/services/image_processor.py:14 | every value `randint(1000, 9999)` can return is written with exactly four digits |
| Paths.Basename | backend/services/file_manager.py:6 | the basename holds no `/`, is a suffix of the path, and is preceded by a `/` whenever it is shorter than the path |
| Paths.BasenameOfName | backend/services/file_manager.py:6 | a name without a separator is its own basename |
| Paths.BasenameOfDirectory | backend/services/file_manager.py:6 | a path ending in `/` has an empty basename |
| Paths.RFind | backend/services/file_manager.py:6 | `rfind` gives -1 or an index holding the character, with no later occurrence |
| Paths.JoinKeepsParts | backend/services/image_processor.py:104-105 | `os.path.join(a, b)` always ends with `b`; a relative `b` keeps `a` as the prefix; an absolute `b` is the whole result |
| Paths.JoinName | backend/services/image_processor.py:104-105 | joining a relative name onto a folder with no trailing `/` inserts exactly one `/` |
| Paths.SplitExt | backend/services/image_processor.py:80 | `splitext` splits the path into two parts that concatenate back to it; the extension is empty or a dot followed by no dot and no `/` |
| Paths.SplitExtLastDot | backend/services/image_processor.py:80 | the extension of `stem.ext` is `.ext` when the stem ends in an ordinary character |
| Paths.SplitExtLower | backend/services/image_processor.py:80 | splitting a lower-cased name gives the lower-cased parts of the original split |
| FileManager.ConfiguredFolders | backend/config.py:16-17 | both storage folders are non-empty and have no trailing `/` |
| FileManager.Confine | backend/services/file_manager.py:4-10 | the resolved path is the folder, one `/`, and the basename of the stored path |
| FileManager.GetFilePath | backend/services/file_manager.py:4-6 | `get_file_path(p)` is `uploads/compressed/` followed by the basename of `p` |
| FileManager.GetOriginalFilePath | backend/services/file_manager.py:8-10 | `get_original_file_path(p)` is `uploads/originals/` followed by the basename of `p` |
| FileManager.ConfineStaysInFolder | backend/services/file_manager.py:6 | after the folder and its `/` no further `/` follows, so the path cannot escape into a subdirectory |
| FileManager.ParentAndEmptyNotRejected | backend/services/file_manager.py:6 | `..` and an empty last component are passed through rather than rejected |
| FileManager.ConfineIdempotent | backend/services/file_manager.py:6 | resolving an already resolved path changes nothing |
| FileManager.ConfineRoundTrip | backend/services/file_manager.py:6 | a path stored as `folder/name`, with no `/` in the name, resolves to itself |
| FileManager.GetFilePathIdempotent | backend/services/file_manager.py:4-6 | `get_file_path(get_file_path(p)) == get_file_path(p)` |
| FileManager.GetOriginalFilePathIdempotent | backend/services/file_manager.py:8-10 | the same idempotence for the originals folder |
| FileManager.GetFilePathRoundTrip | backend/services/file_manager.py:4-6 | a compressed path built by `os.path.join` from a plain name resolves to itself |
| FileManager.GetOriginalFilePathRoundTrip | backend/services/file_manager.py:8-10 | an original path built by `os.path.join` from a plain name resolves to itself |
| Classifier.LStripDots | backend/services/image_processor.py:80 | `lstrip('.')` removes exactly the leading dots: the result is a suffix that does not start with a dot, and everything removed was a dot |
| Classifier.LowerKeepsExtensionShape | backend/services/image_processor.py:80 | lower-casing keeps an extension a dot followed by no dot and no `/` |
| Classifier.Extension | backend/services/image_processor.py:80 | the extension that is compared holds neither a dot nor a `/` |
| Classifier.ClassifyExtension | backend/services/image_processor.py:82-97 | an extension is rejected as unsupported exactly when it is outside the allowed set, and the "Unknown format" branch is never taken |
| Classifier.Classify | backend/services/image_processor.py:80-97 | a file is rejected exactly when its lower-cased last extension is outside the allowed set; "Unknown format" is unreachable |
| Classifier.ExtensionsOf | backend/services/image_processor.py:88-93 | each format's extensions lie within the allowed set |
| Classifier.ExtensionTableCoversAllowed | backend/config.py:8 | the per-format extension sets are disjoint and together make up the allowed set |
| Classifier.ClassifyExtensionMatchesTable | backend/services/image_processor.py:82-97 | an extension is classified as format `f` if and only if it is one of `f`'s extensions |
| Classifier.ClassifyMatchesTable | backend/services/image_processor.py:80-97 | a file is classified as format `f` if and only if its extension is one of `f`'s extensions |
| Classifier.ClassifyCaseInsensitive | backend/services/image_processor.py:80 | names that agree once lower-cased are classified alike |
| Classifier.ExtensionIsLastSuffix | backend/services/image_processor.py:80 | only the text after the last dot counts, lower-cased |
| Classifier.ClassifyUpperCaseExample | backend/services/image_processor.py:80-89 | `IMG_0001.HEIC` is accepted as HEIC |
| Classifier.ClassifyDotFileExample | backend/services/image_processor.py:80-85 | `.png` has no extension and is rejected |
| Naming.FormatExtension | backend/services/image_processor.py:18 | a format's extension is non-empty and free of `.`, `/` and `_` |
| Naming.FormatExtensionIsLowerName | backend/services/image_processor.py:18 | the extension is the lower-cased format name |
| Naming.GenerateFilename | backend/services/image_processor.py:11-18 | the name holds no `/`, starts `photo_`, ends `.<fmt>`, and its length is fixed by the timestamp's digit count (the suffix always takes four) |
| Naming.GenerateFilenameRoundTrip | backend/services/image_processor.py:13-18 | every generated name parses back to its timestamp, random suffix and lower-case format extension |
| Naming.GenerateFilenameInjective | backend/services/image_processor.py:13-18 | two names are equal if and only if their timestamps, suffixes and formats are; the original file name never matters |
| Naming.SameSecondSameSuffixCollide | backend/services/image_processor.py:13-18 | two uploads of one format in the same second with the same draw get the same name, whatever their original names |
| Naming.GenerateFilenameExample | backend/services/image_processor.py:11-18 | a JPEG named at second 170 with draw 4821 is stored as `photo_170_4821.jpeg` |
| Transcoder.ResizeDims | backend/services/image_processor.py:37-44 | a width over 1920 becomes 1920 and the height is `height*1920/width` truncated; a narrower image keeps its size |
| Transcoder.ResizeBounds | backend/services/image_processor.py:40-44 | the output is at most 1920 wide, never wider and never taller than the input |
| Transcoder.ResizeIdempotent | backend/services/image_processor.py:40-44 | resizing the output again changes nothing |
| Transcoder.ResizeKeepsExactAspect | backend/services/image_processor.py:41-42 | the aspect ratio is exact when the scaled height is whole |
| Transcoder.ResizeExamples | backend/services/image_processor.py:40-44 | 3840x2160 becomes 1920x1080, 1000x800 is untouched, and 3841x1 gets a computed target height of 0 |
| Transcoder.OutputEncoding | backend/services/image_processor.py:47-59 | everything except PNG goes to the JPEG encoder |
| Transcoder.NeedsFlattenModes | backend/services/image_processor.py:49 | RGBA, LA and P are flattened; RGB, L and CMYK are not |
| Transcoder.FlattenFor | backend/services/image_processor.py:49-54 | a mode is flattened if and only if it is RGBA, LA or P; RGBA is pasted through its alpha, P is converted to RGBA and then pasted the same way, and LA is pasted with no mask |
| Transcoder.DecoderFor | backend/services/image_processor.py:24-34 | the HEIF reader is used for HEIC sources and only for them |
| Transcoder.PlanEncoding | backend/services/image_processor.py:36-59 | the encode request keeps the source, resizes exactly when the width exceeds 1920, uses quality 85 for JPEG or level 6 for PNG, and flattens to RGB exactly on the JPEG path for RGBA, LA and P, each mode in its own way |
| Transcoder.JpegNeverSeesAlphaOrPalette | backend/services/image_processor.py:47-57 | no RGBA, LA or P image reaches the JPEG encoder, and any other mode reaches it unchanged |
| Transcoder.HeicEncodedAsJpeg | backend/services/image_processor.py:24-32 | a HEIC source is encoded as a JPEG at quality 85, exactly as a JPEG source is |
| Transcoder.PngNeverFlattens | backend/services/image_processor.py:58-59 | the PNG path never flattens and keeps the mode |
| Transcoder.CompressImage | backend/services/image_processor.py:20-64 | compression succeeds if and only if decoding and encoding both do, and then reports the encoder's size and the computed dimensions; a failure carries the failing step's text |
| Transcoder.HeicCompressionDecodesWithHeifReader | backend/services/image_processor.py:24-32 | a HEIC source that compresses was read by the HEIF reader and sent to the JPEG encoder |
| Database.EmptyStoreValid | backend/database.py:19-52 | the empty tables satisfy the store invariant |
| Database.CompressionRatio | backend/database.py:205 | the ratio is 0 for an empty original, at most 100 for a non-negative compressed size, non-negative when the file did not grow, and 0 when the size is unchanged |
| Database.CompressionRatioExample | backend/database.py:205 | keeping 400 of 1000 bytes is a ratio of 60, and an empty original gives 0 |
| Database.CreateAlbum | backend/database.py:120-133 | it fails with the unique-name error if and only if some row, deleted or not, has the name; otherwise it adds one active album under a fresh id and leaves the photos alone |
| Database.CreatedAlbumIsVisible | backend/database.py:83-99 | a created album can be read back with its name, description and active status |
| Database.CreatedAlbumIsEmpty | backend/database.py:120-133 | a new album has photo count 0 when every photo names an existing album |
| Database.OrphanPhotoJoinsNewAlbum | backend/database.py:198-219 | a photo recorded for a missing album id is counted in an album created later under that id |
| Database.DeletedNameStaysTaken | backend/database.py:22 | re-creating a deleted album's name fails with the unique-name error |
| Database.ApplyUpdate | backend/database.py:143-157 | only the given fields are replaced; the status and cover photo are kept |
| Database.UpdateAlbum | backend/database.py:135-165 | with no field given it succeeds and changes nothing; otherwise it reports true if and only if the album is active, and then applies the given fields to it alone; on false nothing changes; when the album is active, a new name held by another row raises the unique-name error |
| Database.UpdateAlbumFrame | backend/database.py:153-157 | an update leaves every other album alone and keeps the album's status and cover photo |
| Database.DeleteAlbum | backend/database.py:167-181 | it succeeds if and only if the album was active, then only that album's status becomes deleted; otherwise nothing changes |
| Database.DeleteAlbumTwice | backend/database.py:167-181 | a second delete of the same album reports failure and changes nothing |
| Database.DeleteAlbumKeepsPhotos | backend/database.py:172-192 | deleting an album hides it from both album queries but leaves its photos listed |
| Database.GetAlbumById | backend/database.py:83-99 | an album is found if and only if it is active, and then it is the stored row |
| Database.GetAllAlbums | backend/database.py:101-118 | the listing holds exactly the active albums |
| Database.AllAlbumsAgreeWithLookup | backend/database.py:88-114 | the listing and the single lookup agree on every album, photo count included |
| Database.GetPhotosByAlbum | backend/database.py:183-196 | the listing holds exactly the active photos naming the album, whatever the album's own status |
| Database.PhotoCountMatchesListing | backend/database.py:88-95 | `PhotoCount`, the `COUNT(p.id)` of an album, equals the number of photos its listing returns |
| Database.CreatePhoto | backend/database.py:198-219 | it adds exactly one active row under a fresh id, with the computed ratio, and changes nothing else |
| Database.CreatePhotoCounts | backend/database.py:198-219 | a new photo adds one to its album's count and leaves every other count alone |
| Database.DeletePhoto | backend/database.py:221-235 | it succeeds if and only if the photo was active, then only that photo's status becomes deleted; otherwise nothing changes |
| Database.DeletePhotoTwice | backend/database.py:221-235 | a second delete of the same photo reports failure and changes nothing |
| Database.DeletePhotoCounts | backend/database.py:221-235 | deleting a photo takes one off its album's count and no other |
| Database.GetPhotoById | backend/database.py:237-249 | a photo is found if and only if it is active, and then it is the stored row |
| Database.DeletedPhotoHidden | backend/database.py:221-249 | a deleted photo can no longer be fetched, and every other photo reads as before |
| Ingest.Place | backend/services/image_processor.py:99-105 | both storage names are plain names, and each path is its folder, one `/`, and its name |
| Ingest.ProcessFile | backend/services/image_processor.py:72-149 | a file is skipped if and only if it is missing or unnamed; a failure names the file and leaves the tables alone; an upload keeps the tables valid and reports the client's name; storage only grows |
| Ingest.ProcessNamed | backend/services/image_processor.py:79-97 | a named file is never skipped, and it keeps the same failure, upload and storage guarantees |
| Ingest.StoreFile | backend/services/image_processor.py:107-144 | saving, compressing and recording keep the same failure, upload and storage guarantees |
| Ingest.PlacementPathsDistinct | backend/services/image_processor.py:104-105 | an original and its compressed rendition never share a path |
| Ingest.UploadedOnlyAfterBothWrites | backend/services/image_processor.py:107-129 | a row is recorded only for a supported file whose save, compression and insert all succeeded; both renditions are then in storage with the recorded sizes, and the row is the only one added |
| Ingest.FailureNamesTheStep | backend/services/image_processor.py:82-149 | a failure leaves the tables alone; "Unsupported format" occurs exactly for a disallowed extension and touches nothing; "Unknown format" never occurs; any other failure is a save, compression or insert fault, in that order, carrying its exception's text; storage keeps nothing new after a save fault, the original after a compression fault, and both renditions after an insert fault |
| Ingest.SavedOriginalOutlivesFailure | backend/services/image_processor.py:107-112 | once the original is saved, a later failure leaves it in storage |
| Ingest.CompressionErrorText | backend/services/image_processor.py:146-149 | a compression failure is reported as `File <name>: Image compression failed: <cause>` |
| Ingest.ErrorTextSplits | backend/services/image_processor.py:147 | a message is `File `, the file name, `: ` and the detail, and each part can be read back |
| Ingest.DetailEndsWithCause | backend/services/image_processor.py:64 | the detail of a save, compression or insert fault ends with the exception's text, and a compression detail starts with `Image compression failed: ` |
| Ingest.UnsupportedFormatFails | backend/services/image_processor.py:82-85 | a disallowed extension fails with "Unsupported format" and changes nothing |
| Ingest.StoredPathsResolve | backend/services/image_processor.py:104-105 | the paths a record stores resolve to themselves through the file manager |
| Ingest.HeicRecordedUnderHeicName | backend/services/image_processor.py:100-121 | a HEIC upload is recorded with format HEIC under a name ending in `heic`, but was decoded by the HEIF reader and sent to the JPEG encoder |
| Ingest.PlacedNameParses | backend/services/image_processor.py:100 | the compressed name reads back as the clock reading, the draw and the format's extension |
| Ingest.SameReadingsSamePaths | backend/services/image_processor.py:99-105 | two files of one format that see the same clock readings and draws get the same paths, whatever their names |
| Ingest.ProcessFileIgnoresBlobs | backend/services/image_processor.py:72-149 | what a file does to the tables, and whether it succeeds, does not depend on what is already in storage |
| Batch.BodyConforms | backend/services/image_processor.py:72-149 | the real loop body is sound on every file and state, and its effect on the tables does not depend on storage |
| Batch.Step | backend/services/image_processor.py:134-149 | one iteration only appends: both lists keep their earlier entries, and together grow by exactly one unless the file was skipped, the photo list by one exactly when the file was uploaded |
| Batch.SkippedFileIsInvisible | backend/services/image_processor.py:75-76 | an absent or unnamed file leaves no trace: running the batch with it gives exactly what running it without it gives |
| Batch.RunRecordsOnlyUploads | backend/services/image_processor.py:72-149 | the loop keeps the tables valid, changes no album and no existing photo row, adds one row per uploaded photo, and every returned id is in the table |
| Batch.RunAccounting | backend/services/image_processor.py:72-149 | `Run`, the loop over the files: every file that is not skipped lands in exactly one of the photo list and the failure list |
| Batch.OutcomesFollowFiles | backend/services/image_processor.py:72-149 | the i-th outcome is skipped if and only if the i-th file is, and otherwise names that file |
| Batch.RunKeepsInputOrder | backend/services/image_processor.py:72-156 | the photo list and failure list are the file outcomes filtered by kind, in input order |
| Batch.FailedFileIsInvisible | backend/services/image_processor.py:146-149 | running a batch with a failing file gives the same photos and tables as running it without that file |
| Batch.FailedUploadIsInvisible | backend/services/image_processor.py:146-149 | the same isolation for the real loop body |
| Batch.ErrorTextsPointwise | backend/services/image_processor.py:146-148 | the k-th message is `File <name>: <detail>` for the k-th failure |
| Batch.ProcessUploadedPhotos | backend/services/image_processor.py:66-156 | `uploaded` is the number of photos and `failed` the number of errors; they add up to the number of files not skipped; the photos and errors are the outcomes' in order; the tables stay valid with one new row per photo |

## Left out

- PIL and pillow_heif: decoding, LANCZOS resampling, white-background compositing and encoding are the `decode` and `encode` oracles. The model fixes which decoder is called and what is asked of the encoder, but nothing about pixels or byte sizes.
- `file.save`, `os.path.getsize` and the sizes of written files are inputs. A failed save is assumed to write nothing, and a failed encode is assumed to write no compressed file.
- `time.time()` and `random.randint(1000, 9999)` are inputs. `WellFormed` keeps each draw within 1000..9999.
- Two uploads with the same names overwrite each other. Storage is a map, so a later write simply replaces an earlier one.
- The SQLite engine is not modelled: connections, triggers, `updated_at`, `created_at` and the indexes. The ORDER BY `created_at DESC` of `get_all_albums` and `get_photos_by_album` is dropped, and both return maps keyed by id. The timestamps have one-second resolution, so that order is not even total.
- The `archived` album status exists in the schema, but no operation of this core sets it.
- Database.CreatedAlbumIsEmpty: needs the extra premise that every photo names an existing album. SQLite never enforces the declared foreign key, so without it an orphan photo is counted (`Database.OrphanPhotoJoinsNewAlbum`).
- Database.CompressionRatio: computed exactly over the reals. Python's float division and the `round(..., 2)` of the batch summary are not modelled.
- Transcoder.ResizeDims: the computed target height can be 0 for a very wide, short image. The image library then refuses the resize, and `compress_image` fails that file. The `encode` oracle is not constrained to fail on a zero-height request.
- Transcoder.ResizeDims: `int(height * (1920 / width))` in floats is modelled as the exact floor of `height * 1920 / width`. The two can differ by one where the float product lands just below a whole number.
- Strings.Lower: lower-cases ASCII letters only. Among non-ASCII characters, only U+212A and U+0130 lower to ASCII letters under Python's `str.lower`, and neither can produce an allowed extension.
- Batch.Body: answers `Skipped` on states the loop never reaches (a draw out of range or an invalid store), so that it is defined everywhere.
- Batch.ProcessUploadedPhotos: keeps the failures as a list of (file name, fault) and renders the messages after the loop; the source builds the strings inside the loop, with the same text and order. `failed_uploads` is represented by that failure list.
- `ensure_directories`, `cleanup_file` and `get_file_size` are file-system calls. `cleanup_file` is never called by the pipeline, so files written before a failure stay in storage.
- `init_db` and `get_db_connection`: schema set-up and connections. Only the constraints the operations depend on are modelled: unique names, AUTOINCREMENT ids, and the status defaults.
- HTTP routes and the frontend are outside this core.

Behaviour of the code that the model keeps as it is:

- A HEIC upload is recorded with format `HEIC` and a `.heic` compressed name (image_processor.py:100, 121), although its bytes are JPEG (image_processor.py:32, 57).
- The scaled height is truncated by `int()`, not rounded (image_processor.py:42).
- Storage names are never checked for collisions or retried (image_processor.py:13-18, 100-101).
- A failure after a write leaves the written files in place (image_processor.py:146-149); nothing calls `cleanup_file`.
- An `LA` image is pasted onto white without a mask, because only `RGBA` gets one. It is modelled as its own flattening kind.
