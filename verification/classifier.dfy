/** Extension-based format classification of an upload
    (backend/services/image_processor.py, `process_uploaded_photos`).
    Only the file name is consulted; the bytes are never sniffed. */
module Classifier {
  import opened Formats
  import Config
  import Strings
  import Paths

  /** The three outcomes the code distinguishes: a supported format, an
      extension outside the allowed set, and a last-resort "unknown" branch. */
  datatype Classification = Supported(format: Format) | UnsupportedFormat | UnknownFormat

  /** `s.lstrip('.')`. */
  function LStripDots(s: string): (r: string)
    ensures r == [] || r[0] != '.'
    ensures |r| <= |s| && r == s[|s| - |r|..]
    ensures forall i :: 0 <= i < |s| - |r| ==> s[i] == '.'
  {
    if s != [] && s[0] == '.' then LStripDots(s[1..]) else s
  }

  /** Lower-casing keeps the "no dot after the first character, no separator"
      shape of a split-off extension. */
  lemma LowerKeepsExtensionShape(ext: string)
    requires ext == [] || (ext[0] == '.' && '.' !in ext[1..] && '/' !in ext)
    ensures '/' !in Strings.Lower(ext)
    ensures ext != [] ==> Strings.Lower(ext)[0] == '.' && '.' !in Strings.Lower(ext)[1..]
  {
    var lowered := Strings.Lower(ext);
    forall i | 0 <= i < |ext|
      ensures lowered[i] != '/'
      ensures 0 < i ==> lowered[i] != '.'
    {
      Strings.LowerCharFixes(ext[i], '.');
      Strings.LowerCharFixes(ext[i], '/');
      if 0 < i {
        assert ext[i] == ext[1..][i - 1];
      }
    }
  }

  /** `os.path.splitext(filename)[1].lower().lstrip('.')`. */
  function Extension(filename: string): (e: string)
    ensures '.' !in e && '/' !in e
  {
    LowerKeepsExtensionShape(Paths.SplitExt(filename).1);
    LStripDots(Strings.Lower(Paths.SplitExt(filename).1))
  }

  /** The classification as the code performs it: first the allowed-set test,
      then the per-format chain with its final "unknown" fallback. */
  function ClassifyExtension(ext: string): (c: Classification)
    ensures c != UnknownFormat
    ensures c == UnsupportedFormat <==> ext !in Config.AllowedExtensions
  {
    if ext !in Config.AllowedExtensions then UnsupportedFormat
    else if ext == "heic" || ext == "heif" then Supported(HEIC)
    else if ext == "jpg" || ext == "jpeg" then Supported(JPEG)
    else if ext == "png" then Supported(PNG)
    else UnknownFormat
  }

  function Classify(filename: string): (c: Classification)
    ensures c != UnknownFormat
    ensures c == UnsupportedFormat <==> Extension(filename) !in Config.AllowedExtensions
  {
    ClassifyExtension(Extension(filename))
  }

  /** Reference table: the extensions that denote each format. */
  function ExtensionsOf(f: Format): (exts: set<string>)
    ensures exts <= Config.AllowedExtensions
  {
    match f
    case PNG => {"png"}
    case JPEG => {"jpg", "jpeg"}
    case HEIC => {"heic", "heif"}
  }

  /** The table partitions the allowed extensions. */
  lemma ExtensionTableCoversAllowed()
    ensures ExtensionsOf(PNG) + ExtensionsOf(JPEG) + ExtensionsOf(HEIC) == Config.AllowedExtensions
    ensures ExtensionsOf(PNG) !! ExtensionsOf(JPEG)
    ensures ExtensionsOf(PNG) !! ExtensionsOf(HEIC)
    ensures ExtensionsOf(JPEG) !! ExtensionsOf(HEIC)
  {
  }

  /** An extension is accepted as format `f` exactly when it is one of `f`'s
      extensions. */
  lemma ClassifyExtensionMatchesTable(ext: string, f: Format)
    ensures ClassifyExtension(ext) == Supported(f) <==> ext in ExtensionsOf(f)
  {
    match f
    case PNG =>
      assert ClassifyExtension(ext) == Supported(PNG) <==> ext == "png";
    case JPEG =>
      assert ClassifyExtension(ext) == Supported(JPEG) <==> ext == "jpg" || ext == "jpeg";
    case HEIC =>
      assert ClassifyExtension(ext) == Supported(HEIC) <==> ext == "heic" || ext == "heif";
  }

  /** A file is accepted as format `f` exactly when its extension is one of
      `f`'s extensions. */
  lemma ClassifyMatchesTable(filename: string, f: Format)
    ensures Classify(filename) == Supported(f) <==> Extension(filename) in ExtensionsOf(f)
  {
    ClassifyExtensionMatchesTable(Extension(filename), f);
  }

  /** Classification ignores ASCII case: names that agree once lower-cased
      are classified alike. */
  lemma ClassifyCaseInsensitive(a: string, b: string)
    requires Strings.Lower(a) == Strings.Lower(b)
    ensures Classify(a) == Classify(b)
  {
    Paths.SplitExtLower(a);
    Paths.SplitExtLower(b);
    Strings.LowerIdempotent(Paths.SplitExt(a).1);
    Strings.LowerIdempotent(Paths.SplitExt(b).1);
    assert Strings.Lower(Paths.SplitExt(a).1) == Strings.Lower(Paths.SplitExt(b).1);
    assert Extension(a) == Extension(b);
  }

  /** Only the last extension counts: `holiday.tar.PNG` is a PNG and
      `image.png.txt` is rejected. */
  lemma {:induction false} ExtensionIsLastSuffix(stem: string, ext: string)
    requires '.' !in ext && '/' !in ext
    requires stem != [] && stem[|stem| - 1] != '.' && stem[|stem| - 1] != '/'
    ensures Extension(stem + "." + ext) == Strings.Lower(ext)
  {
    Paths.SplitExtLastDot(stem, ext);
    var lowered := Strings.Lower("." + ext);
    assert lowered == "." + Strings.Lower(ext);
    assert lowered[1..] == Strings.Lower(ext);
    forall i | 0 <= i < |ext| ensures Strings.Lower(ext)[i] != '.' {
      Strings.LowerCharFixes(ext[i], '.');
    }
  }

  /** An upper-case extension is accepted. */
  lemma ClassifyUpperCaseExample()
    ensures Classify("IMG_0001.HEIC") == Supported(HEIC)
  {
    assert "IMG_0001" + "." + "HEIC" == "IMG_0001.HEIC";
    ExtensionIsLastSuffix("IMG_0001", "HEIC");
    assert Strings.Lower("HEIC") == "heic";
    assert ClassifyExtension("heic") == Supported(HEIC);
  }

  /** A dot-file has no extension at all, so `.png` is rejected. */
  lemma ClassifyDotFileExample()
    ensures Classify(".png") == UnsupportedFormat
  {
    assert ".png"[0] == '.' && ".png"[1] == 'p' && ".png"[2] == 'n' && ".png"[3] == 'g';
    assert Paths.RFind(".png", '.') == 0;
    assert Paths.SplitExt(".png").1 == "";
    assert Extension(".png") == "";
  }
}
