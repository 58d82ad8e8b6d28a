/** Storage-name generation (backend/services/image_processor.py,
    `generate_filename`). The clock reading and the random draw are inputs:
    `timestamp` is `int(time.time())` and `randomSuffix` is the value of
    `random.randint(1000, 9999)`. */
module Naming {
  import opened Results
  import opened Formats
  import Strings

  /** `file_format.lower()`: the extension a storage name ends with. */
  function FormatExtension(f: Format): (ext: string)
    ensures ext != [] && '.' !in ext && '/' !in ext && '_' !in ext
  {
    match f
    case PNG => "png"
    case JPEG => "jpeg"
    case HEIC => "heic"
  }

  /** The extension is the lower-cased format name. */
  lemma FormatExtensionIsLowerName(f: Format)
    ensures FormatExtension(f) == Strings.Lower(Name(f))
  {
  }

  /** `generate_filename(original_filename, file_format)`. The original name is
      accepted but plays no part in the result (its sanitised form is computed
      and then discarded). */
  function GenerateFilename(originalFilename: string, fileFormat: Format, timestamp: nat, randomSuffix: nat): (r: string)
    requires 1000 <= randomSuffix <= 9999
    ensures '/' !in r
    ensures |r| == 6 + |Strings.Decimal(timestamp)| + 1 + 4 + 1 + |FormatExtension(fileFormat)|
    ensures r[..6] == "photo_"
    ensures r[|r| - |FormatExtension(fileFormat)| - 1..] == "." + FormatExtension(fileFormat)
  {
    Strings.DecimalFourDigits(randomSuffix);
    "photo_" + Strings.Decimal(timestamp) + "_" + Strings.Decimal(randomSuffix) + "." + FormatExtension(fileFormat)
  }

  /** The fields a storage name is built from. */
  datatype StorageName = StorageName(timestamp: nat, suffix: nat, extension: string)

  /** `s.find(c)`: the index of the first `c` in `s`, or -1. */
  function Find(s: string, c: char): (i: int)
    ensures -1 <= i < |s|
    ensures i >= 0 ==> s[i] == c && forall j :: 0 <= j < i ==> s[j] != c
    ensures i < 0 ==> c !in s
  {
    if s == [] then -1
    else if s[0] == c then 0
    else var k := Find(s[1..], c); if k < 0 then -1 else k + 1
  }

  lemma FindAfter(a: string, c: char, b: string)
    requires c !in a
    ensures Find(a + [c] + b, c) == |a|
  {
    var s := a + [c] + b;
    assert s[|a|] == c;
    assert forall j :: 0 <= j < |a| ==> s[j] == a[j];
  }

  /** Reads a storage name back into its fields: `photo_`, decimal timestamp,
      `_`, decimal suffix, `.`, extension. */
  function ParseStorageName(s: string): Option<StorageName> {
    if |s| < 6 || s[..6] != "photo_" then None else ParseFields(s[6..])
  }

  /** The part of a storage name after its `photo_` prefix. */
  function ParseFields(rest: string): Option<StorageName> {
    var i := Find(rest, '_');
    if i < 0 then None
    else
      var stamp := rest[..i];
      var after := rest[i + 1..];
      var j := Find(after, '.');
      if j < 0 then None
      else
        var suffix := after[..j];
        if stamp == [] || suffix == [] || !Strings.AllDigits(stamp) || !Strings.AllDigits(suffix) then None
        else Some(StorageName(Strings.DecimalValue(stamp), Strings.DecimalValue(suffix), after[j + 1..]))
  }

  lemma NoDigitIs(d: string, c: char)
    requires Strings.AllDigits(d) && !Strings.IsDigit(c)
    ensures c !in d
  {
  }

  lemma {:induction false} ParseFieldsOf(d1: string, d2: string, e: string)
    requires d1 != [] && d2 != [] && Strings.AllDigits(d1) && Strings.AllDigits(d2)
    ensures ParseFields(d1 + ['_'] + (d2 + ['.'] + e))
            == Some(StorageName(Strings.DecimalValue(d1), Strings.DecimalValue(d2), e))
  {
    var rest := d1 + ['_'] + (d2 + ['.'] + e);
    NoDigitIs(d1, '_');
    FindAfter(d1, '_', d2 + ['.'] + e);
    assert rest[..|d1|] == d1;
    var after := rest[|d1| + 1..];
    assert after == d2 + ['.'] + e;
    NoDigitIs(d2, '.');
    FindAfter(d2, '.', e);
    assert after[..|d2|] == d2;
    assert after[|d2| + 1..] == e;
  }

  /** Every generated name can be read back into the clock reading, the random
      suffix and the format it was made from. */
  lemma {:induction false} GenerateFilenameRoundTrip(original: string, f: Format, timestamp: nat, randomSuffix: nat)
    requires 1000 <= randomSuffix <= 9999
    ensures ParseStorageName(GenerateFilename(original, f, timestamp, randomSuffix))
            == Some(StorageName(timestamp, randomSuffix, FormatExtension(f)))
  {
    var d1 := Strings.Decimal(timestamp);
    var d2 := Strings.Decimal(randomSuffix);
    var s := GenerateFilename(original, f, timestamp, randomSuffix);
    var rest := d1 + ['_'] + (d2 + ['.'] + FormatExtension(f));
    assert s == "photo_" + rest;
    assert s[6..] == rest;
    ParseFieldsOf(d1, d2, FormatExtension(f));
    Strings.DecimalRoundTrip(timestamp);
    Strings.DecimalRoundTrip(randomSuffix);
  }

  /** Names differ whenever the clock reading, the suffix or the format differs;
      conversely the original file name never matters. */
  lemma GenerateFilenameInjective(o1: string, f1: Format, t1: nat, r1: nat, o2: string, f2: Format, t2: nat, r2: nat)
    requires 1000 <= r1 <= 9999 && 1000 <= r2 <= 9999
    ensures GenerateFilename(o1, f1, t1, r1) == GenerateFilename(o2, f2, t2, r2) <==> t1 == t2 && r1 == r2 && f1 == f2
  {
    GenerateFilenameRoundTrip(o1, f1, t1, r1);
    GenerateFilenameRoundTrip(o2, f2, t2, r2);
    if GenerateFilename(o1, f1, t1, r1) == GenerateFilename(o2, f2, t2, r2) {
      assert FormatExtension(f1) == FormatExtension(f2);
    }
  }

  /** Two uploads of the same format named in the same second that draw the
      same suffix get the same storage name, whatever they were called;
      nothing detects this. */
  lemma SameSecondSameSuffixCollide(o1: string, o2: string, f: Format, timestamp: nat, randomSuffix: nat)
    requires 1000 <= randomSuffix <= 9999
    ensures GenerateFilename(o1, f, timestamp, randomSuffix) == GenerateFilename(o2, f, timestamp, randomSuffix)
  {
  }

  /** A concrete name. The clock reading is deliberately small, far below a
      real `int(time.time())`, so that its decimal rendering unfolds in a few
      steps; a ten-digit reading is rendered by the same function. */
  lemma GenerateFilenameExample()
    ensures GenerateFilename("My Holiday.JPG", JPEG, 170, 4821) == "photo_170_4821.jpeg"
  {
    assert Strings.Decimal(4821) == "4821";
    assert Strings.Decimal(170) == "170";
    assert FormatExtension(JPEG) == "jpeg";
    assert "photo_" + "170" + "_" + "4821" + "." + "jpeg" == "photo_170_4821.jpeg";
  }
}
