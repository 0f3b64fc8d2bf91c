/**
 * Model of the storage-notification handler (Handler.handleRequest): take the
 * first record of a batch, infer the image type from the object key with the
 * pattern `.*\.([^.]*)`, keep only the types "jpg" and "png", and format an
 * object URL from the record, with the arguments in the order the call site
 * passes them.
 */
module Handler {
  import opened Wrappers

  /** One notification record: the bucket name and the already URL-decoded object key. */
  datatype Record = Record(bucket: string, key: string)

  /** The one way handleRequest fails: the batch has no record at index 0, so
      `get(0)` throws and the handler rethrows it wrapped as a runtime error. */
  datatype Error = NoRecords

  /** The allow-listed image types, compared exactly (case-sensitive). */
  const JpgType: string := "jpg"
  const PngType: string := "png"

  /** The string literal the call site passes as the third argument of formatS3ObjectUrl. */
  const CallSiteLiteral: string := "us-west-2"

  // ---------------------------------------------------------------------------
  // The pattern `.*\.([^.]*)`, matched against the whole key
  // ---------------------------------------------------------------------------

  /** The line terminators of java.util.regex; without the DOTALL flag `.` matches none of them. */
  predicate IsLineTerminator(c: char)
    // no line terminator is a '.', so `[^.]` accepts every one of them
    ensures IsLineTerminator(c) ==> c != '.'
  {
    c == '\n' || c == '\r' || c == '\U{85}' || c == '\U{2028}' || c == '\U{2029}'
  }

  /** No character of `s` is a line terminator, so `.*` can consume all of `s`. */
  predicate NoLineTerminator(s: string) {
    forall j :: 0 <= j < |s| ==> !IsLineTerminator(s[j])
  }

  /** Reference semantics of a full match with the literal `\.` at position `i`:
      `.*` covers key[..i], `\.` is key[i], and group 1 `[^.]*` covers the rest. */
  ghost predicate MatchAt(key: string, i: int, group: string)
    ensures MatchAt(key, i, group) ==> |group| == |key| - i - 1 && '.' !in group
  {
    && 0 <= i < |key|
    && NoLineTerminator(key[..i])
    && key[i] == '.'
    && (forall j :: i < j < |key| ==> key[j] != '.')
    && group == key[i + 1..]
  }

  /** `key` matches `.*\.([^.]*)` in full, and group 1 is `group`. */
  ghost predicate RegexMatches(key: string, group: string)
    ensures RegexMatches(key, group) ==> '.' in key && '.' !in group
  {
    exists i :: MatchAt(key, i, group)
  }

  /** The position of the last '.' in `s`, if there is one. */
  function LastDot(s: string): (r: Option<nat>)
    ensures r.Some? ==> r.value < |s| && s[r.value] == '.'
    ensures r.Some? ==> forall j :: r.value < j < |s| ==> s[j] != '.'
    ensures r.None? <==> '.' !in s
  {
    if |s| == 0 then None
    else if s[|s| - 1] == '.' then Some(|s| - 1)
    else LastDot(s[..|s| - 1])
  }

  /** `matcher.matches()` followed by `matcher.group(1)` (Handler.java:54-60):
      the text after the last '.', provided no line terminator precedes that dot. */
  function Extension(key: string): (ext: Option<string>)
    ensures ext.Some? ==> '.' !in ext.value
    ensures ext.Some? ==> |ext.value| < |key| && key[|key| - |ext.value| - 1] == '.'
    ensures ext.Some? ==> key[|key| - |ext.value|..] == ext.value
  {
    match LastDot(key)
    case None => None
    case Some(i) => if NoLineTerminator(key[..i]) then Some(key[i + 1..]) else None
  }

  /** The only place the regex can put its `\.` is the last dot of the key. */
  lemma MatchAtIsLastDot(key: string, i: int, group: string)
    requires MatchAt(key, i, group)
    ensures LastDot(key) == Some(i)
  {
  }

  /** Extension returns exactly group 1 of a full match of `.*\.([^.]*)`. */
  lemma ExtensionIsRegexGroup(key: string, group: string)
    ensures Extension(key) == Some(group) <==> RegexMatches(key, group)
  {
    if Extension(key) == Some(group) {
      var i := LastDot(key).value;
      assert MatchAt(key, i, group);
    }
    if RegexMatches(key, group) {
      var i :| MatchAt(key, i, group);
      MatchAtIsLastDot(key, i, group);
    }
  }

  /** Extension has no result exactly when the pattern does not match the key. */
  lemma ExtensionNoneIffNoMatch(key: string)
    ensures Extension(key).None? <==> forall g :: !RegexMatches(key, g)
  {
    if Extension(key).Some? {
      ExtensionIsRegexGroup(key, Extension(key).value);
    } else {
      forall g ensures !RegexMatches(key, g) {
        ExtensionIsRegexGroup(key, g);
      }
    }
  }

  /** In prefix, dot, suffix with no dot in the suffix, that dot is the last one. */
  lemma {:induction false} LastDotOfSplit(prefix: string, ext: string)
    requires '.' !in ext
    ensures LastDot(prefix + "." + ext) == Some(|prefix|)
  {
    var key := prefix + "." + ext;
    if ext != [] {
      var init := ext[..|ext| - 1];
      assert ext == init + [ext[|ext| - 1]];
      assert key[..|key| - 1] == prefix + "." + init;
      LastDotOfSplit(prefix, init);
    }
  }

  /** For prefix, dot, suffix with no dot in the suffix: the extension is the suffix
      when the prefix has no line terminator, and there is none otherwise. */
  lemma ExtensionOfSplit(prefix: string, ext: string)
    requires '.' !in ext
    ensures Extension(prefix + "." + ext) == if NoLineTerminator(prefix) then Some(ext) else None
  {
    var key := prefix + "." + ext;
    LastDotOfSplit(prefix, ext);
    assert key[..|prefix|] == prefix;
    assert key[|prefix| + 1..] == ext;
  }

  /** A key without a '.' has no extension. */
  lemma NoDotNoExtension(key: string)
    requires '.' !in key
    ensures Extension(key) == None
  {
  }

  /** A line terminator anywhere before the last dot defeats `.*`, so there is no extension. */
  lemma LineTerminatorBeforeLastDot(key: string, j: nat)
    requires LastDot(key).Some? && j < LastDot(key).value
    requires IsLineTerminator(key[j])
    ensures Extension(key) == None
  {
    assert key[..LastDot(key).value][j] == key[j];
  }

  /** The extension never contains a '.', so it is never what follows an earlier dot:
      whatever follows the extension's dot is the whole extension. */
  lemma ExtensionAfterLastDot(key: string, i: nat)
    requires i < |key| && key[i] == '.'
    requires Extension(key).Some?
    ensures |key| - |Extension(key).value| - 1 >= i
  {
  }

  // ---------------------------------------------------------------------------
  // formatS3ObjectUrl
  // ---------------------------------------------------------------------------

  /** `formatS3ObjectUrl(region, srcBucket, srcKey)` (Handler.java:114-118): one chain of appends. */
  function FormatS3ObjectUrl(region: string, srcBucket: string, srcKey: string): (url: string)
    ensures |url| == |srcBucket| + |region| + |srcKey| + 27
    ensures url[..8] == "https://"
    ensures url[|url| - |srcKey|..] == srcKey
  {
    "https://" + srcBucket + ".s3." + region + ".amazonaws.com/" + srcKey
  }

  /** Every field of the URL sits at a fixed offset determined by the field lengths. */
  lemma UrlFields(region: string, srcBucket: string, srcKey: string)
    ensures var url := FormatS3ObjectUrl(region, srcBucket, srcKey);
            var b, r := |srcBucket|, |region|;
            && url[8..8 + b] == srcBucket
            && url[8 + b..12 + b] == ".s3."
            && url[12 + b..12 + b + r] == region
            && url[12 + b + r..27 + b + r] == ".amazonaws.com/"
            && url[27 + b + r..] == srcKey
  {
  }

  /** Given the bucket and region lengths, the URL determines all three arguments. */
  lemma UrlInjective(region: string, srcBucket: string, srcKey: string,
                     region': string, srcBucket': string, srcKey': string)
    requires FormatS3ObjectUrl(region, srcBucket, srcKey) == FormatS3ObjectUrl(region', srcBucket', srcKey')
    requires |srcBucket| == |srcBucket'| && |region| == |region'|
    ensures region == region' && srcBucket == srcBucket' && srcKey == srcKey'
  {
    UrlFields(region, srcBucket, srcKey);
    UrlFields(region', srcBucket', srcKey');
  }

  /** Without the lengths the URL is ambiguous: a bucket containing ".s3." shifts the region. */
  lemma UrlAmbiguousWithoutLengths()
    ensures FormatS3ObjectUrl("c", "a.s3.b", "k") == FormatS3ObjectUrl("b.s3.c", "a", "k")
  {
  }

  // ---------------------------------------------------------------------------
  // handleRequest
  // ---------------------------------------------------------------------------

  /** The body of handleRequest once the record is in hand (Handler.java:48-72). */
  function HandleRecord(rec: Record): (out: string)
    // the two outcomes: skipped, or the URL as the call site builds it
    ensures out == "" || out == FormatS3ObjectUrl(rec.bucket, rec.key, CallSiteLiteral)
  {
    match Extension(rec.key)
    case None => ""
    case Some(imageType) =>
      if imageType != JpgType && imageType != PngType then ""
      else FormatS3ObjectUrl(rec.bucket, rec.key, CallSiteLiteral)
  }

  /** `handleRequest` (Handler.java:44-77): only record 0 is read; an empty batch is an error. */
  function HandleRequest(records: seq<Record>): (r: Result<string, Error>)
    ensures r.Err? <==> records == []
    ensures r.Ok? ==> r.value == HandleRecord(records[0])
  {
    if |records| == 0 then Err(NoRecords) else Ok(HandleRecord(records[0]))
  }

  /** The allow-list is exact: the output is non-empty iff the extension is "jpg" or "png". */
  lemma AcceptedIffAllowListed(rec: Record)
    ensures HandleRecord(rec) != "" <==> Extension(rec.key) in {Some(JpgType), Some(PngType)}
  {
  }

  /** A key with no '.' is skipped with an empty result, not an error. */
  lemma NoDotIsSkipped(rec: Record)
    requires '.' !in rec.key
    ensures HandleRecord(rec) == ""
  {
    NoDotNoExtension(rec.key);
  }

  /** An accepted record gives the URL with the key in the bucket position and the
      bucket in the region position, ending in the literal "us-west-2". */
  lemma AcceptedUrlKeepsCallSiteOrder(rec: Record)
    requires HandleRecord(rec) != ""
    ensures HandleRecord(rec) == "https://" + rec.key + ".s3." + rec.bucket + ".amazonaws.com/us-west-2"
  {
  }

  /** Every outcome of a non-empty batch is "" or the URL built from its first record. */
  lemma OutcomeIsEmptyOrUrl(records: seq<Record>)
    requires records != []
    ensures HandleRequest(records).Ok?
    ensures var out := HandleRequest(records).value;
            out == "" || out == FormatS3ObjectUrl(records[0].bucket, records[0].key, CallSiteLiteral)
  {
  }

  /** Two batches that share their first record give the same outcome. */
  lemma OnlyFirstRecordMatters(records: seq<Record>, others: seq<Record>)
    requires records != [] && others != [] && records[0] == others[0]
    ensures HandleRequest(records) == HandleRequest(others)
  {
  }

  /** Appending records to a non-empty batch never changes the outcome. */
  lemma AppendingRecordsChangesNothing(records: seq<Record>, more: seq<Record>)
    requires records != []
    ensures HandleRequest(records + more) == HandleRequest(records)
  {
    OnlyFirstRecordMatters(records + more, records);
  }

  // ---------------------------------------------------------------------------
  // Worked examples
  // ---------------------------------------------------------------------------

  /** A record whose key splits as prefix, dot, suffix is skipped exactly when the
      suffix is not on the allow-list or the prefix holds a line terminator. */
  lemma HandleRecordOfSplit(bucket: string, prefix: string, ext: string)
    requires '.' !in ext
    ensures HandleRecord(Record(bucket, prefix + "." + ext)) == ""
        <==> !NoLineTerminator(prefix) || (ext != JpgType && ext != PngType)
  {
    ExtensionOfSplit(prefix, ext);
    AcceptedIffAllowListed(Record(bucket, prefix + "." + ext));
  }

  /** The example keys, each split at its last dot. Proved apart from the
      examples, so that each literal is compared in a context of its own. */
  lemma ExampleKeySplits()
    ensures "a.tar.png" == "a.tar" + "." + "png"
    ensures "a." == "a" + "." + ""
    ensures ".png" == "" + "." + "png"
    ensures "photo.JPG" == "photo" + "." + "JPG"
    ensures "photo.jpeg" == "photo" + "." + "jpeg"
    ensures "photo.png" == "photo" + "." + "png"
    ensures "x.txt" == "x" + "." + "txt"
    ensures "a\nb.png" == "a\nb" + "." + "png"
    ensures "b.png\n" == "b" + "." + "png\n"
  {
  }

  /** "a.tar.png" gives "png": the last dot wins. */
  lemma LastDotWinsExample()
    ensures Extension("a.tar.png") == Some("png")
  {
    ExampleKeySplits();
    ExtensionOfSplit("a.tar", "png");
  }

  /** "a." gives the empty extension, so the record is skipped. */
  lemma EmptyExtensionExample()
    ensures Extension("a.") == Some("")
    ensures HandleRecord(Record("b", "a.")) == ""
  {
    ExampleKeySplits();
    HandleRecordOfSplit("b", "a", "");
  }

  /** ".png" gives "png" with an empty prefix, so the record is accepted. */
  lemma DotFileExample()
    ensures Extension(".png") == Some("png")
    ensures HandleRecord(Record("b", ".png")) != ""
  {
    ExampleKeySplits();
    HandleRecordOfSplit("b", "", "png");
  }

  /** The comparison is case-sensitive and exact: "photo.JPG", "photo.jpeg" and
      "x.txt" are skipped. */
  lemma AllowListExamples()
    ensures HandleRecord(Record("b", "photo.JPG")) == ""
    ensures HandleRecord(Record("b", "photo.jpeg")) == ""
    ensures HandleRecord(Record("b", "x.txt")) == ""
  {
    ExampleKeySplits();
    HandleRecordOfSplit("b", "photo", "JPG");
    HandleRecordOfSplit("b", "photo", "jpeg");
    HandleRecordOfSplit("b", "x", "txt");
  }

  /** A line terminator before the last dot stops the match. */
  lemma LineTerminatorBeforeDotExample()
    ensures Extension("a\nb.png") == None
    ensures HandleRecord(Record("b", "a\nb.png")) == ""
  {
    ExampleKeySplits();
    assert IsLineTerminator("a\nb"[1]);
    HandleRecordOfSplit("b", "a\nb", "png");
  }

  /** A line terminator after the last dot becomes part of the extension, which
      then fails the allow-list. */
  lemma LineTerminatorInExtensionExample()
    ensures Extension("b.png\n") == Some("png\n")
    ensures HandleRecord(Record("b", "b.png\n")) == ""
  {
    ExampleKeySplits();
    HandleRecordOfSplit("b", "b", "png\n");
  }

  /** Bucket "my-bucket" with key "photo.png" is accepted, and the key takes the
      bucket's place in the URL. */
  lemma CallSiteFieldsExample()
    ensures HandleRecord(Record("my-bucket", "photo.png"))
         == "https://" + "photo.png" + ".s3." + "my-bucket" + ".amazonaws.com/" + "us-west-2"
  {
    ExampleKeySplits();
    ExtensionOfSplit("photo", "png");
  }

  /** The fields of the example URL, joined, are the literal it is quoted as.
      Long literals are compared one concatenation at a time. */
  lemma CallSiteUrlLiteral()
    ensures "https://" + "photo.png" + ".s3." + "my-bucket" + ".amazonaws.com/" + "us-west-2"
         == "https://photo.png.s3.my-bucket.amazonaws.com/us-west-2"
  {
    assert "https://" + "photo.png" == "https://photo.png";
    assert "https://photo.png" + ".s3." == "https://photo.png.s3.";
    assert "https://photo.png.s3." + "my-bucket" == "https://photo.png.s3.my-bucket";
    assert "https://photo.png.s3.my-bucket" + ".amazonaws.com/"
        == "https://photo.png.s3.my-bucket.amazonaws.com/";
    assert "https://photo.png.s3.my-bucket.amazonaws.com/" + "us-west-2"
        == "https://photo.png.s3.my-bucket.amazonaws.com/us-west-2";
  }

  /** The same example as one literal: handleRequest returns
      "https://photo.png.s3.my-bucket.amazonaws.com/us-west-2". */
  lemma CallSiteExample()
    ensures HandleRequest([Record("my-bucket", "photo.png")])
         == Ok("https://photo.png.s3.my-bucket.amazonaws.com/us-west-2")
  {
    assert HandleRequest([Record("my-bucket", "photo.png")])
        == Ok("https://" + "photo.png" + ".s3." + "my-bucket" + ".amazonaws.com/" + "us-west-2") by {
      CallSiteFieldsExample();
    }
    CallSiteUrlLiteral();
  }

  /** The URL as written differs from the one the parameter names suggest
      (bucket in the bucket position, "us-west-2" in the region position). */
  lemma CallSiteDiffersFromParameterNames()
    ensures HandleRecord(Record("my-bucket", "photo.png"))
         != FormatS3ObjectUrl(CallSiteLiteral, "my-bucket", "photo.png")
  {
    var asWritten := FormatS3ObjectUrl("my-bucket", "photo.png", CallSiteLiteral);
    var named := FormatS3ObjectUrl(CallSiteLiteral, "my-bucket", "photo.png");
    assert HandleRecord(Record("my-bucket", "photo.png")) == asWritten by {
      CallSiteFieldsExample();
    }
    assert asWritten[8] == 'p' by {
      UrlFields("my-bucket", "photo.png", CallSiteLiteral);
      assert asWritten[8] == "photo.png"[0];
    }
    assert named[8] == 'm' by {
      UrlFields(CallSiteLiteral, "my-bucket", "photo.png");
      assert named[8] == "my-bucket"[0];
    }
  }
}
