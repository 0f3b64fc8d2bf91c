# Storage-notification image handler, modelled in Dafny

The repository is a serverless function triggered when an object is created in
a storage bucket. As shipped, its request handler (`Handler.handleRequest`)
takes the first record of the notification batch, infers an image type from
the object key with the regular expression `.*\.([^.]*)`, keeps only the types
`jpg` and `png`, and returns an object URL built by `formatS3ObjectUrl`; any
other key yields the empty string, and an empty batch raises.

The model (module `Handler` in `Handler.dfy`, with `Option` and `Result` in
`Wrappers.dfy`) replaces the SDK event types with plain values: a `Record` is
a bucket name and an already URL-decoded key, a batch is a `seq<Record>`, and
the handler is the pure function `HandleRequest`, which returns `Ok(string)`
or `Err(NoRecords)`.

Modelling decisions:

- **The regular expression.** `matches()` must consume the whole key. `[^.]*`
  cannot contain a `.`, so the literal `\.` can only be the last dot of the
  key, and group 1 is everything after it. Without the DOTALL flag, `.` in
  `java.util.regex` matches no line terminator (`\n`, `\r`, U+0085, U+2028,
  U+2029), while `[^.]` matches them. So a key with a line terminator before
  its last dot does not match at all, and one after the last dot becomes part
  of the group. `Extension` computes this through `LastDot`. The ghost
  predicate `RegexMatches` states the match declaratively, as a split at a
  dot, and `ExtensionIsRegexGroup` proves that the two agree.
- **Argument order.** `formatS3ObjectUrl(region, srcBucket, srcKey)` is
  called as `formatS3ObjectUrl(srcBucket, srcKey, "us-west-2")`. The bucket
  therefore lands where the region goes, the key where the bucket goes, and
  `us-west-2` where the key goes. The model keeps the code's order. The
  parameter names suggest `https://{bucket}.s3.{region}.amazonaws.com/{key}`,
  but the model follows the call site. `CallSiteDiffersFromParameterNames`
  shows that the two orders give different URLs.
- **URL length.** The fixed parts of the URL, `https://`, `.s3.` and
  `.amazonaws.com/`, add up to 8 + 4 + 15 = 27 characters. The URL is 27
  characters longer than its three arguments together.
- Characters are Unicode scalar values. Java strings are UTF-16, but the
  pattern only tests for `.` and for line terminators, and all of those are
  single UTF-16 units, so the two views agree.

## Model

| member | source | states |
|---|---|---|
| `Handler.IsLineTerminator` | src/main/java/com/sample/demo/Handler.java:27 | the characters that `.` in the pattern does not match (`\n`, `\r`, U+0085, U+2028, U+2029); none of them is a `.`, so `[^.]` matches every one |
| `Handler.MatchAt` | src/main/java/com/sample/demo/Handler.java:27 | a full match of the pattern with its `\.` at a given position: no line terminator before it, no `.` after it, and group 1 is the rest of the key, with no `.` in it |
| `Handler.RegexMatches` | src/main/java/com/sample/demo/Handler.java:27 | the key matches the pattern in full with the given group 1; then the key has a `.` and the group has none |
| `Handler.LastDot` | src/main/java/com/sample/demo/Handler.java:27 | the result is the position of a `.` with no `.` after it, and there is no result exactly when the key has no `.` |
| `Handler.Extension` | src/main/java/com/sample/demo/Handler.java:54-60 | the inferred type contains no `.`, is a suffix of the key, and is preceded in the key by a `.` |
| `Handler.MatchAtIsLastDot` | src/main/java/com/sample/demo/Handler.java:27 | in any full match of the pattern, the literal `\.` is the last dot of the key |
| `Handler.ExtensionIsRegexGroup` | src/main/java/com/sample/demo/Handler.java:54-60 | `Extension(key) == Some(g)` if and only if the key matches `.*\.([^.]*)` in full with group 1 equal to `g` |
| `Handler.ExtensionNoneIffNoMatch` | src/main/java/com/sample/demo/Handler.java:54-58 | there is no extension if and only if the key does not match the pattern in full, whatever the group |
| `Handler.LastDotOfSplit` | src/main/java/com/sample/demo/Handler.java:27 | in prefix + `.` + suffix, with no `.` in the suffix, the last dot is the one after the prefix |
| `Handler.ExtensionOfSplit` | src/main/java/com/sample/demo/Handler.java:54-60 | for prefix + `.` + suffix, with no `.` in the suffix, the extension is the suffix if the prefix has no line terminator, and there is none otherwise |
| `Handler.NoDotNoExtension` | src/main/java/com/sample/demo/Handler.java:54-58 | a key with no `.` does not match |
| `Handler.LineTerminatorBeforeLastDot` | src/main/java/com/sample/demo/Handler.java:54-58 | a line terminator anywhere before the last dot makes the match fail |
| `Handler.ExtensionAfterLastDot` | src/main/java/com/sample/demo/Handler.java:27 | the dot before the extension comes after every other dot of the key, so it is never the first dot of several |
| `Handler.FormatS3ObjectUrl` | src/main/java/com/sample/demo/Handler.java:114-118 | the URL starts with `https://`, ends with `srcKey`, and is 27 characters longer than its three arguments together |
| `Handler.UrlFields` | src/main/java/com/sample/demo/Handler.java:116 | the URL holds `srcBucket`, `.s3.`, `region`, `.amazonaws.com/` and `srcKey` in that order, at offsets fixed by the two field lengths |
| `Handler.UrlInjective` | src/main/java/com/sample/demo/Handler.java:114-117 | two equal URLs whose bucket and region lengths agree come from the same three arguments |
| `Handler.UrlAmbiguousWithoutLengths` | src/main/java/com/sample/demo/Handler.java:116 | without the lengths, different arguments can give the same URL: a bucket containing `.s3.` moves text into the region |
| `Handler.HandleRecord` | src/main/java/com/sample/demo/Handler.java:48-72 | the output is `""` or the URL built as at the call site; with `AcceptedIffAllowListed` it is non-empty exactly when the type is `jpg` or `png`, and with `AcceptedUrlKeepsCallSiteOrder` it is then `"https://" + key + ".s3." + bucket + ".amazonaws.com/us-west-2"` |
| `Handler.HandleRequest` | src/main/java/com/sample/demo/Handler.java:44-77 | the result is an error if and only if the batch is empty; otherwise it is the outcome for record 0 |
| `Handler.AcceptedIffAllowListed` | src/main/java/com/sample/demo/Handler.java:60-64 | the output is non-empty if and only if the extension is exactly `jpg` or `png` |
| `Handler.NoDotIsSkipped` | src/main/java/com/sample/demo/Handler.java:54-58 | a key with no `.` is skipped with `""`, not an error |
| `Handler.AcceptedUrlKeepsCallSiteOrder` | src/main/java/com/sample/demo/Handler.java:72 | an accepted record gives `"https://" + key + ".s3." + bucket + ".amazonaws.com/us-west-2"` |
| `Handler.OutcomeIsEmptyOrUrl` | src/main/java/com/sample/demo/Handler.java:55-72 | a non-empty batch never fails, and its output is either `""` or the URL built from its first record |
| `Handler.OnlyFirstRecordMatters` | src/main/java/com/sample/demo/Handler.java:46 | two non-empty batches with the same first record give the same outcome |
| `Handler.AppendingRecordsChangesNothing` | src/main/java/com/sample/demo/Handler.java:46 | appending records to a non-empty batch does not change the outcome |
| `Handler.HandleRecordOfSplit` | src/main/java/com/sample/demo/Handler.java:54-72 | a key prefix + `.` + suffix, with no `.` in the suffix, is skipped if and only if the prefix has a line terminator or the suffix is neither `jpg` nor `png` |
| `Handler.LastDotWinsExample` | src/main/java/com/sample/demo/Handler.java:27 | `a.tar.png` gives the type `png` |
| `Handler.EmptyExtensionExample` | src/main/java/com/sample/demo/Handler.java:54-63 | `a.` gives the empty type and is skipped |
| `Handler.DotFileExample` | src/main/java/com/sample/demo/Handler.java:54-72 | `.png` gives the type `png` and is accepted |
| `Handler.AllowListExamples` | src/main/java/com/sample/demo/Handler.java:61-64 | `photo.JPG`, `photo.jpeg` and `x.txt` are skipped: the comparison is exact and case-sensitive |
| `Handler.LineTerminatorBeforeDotExample` | src/main/java/com/sample/demo/Handler.java:54-58 | `a\nb.png` does not match, and the record is skipped |
| `Handler.LineTerminatorInExtensionExample` | src/main/java/com/sample/demo/Handler.java:54-63 | `b.png\n` matches with the type `png\n`, which is skipped |
| `Handler.CallSiteFieldsExample` | src/main/java/com/sample/demo/Handler.java:72 | bucket `my-bucket` with key `photo.png` gives the key in the bucket position and the bucket in the region position |
| `Handler.CallSiteExample` | src/main/java/com/sample/demo/Handler.java:44-77 | bucket `my-bucket` with key `photo.png` returns `https://photo.png.s3.my-bucket.amazonaws.com/us-west-2` |
| `Handler.CallSiteDiffersFromParameterNames` | src/main/java/com/sample/demo/Handler.java:72 | the URL as written differs from the one with the bucket as `srcBucket` and `us-west-2` as `region` |

## Left out

- The handler's constructor (Handler.java:35-41) builds the storage client and makes a warm-up network call. It has no effect on `handleRequest`'s result, so it is not modelled.
- `DependencyFactory.s3Client` reads credentials and a region from the environment to build an SDK client. It has no logic of its own.
- `getObject` and `putObject` (Handler.java:79-112) do storage I/O and call `System.exit`. They are reachable only from calls that are commented out. Their jpg/png-to-MIME mapping is not part of the active behaviour.
- URL-decoding of the key (`getUrlDecodedKey`) is an SDK call. The model takes the decoded key as its input.
- Logging (Handler.java:56, 62) has no effect on the result.
- `MAX_DIMENSION` and the two MIME-type constants are unused on the modelled path.
- Null SDK objects are left out, since SDK types are replaced by plain values. A null record list, record, `getS3()`, `getBucket()` or `getObject()` result, or a null key (through `Pattern.matcher(null)`, Handler.java:54), raises `NullPointerException`, which is wrapped the same way as the empty batch. In the model, `NoRecords` is the only error.
- A null bucket name raises nothing: it is passed as the `region` argument (Handler.java:72), and appending a null string (Handler.java:116) adds the four characters `null`. An accepted key then yields `https://<key>.s3.null.amazonaws.com/us-west-2`. The model's bucket is always a string, so this case is not represented.
- The `RuntimeException` wrapper becomes the single error value `NoRecords`. The wrapped exception's message and stack trace are not modelled.
