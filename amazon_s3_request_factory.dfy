/**
  `FileStorageAdapter.AmazonS3.AmazonS3RequestFactory`: builds the SDK request
  for each storage operation from a caller's path. Every key and prefix is
  normalized (forward slashes only, no leading slash), and every request
  names the bucket the factory was created with.
*/
module AmazonS3 {
  import DotNetStrings
  import RemotePath
  import opened S3Requests

  const ForwardSlash: char := '/'
  const Backslash: char := '\\'
  const Hyphen: char := '-'
  const DoubleQuote: char := '"'

  /** The text of `attachment;filename="{0}"` in front of the placeholder. */
  const DispositionPrefix: string := "attachment;filename=\""

  /** The factory holds nothing but the bucket name given to its constructor. */
  datatype AmazonS3RequestFactory = AmazonS3RequestFactory(bucketName: string)

  // ---------------------------------------------------------------------------
  // Keys

  predicate NoLeadingSlash(s: string) {
    s == [] || s[0] != ForwardSlash
  }

  predicate AllSlashes(s: string) {
    forall i :: 0 <= i < |s| ==> s[i] == ForwardSlash
  }

  /** The shape of a key the factory hands to S3. */
  predicate IsStorageKey(s: string) {
    Backslash !in s && NoLeadingSlash(s)
  }

  /**
    `TrimLeadingSlash`: the result is what is left of `path` after removing
    the whole run of '/' it starts with.
  */
  function TrimLeadingSlash(path: string): (r: string)
    ensures |r| <= |path| && r == path[|path| - |r|..]
    ensures AllSlashes(path[..|path| - |r|])
    ensures NoLeadingSlash(r)
  {
    if |path| == 0 then path
    else if path[0] != ForwardSlash then path
    else TrimLeadingSlash(path[1..])
  }

  /**
    `Normalize`: backslashes become forward slashes, then every leading
    slash is removed, so the result has the shape of a storage key.
  */
  function Normalize(path: string): (r: string)
    ensures IsStorageKey(r)
    ensures |r| <= |path|
    ensures path == [] ==> r == []
  {
    DotNetStrings.ReplaceRemoves(path, Backslash, ForwardSlash);
    TrimLeadingSlash(DotNetStrings.Replace(path, Backslash, ForwardSlash))
  }

  // ---------------------------------------------------------------------------
  // Properties of TrimLeadingSlash and Normalize

  /**
    The result of `TrimLeadingSlash` is determined by its contract: if
    `path` is a run of slashes followed by a string that does not start with
    a slash, that string is the result. So "/a" and "//a" both become "a".
  */
  lemma {:induction false} TrimLeadingSlashUnique(slashes: string, rest: string)
    requires AllSlashes(slashes) && NoLeadingSlash(rest)
    ensures TrimLeadingSlash(slashes + rest) == rest
    decreases |slashes|
  {
    if slashes == [] {
      assert slashes + rest == rest;
    } else {
      assert (slashes + rest)[1..] == slashes[1..] + rest;
      TrimLeadingSlashUnique(slashes[1..], rest);
    }
  }

  /** Trimming a trimmed string changes nothing. */
  lemma TrimLeadingSlashIdempotent(path: string)
    ensures TrimLeadingSlash(TrimLeadingSlash(path)) == TrimLeadingSlash(path)
  {
  }

  lemma TrimLeadingSlashExamples()
    ensures TrimLeadingSlash("a") == "a"
    ensures TrimLeadingSlash("/a") == "a"
    ensures TrimLeadingSlash("//a") == "a"
    ensures TrimLeadingSlash("///") == ""
    ensures TrimLeadingSlash("") == ""
  {
    TrimLeadingSlashUnique("/", "a");
    TrimLeadingSlashUnique("//", "a");
    TrimLeadingSlashUnique("///", "");
  }

  /** The factory's `Normalize` is `TrimLeadingSlash` after `RemotePath.Normalize`. */
  lemma NormalizeAgreesWithRemotePath(path: string)
    ensures Normalize(path) == TrimLeadingSlash(RemotePath.Normalize(path))
  {
  }

  /**
    What `Normalize` removes: its result is a suffix of the slash-converted
    path, and the part cut off consists of slashes only.
  */
  lemma NormalizeStripsOnlySlashes(path: string)
    ensures var converted, r := RemotePath.Normalize(path), Normalize(path);
      && |r| <= |converted|
      && r == converted[|converted| - |r|..]
      && AllSlashes(converted[..|converted| - |r|])
  {
  }

  /**
    Conversely, the result is determined by that description: once
    backslashes are converted, a leading run of slashes followed by a string
    without a leading slash normalizes to that string.
  */
  lemma NormalizeUnique(path: string, slashes: string, rest: string)
    requires DotNetStrings.Replace(path, Backslash, ForwardSlash) == slashes + rest
    requires AllSlashes(slashes) && NoLeadingSlash(rest)
    ensures Normalize(path) == rest
  {
    TrimLeadingSlashUnique(slashes, rest);
  }

  /** Normalizing a key again leaves it as it is. */
  lemma {:induction false} NormalizeIdempotent(path: string)
    ensures Normalize(Normalize(path)) == Normalize(path)
  {
    NormalizeFixedPoint(Normalize(path));
  }

  /** Exactly the storage keys are left unchanged by `Normalize`. */
  lemma {:induction false} NormalizeFixedPoint(path: string)
    ensures Normalize(path) == path <==> IsStorageKey(path)
  {
    if IsStorageKey(path) {
      DotNetStrings.ReplaceAbsentIsIdentity(path, Backslash, ForwardSlash);
      TrimLeadingSlashUnique([], path);
      assert [] + path == path;
    }
  }

  /** A leading separator of either style is dropped. */
  lemma NormalizeDropsLeadingSeparator(sep: char, path: string)
    requires sep == ForwardSlash || sep == Backslash
    ensures Normalize([sep] + path) == Normalize(path)
  {
    assert ([sep] + path)[1..] == path;
    var replaced := DotNetStrings.Replace(path, Backslash, ForwardSlash);
    assert DotNetStrings.Replace([sep] + path, Backslash, ForwardSlash) == [ForwardSlash] + replaced;
    assert ([ForwardSlash] + replaced)[1..] == replaced;
  }

  /**
    Any mix of leading separators, of either style and in any number, is
    dropped: `Normalize(seps + path) == Normalize(path)`.
  */
  lemma {:induction false} NormalizeIgnoresLeadingSeparators(seps: string, path: string)
    requires forall i :: 0 <= i < |seps| ==> seps[i] == ForwardSlash || seps[i] == Backslash
    ensures Normalize(seps + path) == Normalize(path)
  {
    if seps == [] {
      assert seps + path == path;
    } else {
      assert seps + path == [seps[0]] + (seps[1..] + path);
      NormalizeDropsLeadingSeparator(seps[0], seps[1..] + path);
      NormalizeIgnoresLeadingSeparators(seps[1..], path);
    }
  }

  lemma NormalizeExamples()
    ensures Normalize("") == ""
    ensures Normalize("/a") == "a" && Normalize("//a") == "a"
  {
    NormalizeUnique("/a", "/", "a");
    NormalizeUnique("//a", "//", "a");
  }

  /** A path that does not start with a separator only has its backslashes converted. */
  lemma NormalizeWithoutLeadingSeparator(path: string)
    requires path == [] || (path[0] != ForwardSlash && path[0] != Backslash)
    ensures Normalize(path) == RemotePath.Normalize(path)
  {
    NormalizeUnique(path, [], RemotePath.Normalize(path));
  }

  predicate NoSeparator(s: string) {
    ForwardSlash !in s && Backslash !in s
  }

  /**
    Three separator-free segments joined by '/' then '\' come out joined by
    forward slashes only: "path/to\\file" becomes "path/to/file".
  */
  lemma NormalizeMixedSeparators(a: string, b: string, c: string)
    requires NoSeparator(a) && NoSeparator(b) && NoSeparator(c) && a != []
    ensures Normalize(a + [ForwardSlash] + b + [Backslash] + c) == a + [ForwardSlash] + b + [ForwardSlash] + c
  {
    var key := a + [ForwardSlash] + b + [ForwardSlash] + c;
    ReplaceMixedPath(a, b, c);
    assert key[0] == a[0] && a[0] in a;
    assert [] + key == key;
    NormalizeUnique(a + [ForwardSlash] + b + [Backslash] + c, [], key);
  }

  lemma ReplaceMixedPath(a: string, b: string, c: string)
    requires NoSeparator(a) && NoSeparator(b) && NoSeparator(c)
    ensures DotNetStrings.Replace(a + [ForwardSlash] + b + [Backslash] + c, Backslash, ForwardSlash)
         == a + [ForwardSlash] + b + [ForwardSlash] + c
  {
    var ab := a + [ForwardSlash] + b;
    DotNetStrings.ReplaceAppend(ab, [Backslash] + c, Backslash, ForwardSlash);
    DotNetStrings.ReplaceAppend(a + [ForwardSlash], b, Backslash, ForwardSlash);
    DotNetStrings.ReplaceAppend(a, [ForwardSlash], Backslash, ForwardSlash);
    DotNetStrings.ReplaceAppend([Backslash], c, Backslash, ForwardSlash);
    DotNetStrings.ReplaceAbsentIsIdentity(a, Backslash, ForwardSlash);
    DotNetStrings.ReplaceAbsentIsIdentity(b, Backslash, ForwardSlash);
    DotNetStrings.ReplaceAbsentIsIdentity(c, Backslash, ForwardSlash);
    DotNetStrings.ReplaceAbsentIsIdentity([ForwardSlash], Backslash, ForwardSlash);
    assert DotNetStrings.Replace([Backslash], Backslash, ForwardSlash) == [ForwardSlash];
    assert a + [ForwardSlash] + b + [Backslash] + c == ab + ([Backslash] + c);
  }

  // ---------------------------------------------------------------------------
  // Download file name

  /**
    Word characters of the regular expression class `\w`, restricted to
    ASCII: letters, digits and the underscore.
  */
  predicate IsWordChar(c: char) {
    ('a' <= c <= 'z') || ('A' <= c <= 'Z') || ('0' <= c <= '9') || c == '_'
  }

  /**
    The characters kept by `NonWordCharacters`, the regular expression
    `[^.^\w-]`: a dot, a caret (the second '^' is literal), a word character
    or a hyphen. Every other character is replaced.
  */
  predicate IsFilenameChar(c: char) {
    c == '.' || c == '^' || IsWordChar(c) || c == Hyphen
  }

  /**
    `NonWordCharacters.Replace(filename, Hyphen)`: each character outside the
    class is replaced by one hyphen (the pattern matches one character at a
    time, so a run of them becomes a run of hyphens).
  */
  function CleanFilename(filename: string): (r: string)
    ensures |r| == |filename|
    ensures forall i :: 0 <= i < |filename| && IsFilenameChar(filename[i]) ==> r[i] == filename[i]
    ensures forall i :: 0 <= i < |filename| && !IsFilenameChar(filename[i]) ==> r[i] == Hyphen
  {
    if filename == [] then []
    else [if IsFilenameChar(filename[0]) then filename[0] else Hyphen] + CleanFilename(filename[1..])
  }

  /** The contract of `CleanFilename` determines its result. */
  lemma CleanFilenameUnique(filename: string, cleaned: string)
    requires |cleaned| == |filename|
    requires forall i :: 0 <= i < |filename| ==>
               cleaned[i] == (if IsFilenameChar(filename[i]) then filename[i] else Hyphen)
    ensures CleanFilename(filename) == cleaned
  {
  }

  /** A cleaned name consists of filename characters only; in particular no quote or ';'. */
  lemma CleanFilenameOnlyFilenameChars(filename: string)
    ensures forall i :: 0 <= i < |CleanFilename(filename)| ==> IsFilenameChar(CleanFilename(filename)[i])
    ensures DoubleQuote !in CleanFilename(filename) && ';' !in CleanFilename(filename)
  {
    var r := CleanFilename(filename);
    forall i | 0 <= i < |r| ensures IsFilenameChar(r[i]) {
    }
  }

  /** Exactly the names made of filename characters are left unchanged. */
  lemma CleanFilenameFixedPoint(filename: string)
    ensures CleanFilename(filename) == filename <==> forall i :: 0 <= i < |filename| ==> IsFilenameChar(filename[i])
  {
    if CleanFilename(filename) == filename {
      CleanFilenameOnlyFilenameChars(filename);
    }
  }

  /** Cleaning a cleaned name changes nothing. */
  lemma CleanFilenameIdempotent(filename: string)
    ensures CleanFilename(CleanFilename(filename)) == CleanFilename(filename)
  {
    CleanFilenameOnlyFilenameChars(filename);
    CleanFilenameFixedPoint(CleanFilename(filename));
  }

  /**
    The pattern is matched one character at a time, so cleaning works
    piecewise: it distributes over concatenation.
  */
  lemma {:induction false} CleanFilenameAppend(a: string, b: string)
    ensures CleanFilename(a + b) == CleanFilename(a) + CleanFilename(b)
  {
    if a == [] {
      assert a + b == b;
    } else {
      assert (a + b)[1..] == a[1..] + b;
      CleanFilenameAppend(a[1..], b);
    }
  }

  /**
    The download name used by the factory's tests: each character outside
    the class becomes one hyphen.
  */
  lemma CleanFilenameTestName()
    ensures CleanFilename("this+is=a#different%name$asdf.zip") == "this-is-a-different-name-asdf.zip"
  {
    CleanFilenameUnique("this+is=a#different%name$asdf.zip", "this-is-a-different-name-asdf.zip");
  }

  /** A run of replaced characters is not collapsed into one hyphen. */
  lemma CleanFilenameKeepsRuns()
    ensures CleanFilename("a##b") == "a--b"
  {
    CleanFilenameUnique("a##b", "a--b");
  }

  /** A caret is kept: the second '^' of the pattern is a literal member of the class. */
  lemma CleanFilenameKeepsCaret()
    ensures CleanFilename("x^y.tar-gz") == "x^y.tar-gz"
  {
    CleanFilenameUnique("x^y.tar-gz", "x^y.tar-gz");
  }

  /**
    Reads the file name back out of an `attachment;filename="..."` value
    whose name contains no quote.
  */
  function AttachmentFilename(contentDisposition: string): (r: Option<string>)
    ensures r.Some? ==> |contentDisposition| == |DispositionPrefix| + |r.value| + 1
    ensures r.Some? ==> DoubleQuote !in r.value
  {
    var n := |DispositionPrefix|;
    if n + 1 <= |contentDisposition|
       && contentDisposition[..n] == DispositionPrefix
       && contentDisposition[|contentDisposition| - 1] == DoubleQuote
       && DoubleQuote !in contentDisposition[n..|contentDisposition| - 1]
    then Some(contentDisposition[n..|contentDisposition| - 1])
    else None
  }

  /**
    `ComposeResponseHeaderOverrides`: the content disposition marks the
    download as an attachment and carries the cleaned name, which reads back
    unchanged because it cannot contain the closing quote.
  */
  function ComposeResponseHeaderOverrides(filename: string): (r: ResponseHeaderOverrides)
    ensures r.contentDisposition == DispositionPrefix + CleanFilename(filename) + [DoubleQuote]
    ensures AttachmentFilename(r.contentDisposition) == Some(CleanFilename(filename))
  {
    var cleanFilename := CleanFilename(filename);
    var contentDisposition := DispositionPrefix + cleanFilename + [DoubleQuote];
    CleanFilenameOnlyFilenameChars(filename);
    assert contentDisposition[..|DispositionPrefix|] == DispositionPrefix;
    assert contentDisposition[|DispositionPrefix|..|contentDisposition| - 1] == cleanFilename;
    ResponseHeaderOverrides(contentDisposition)
  }

  /** Two file names give the same header exactly when they clean to the same name. */
  lemma ComposeResponseHeaderOverridesInjective(a: string, b: string)
    ensures ComposeResponseHeaderOverrides(a) == ComposeResponseHeaderOverrides(b)
            <==> CleanFilename(a) == CleanFilename(b)
  {
    if ComposeResponseHeaderOverrides(a) == ComposeResponseHeaderOverrides(b) {
      assert AttachmentFilename(ComposeResponseHeaderOverrides(a).contentDisposition)
          == AttachmentFilename(ComposeResponseHeaderOverrides(b).contentDisposition);
    }
  }

  lemma ComposeResponseHeaderOverridesExample()
    ensures ComposeResponseHeaderOverrides("this+is=a#different%name$asdf.zip").contentDisposition
            == DispositionPrefix + "this-is-a-different-name-asdf.zip" + [DoubleQuote]
  {
    CleanFilenameTestName();
  }

  // ---------------------------------------------------------------------------
  // Request builders

  function GetMetadata(factory: AmazonS3RequestFactory, path: string): (r: GetObjectMetadataRequest)
    ensures r.bucketName == factory.bucketName
    ensures r.key == Normalize(path) && IsStorageKey(r.key)
  {
    GetObjectMetadataRequest(factory.bucketName, Normalize(path))
  }

  function Get(factory: AmazonS3RequestFactory, path: string): (r: GetObjectRequest)
    ensures r.bucketName == factory.bucketName
    ensures r.key == Normalize(path) && IsStorageKey(r.key)
    ensures r.timeout == IntMaxValue
  {
    GetObjectRequest(factory.bucketName, Normalize(path), IntMaxValue)
  }

  function Put<Stream>(factory: AmazonS3RequestFactory, input: Stream, path: string): (r: PutObjectRequest<Stream>)
    ensures r.bucketName == factory.bucketName
    ensures r.inputStream == input
    ensures r.key == Normalize(path) && IsStorageKey(r.key)
    ensures r.generateMD5Digest
    ensures r.timeout == IntMaxValue
    ensures r.serverSideEncryptionMethod == AES256
  {
    PutObjectRequest(factory.bucketName, input, Normalize(path), true, IntMaxValue, AES256)
  }

  function ListObjects(factory: AmazonS3RequestFactory, location: string): (r: ListObjectsRequest)
    ensures r.bucketName == factory.bucketName
    ensures r.prefix == Normalize(location) && IsStorageKey(r.prefix)
    ensures r.delimiter == [ForwardSlash]
  {
    ListObjectsRequest(factory.bucketName, Normalize(location), [ForwardSlash])
  }

  function Delete(factory: AmazonS3RequestFactory, path: string): (r: DeleteObjectRequest)
    ensures r.bucketName == factory.bucketName
    ensures r.key == Normalize(path) && IsStorageKey(r.key)
  {
    DeleteObjectRequest(factory.bucketName, Normalize(path))
  }

  function Copy(factory: AmazonS3RequestFactory, source: string, destination: string): (r: CopyObjectRequest)
    ensures r.sourceBucket == factory.bucketName && r.destinationBucket == factory.bucketName
    ensures r.sourceKey == Normalize(source) && IsStorageKey(r.sourceKey)
    ensures r.destinationKey == Normalize(destination) && IsStorageKey(r.destinationKey)
    ensures r.timeout == IntMaxValue
  {
    CopyObjectRequest(factory.bucketName, Normalize(source), factory.bucketName, Normalize(destination), IntMaxValue)
  }

  function PreSignedUrl<DateTime>(factory: AmazonS3RequestFactory, path: string, expiration: DateTime)
    : (r: GetPreSignedUrlRequest<DateTime>)
    ensures r.bucketName == factory.bucketName
    ensures r.key == Normalize(path) && IsStorageKey(r.key)
    ensures r.protocol == HTTPS && r.verb == GET
    ensures r.expires == expiration
    ensures r.responseHeaderOverrides == None
  {
    GetPreSignedUrlRequest(Normalize(path), HTTPS, factory.bucketName, expiration, GET, None)
  }

  /**
    The overload with a file name: the plain pre-signed request, plus a
    content disposition that carries the cleaned file name.
  */
  function PreSignedUrlWithFilename<DateTime>(
    factory: AmazonS3RequestFactory, path: string, filename: string, expiration: DateTime)
    : (r: GetPreSignedUrlRequest<DateTime>)
    ensures r.responseHeaderOverrides.Some?
    ensures r.(responseHeaderOverrides := None) == PreSignedUrl(factory, path, expiration)
    ensures AttachmentFilename(r.responseHeaderOverrides.value.contentDisposition) == Some(CleanFilename(filename))
  {
    PreSignedUrl(factory, path, expiration).(responseHeaderOverrides := Some(ComposeResponseHeaderOverrides(filename)))
  }

  // ---------------------------------------------------------------------------
  // Properties across builders

  /**
    Every builder uses the same key for the same path, so an object written
    by `Put` is the one `Get`, `Delete`, `Copy`, `ListObjects` and the
    pre-signed URL address.
  */
  lemma BuildersAgreeOnKey<Stream, DateTime>(
    factory: AmazonS3RequestFactory, input: Stream, path: string, filename: string, expiration: DateTime)
    ensures GetMetadata(factory, path).key == Get(factory, path).key == Put(factory, input, path).key
    ensures Get(factory, path).key == Delete(factory, path).key == ListObjects(factory, path).prefix
    ensures Get(factory, path).key == Copy(factory, path, path).sourceKey == Copy(factory, path, path).destinationKey
    ensures Get(factory, path).key == PreSignedUrl(factory, path, expiration).key
    ensures Get(factory, path).key == PreSignedUrlWithFilename(factory, path, filename, expiration).key
  {
  }

  /** Every request names the factory's bucket; a copy stays within it. */
  lemma EveryRequestUsesFactoryBucket<Stream, DateTime>(
    factory: AmazonS3RequestFactory, input: Stream, path: string, other: string,
    filename: string, expiration: DateTime)
    ensures GetMetadata(factory, path).bucketName == factory.bucketName
    ensures Get(factory, path).bucketName == factory.bucketName
    ensures Put(factory, input, path).bucketName == factory.bucketName
    ensures ListObjects(factory, path).bucketName == factory.bucketName
    ensures Delete(factory, path).bucketName == factory.bucketName
    ensures Copy(factory, path, other).sourceBucket == Copy(factory, path, other).destinationBucket == factory.bucketName
    ensures PreSignedUrl(factory, path, expiration).bucketName == factory.bucketName
    ensures PreSignedUrlWithFilename(factory, path, filename, expiration).bucketName == factory.bucketName
  {
  }

  /**
    A path with mixed separators, such as "path/to\\file", reaches S3 with
    forward slashes only ("path/to/file") through every builder.
  */
  lemma MixedSeparatorsNormalizedInEveryBuilder<Stream, DateTime>(
    factory: AmazonS3RequestFactory, input: Stream, expiration: DateTime, a: string, b: string, c: string)
    requires NoSeparator(a) && NoSeparator(b) && NoSeparator(c) && a != []
    ensures var mixed, key := a + [ForwardSlash] + b + [Backslash] + c, a + [ForwardSlash] + b + [ForwardSlash] + c;
      && Get(factory, mixed).key == key
      && Put(factory, input, mixed).key == key
      && ListObjects(factory, mixed).prefix == key
      && Delete(factory, mixed).key == key
      && Copy(factory, mixed, mixed).sourceKey == key
      && Copy(factory, mixed, mixed).destinationKey == key
      && PreSignedUrl(factory, mixed, expiration).key == key
  {
    NormalizeMixedSeparators(a, b, c);
  }

  /**
    A key taken from one request can be passed back as a path: it addresses
    the same object.
  */
  lemma {:induction false} KeysAreStable<Stream>(factory: AmazonS3RequestFactory, input: Stream, path: string)
    ensures Get(factory, Put(factory, input, path).key).key == Put(factory, input, path).key
    ensures Delete(factory, Copy(factory, path, path).sourceKey).key == Copy(factory, path, path).sourceKey
    ensures ListObjects(factory, ListObjects(factory, path).prefix).prefix == ListObjects(factory, path).prefix
  {
    NormalizeIdempotent(path);
  }

  /**
    Paths that differ only in separator style and leading separators produce
    the same object key.
  */
  lemma SeparatorStyleDoesNotMatter(factory: AmazonS3RequestFactory, seps: string, path: string, other: string)
    requires forall i :: 0 <= i < |seps| ==> seps[i] == ForwardSlash || seps[i] == Backslash
    requires RemotePath.Normalize(path) == RemotePath.Normalize(other)
    ensures Get(factory, seps + path).key == Get(factory, other).key
  {
    NormalizeIgnoresLeadingSeparators(seps, path);
  }
}
