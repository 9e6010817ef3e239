# FileStorageAdapter: the S3 request factory, in Dafny

FileStorageAdapter gives .NET code one storage interface with two back ends,
Amazon S3 and the local file system. Nearly all of it forwards calls to the
AWS SDK or to `System.IO`. The part with logic of its own is the S3 request
factory, `AmazonS3RequestFactory`, plus `RemotePath`.

The factory is created with a bucket name. From a caller's path it builds the
SDK request for each operation: object metadata, get, put, list, delete, copy
and a pre-signed download URL. The download URL comes with or without a
replacement file name. Before a path becomes an S3 key or listing prefix, it
is normalized: every backslash becomes a forward slash, and then every leading
slash is removed. A replacement download name is cleaned by the regular
expression `[^.^\w-]`. Each character outside that class becomes a hyphen.
The cleaned name is then placed in an `attachment;filename="..."` content
disposition. `RemotePath.Normalize` converts backslashes only.

The model has four modules:

- `DotNetStrings` (`dotnet_strings.dfy`) models `string.Replace(char, char)`,
  which both core files use.
- `RemotePath` (`remote_path.dfy`) models `RemotePath.Normalize`.
- `S3Requests` (`s3_requests.dfy`) holds the SDK request records, reduced to
  the properties the factory sets. The upload stream and the expiry time are
  type parameters. The SDK enumerations are small datatypes.
- `AmazonS3` (`amazon_s3_request_factory.dfy`) models the factory.

The factory's only state is its read-only bucket name. It is a datatype
value `AmazonS3RequestFactory(bucketName)`, and each builder is a function
of that value and its arguments.

Three consequences of the code are easy to miss:

- The pattern has no quantifier, so each disallowed character becomes its
  own hyphen: `"a##b"` cleans to `"a--b"`.
- In `[^.^\w-]` the second `^` is a literal, so the class keeps `^` as well
  as word characters, `.` and `-`.
- Only `Put` sets `GenerateMD5Digest`; `Copy` does not. `Get`, `Put` and
  `Copy` all use the timeout `int.MaxValue`.

## Model

| member | source | states |
|---|---|---|
| `DotNetStrings.ReplaceCharacters` | src/proj/FileStorageAdapter/RemotePath.cs:10 | `s.Replace(old, new)` puts `new` at every position that held `old` and keeps every other character |
| `DotNetStrings.ReplaceAppend` | src/proj/FileStorageAdapter/RemotePath.cs:10 | replacement works piecewise: it distributes over concatenation |
| `RemotePath.Normalize` | src/proj/FileStorageAdapter/RemotePath.cs:8-11 | the result has no backslash and the same length; each backslash becomes '/'; every other character stays in its position |
| `RemotePath.NormalizeIdempotent` | src/proj/FileStorageAdapter/RemotePath.cs:10 | normalizing twice equals normalizing once |
| `RemotePath.NormalizeFixedPoint` | src/proj/FileStorageAdapter/RemotePath.cs:10 | a path is unchanged exactly when it holds no backslash |
| `RemotePath.NormalizeKeepsLeadingSeparator` | src/proj/FileStorageAdapter/RemotePath.cs:10 | a leading '/' or '\' comes out as a leading '/': it is not stripped |
| `AmazonS3.TrimLeadingSlash` | src/proj/FileStorageAdapter.AmazonS3/AmazonS3RequestFactory.cs:85-94 | the result is a suffix of the input; the removed prefix is all '/'; the result does not start with '/' |
| `AmazonS3.TrimLeadingSlashUnique` | src/proj/FileStorageAdapter.AmazonS3/AmazonS3RequestFactory.cs:85-94 | a run of slashes followed by a string that does not start with '/' trims to that string, so the whole run goes, not one slash |
| `AmazonS3.TrimLeadingSlashIdempotent` | src/proj/FileStorageAdapter.AmazonS3/AmazonS3RequestFactory.cs:85-94 | trimming twice equals trimming once |
| `AmazonS3.TrimLeadingSlashExamples` | src/proj/FileStorageAdapter.AmazonS3/AmazonS3RequestFactory.cs:85-94 | "a", "/a" and "//a" all trim to "a"; "///" and "" trim to "" |
| `AmazonS3.Normalize` | src/proj/FileStorageAdapter.AmazonS3/AmazonS3RequestFactory.cs:81-84 | the result contains no '\' and does not start with '/'; it is no longer than the input; the empty path gives the empty key |
| `AmazonS3.NormalizeStripsOnlySlashes` | src/proj/FileStorageAdapter.AmazonS3/AmazonS3RequestFactory.cs:81-94 | the key is a suffix of the slash-converted path, and the part cut off consists of '/' only |
| `AmazonS3.NormalizeUnique` | src/proj/FileStorageAdapter.AmazonS3/AmazonS3RequestFactory.cs:81-94 | if the converted path is slashes followed by a string without a leading '/', the key is that string |
| `AmazonS3.NormalizeIdempotent` | src/proj/FileStorageAdapter.AmazonS3/AmazonS3RequestFactory.cs:81-94 | `Normalize(Normalize(p)) == Normalize(p)` |
| `AmazonS3.NormalizeFixedPoint` | src/proj/FileStorageAdapter.AmazonS3/AmazonS3RequestFactory.cs:81-94 | `Normalize` leaves a path unchanged exactly when the path has no '\' and no leading '/' |
| `AmazonS3.NormalizeAgreesWithRemotePath` | src/proj/FileStorageAdapter.AmazonS3/AmazonS3RequestFactory.cs:83 | the factory's normalization is `TrimLeadingSlash` applied to `RemotePath.Normalize` |
| `AmazonS3.NormalizeWithoutLeadingSeparator` | src/proj/FileStorageAdapter.AmazonS3/AmazonS3RequestFactory.cs:83 | for a path that does not start with a separator, the factory's key equals `RemotePath.Normalize` of the path |
| `AmazonS3.NormalizeDropsLeadingSeparator` | src/proj/FileStorageAdapter.AmazonS3/AmazonS3RequestFactory.cs:83-94 | one leading '/' or '\' does not change the key |
| `AmazonS3.NormalizeIgnoresLeadingSeparators` | src/proj/FileStorageAdapter.AmazonS3/AmazonS3RequestFactory.cs:83-94 | any number of leading separators, of either style, does not change the key |
| `AmazonS3.NormalizeExamples` | src/proj/FileStorageAdapter.AmazonS3/AmazonS3RequestFactory.cs:81-94 | "" gives ""; "/a" and "//a" give "a" |
| `AmazonS3.NormalizeMixedSeparators` | src/proj/FileStorageAdapter.AmazonS3/AmazonS3RequestFactory.cs:83 | three separator-free segments, the first non-empty, joined by '/' then '\' (such as "path/to\\file") come out joined by '/' only ("path/to/file") |
| `AmazonS3.CleanFilename` | src/proj/FileStorageAdapter.AmazonS3/AmazonS3RequestFactory.cs:76 | the cleaned name has the input's length; a character in `[.^\w-]` stays in place; every other character becomes exactly one '-' |
| `AmazonS3.CleanFilenameUnique` | src/proj/FileStorageAdapter.AmazonS3/AmazonS3RequestFactory.cs:76 | that position-by-position description determines the cleaned name |
| `AmazonS3.CleanFilenameOnlyFilenameChars` | src/proj/FileStorageAdapter.AmazonS3/AmazonS3RequestFactory.cs:105 | a cleaned name holds only characters of the class, so it has no '"' and no ';' |
| `AmazonS3.CleanFilenameFixedPoint` | src/proj/FileStorageAdapter.AmazonS3/AmazonS3RequestFactory.cs:76 | a name is unchanged exactly when all its characters are in the class |
| `AmazonS3.CleanFilenameIdempotent` | src/proj/FileStorageAdapter.AmazonS3/AmazonS3RequestFactory.cs:76 | cleaning twice equals cleaning once |
| `AmazonS3.CleanFilenameAppend` | src/proj/FileStorageAdapter.AmazonS3/AmazonS3RequestFactory.cs:105 | the pattern matches one character at a time, so cleaning distributes over concatenation |
| `AmazonS3.CleanFilenameTestName` | src/tests/FileStorageAdapter.AmazonS3.Tests/AmazonS3RequestFactoryTests.cs:142-151 | "this+is=a#different%name$asdf.zip" cleans to "this-is-a-different-name-asdf.zip" |
| `AmazonS3.CleanFilenameKeepsRuns` | src/proj/FileStorageAdapter.AmazonS3/AmazonS3RequestFactory.cs:105 | a run of disallowed characters is not collapsed: "a##b" cleans to "a--b" |
| `AmazonS3.CleanFilenameKeepsCaret` | src/proj/FileStorageAdapter.AmazonS3/AmazonS3RequestFactory.cs:105 | '^', '.', '-' and word characters are kept: "x^y.tar-gz" is unchanged |
| `AmazonS3.ComposeResponseHeaderOverrides` | src/proj/FileStorageAdapter.AmazonS3/AmazonS3RequestFactory.cs:74-79 | the content disposition is `attachment;filename="` + cleaned name + `"`, and parsing it back yields exactly the cleaned name |
| `AmazonS3.ComposeResponseHeaderOverridesInjective` | src/proj/FileStorageAdapter.AmazonS3/AmazonS3RequestFactory.cs:74-79 | two file names give the same header exactly when they clean to the same name |
| `AmazonS3.ComposeResponseHeaderOverridesExample` | src/tests/FileStorageAdapter.AmazonS3.Tests/AmazonS3RequestFactoryTests.cs:142-151 | the test's file name gives `attachment;filename="this-is-a-different-name-asdf.zip"` |
| `AmazonS3.GetMetadata` | src/proj/FileStorageAdapter.AmazonS3/AmazonS3RequestFactory.cs:11-16 | the request names the factory's bucket and the normalized key |
| `AmazonS3.Get` | src/proj/FileStorageAdapter.AmazonS3/AmazonS3RequestFactory.cs:17-23 | factory's bucket, normalized key, timeout `int.MaxValue` |
| `AmazonS3.Put` | src/proj/FileStorageAdapter.AmazonS3/AmazonS3RequestFactory.cs:24-35 | factory's bucket, the given stream unchanged, normalized key, MD5 digest on, timeout `int.MaxValue`, AES256 server-side encryption |
| `AmazonS3.ListObjects` | src/proj/FileStorageAdapter.AmazonS3/AmazonS3RequestFactory.cs:36-44 | factory's bucket, normalized prefix, delimiter "/" |
| `AmazonS3.Delete` | src/proj/FileStorageAdapter.AmazonS3/AmazonS3RequestFactory.cs:45-50 | factory's bucket and the normalized key |
| `AmazonS3.Copy` | src/proj/FileStorageAdapter.AmazonS3/AmazonS3RequestFactory.cs:51-59 | source and destination both in the factory's bucket, both keys normalized, timeout `int.MaxValue` |
| `AmazonS3.PreSignedUrl` | src/proj/FileStorageAdapter.AmazonS3/AmazonS3RequestFactory.cs:60-68 | factory's bucket, normalized key, HTTPS, GET, `Expires` equal to the given expiration, no header override |
| `AmazonS3.PreSignedUrlWithFilename` | src/proj/FileStorageAdapter.AmazonS3/AmazonS3RequestFactory.cs:69-73 | the plain pre-signed request plus a content-disposition override that carries the cleaned file name |
| `AmazonS3.BuildersAgreeOnKey` | src/proj/FileStorageAdapter.AmazonS3/AmazonS3RequestFactory.cs:11-68 | every builder turns the same path into the same key (or list prefix) |
| `AmazonS3.EveryRequestUsesFactoryBucket` | src/proj/FileStorageAdapter.AmazonS3/AmazonS3RequestFactory.cs:96-99 | every request carries the constructor's bucket name; a copy uses it for source and destination |
| `AmazonS3.MixedSeparatorsNormalizedInEveryBuilder` | src/tests/FileStorageAdapter.AmazonS3.Tests/AmazonS3RequestFactoryTests.cs:157-186 | a path like "path/to\\file" gives the key "path/to/file" in get, put, list, delete, both copy keys and the pre-signed URL |
| `AmazonS3.KeysAreStable` | src/proj/FileStorageAdapter.AmazonS3/AmazonS3RequestFactory.cs:81-94 | a key taken from a request and passed back as a path addresses the same object |
| `AmazonS3.SeparatorStyleDoesNotMatter` | src/proj/FileStorageAdapter.AmazonS3/AmazonS3RequestFactory.cs:17-23 | paths that differ only in separator style and leading separators give the same get key |

## Left out

- The storage adapters (`AmazonS3Storage`, `AmazonS3Client`, `AmazonS3StorageBuilder`, `LocalFileStorage`), the response-stream wrapper, the `IFileSystem` seam and the exception types are not part of this model. They forward to the AWS SDK or to `System.IO` and have no logic of their own to verify. The `AmazonS3Storage.cs` of this revision is older than its callers and builds its SDK requests itself; its callers (`AmazonS3StorageBuilder.cs:10-14` and the unit tests) target a later four-argument constructor that takes the factory, so the factory is what builds the requests there.
- AmazonS3.CleanFilename: .NET's `\w` is Unicode-aware. The model's `IsWordChar` is its ASCII part only (letters, digits, '_'). A non-ASCII letter or digit is kept by .NET but becomes '-' in the model.
- AmazonS3.CleanFilename: .NET strings are UTF-16 code units, and Dafny strings are sequences of characters. A character outside the Basic Multilingual Plane is one character here but two code units in .NET, so .NET writes two hyphens where the model writes one.
- AmazonS3.TrimLeadingSlash: `path.StartsWith("/")` uses a culture-sensitive comparison in .NET. The model tests the first character exactly. A path whose leading characters are ignorable under the culture is not modelled.
- AmazonS3.TrimLeadingSlash: the source recurses once per leading slash, so a long enough run of slashes could exhaust the .NET call stack. The model has no stack limit.
- Null arguments: .NET throws for a null path or file name. Dafny strings are never null, so those exceptions are not modelled.
- The upload stream and the `DateTime` expiry are opaque type parameters. The SDK enumerations are cut down: `Protocol` and `ServerSideEncryptionMethod` keep the value the factory uses plus one other, and `HttpVerb` keeps four verbs, of which the factory uses `GET`. Request properties the factory does not set keep their SDK defaults and are not modelled.
- The builders are `virtual`, so tests can mock them. Overriding is not modelled.
