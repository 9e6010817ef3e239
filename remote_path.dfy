/**
  `FileStorageAdapter.RemotePath`: turns a caller's path into one that uses
  forward slashes only. Unlike the S3 request factory it keeps leading
  slashes.
*/
module RemotePath {
  import DotNetStrings

  const Backslash: char := '\\'
  const ForwardSlash: char := '/'

  /** `RemotePath.Normalize`: every backslash becomes a forward slash. */
  function Normalize(path: string): (r: string)
    ensures Backslash !in r
    ensures |r| == |path|
    ensures forall i :: 0 <= i < |path| && path[i] != Backslash ==> r[i] == path[i]
    ensures forall i :: 0 <= i < |path| && path[i] == Backslash ==> r[i] == ForwardSlash
  {
    DotNetStrings.ReplaceCharacters(path, Backslash, ForwardSlash);
    DotNetStrings.ReplaceRemoves(path, Backslash, ForwardSlash);
    DotNetStrings.Replace(path, Backslash, ForwardSlash)
  }

  /** Normalizing twice is the same as normalizing once. */
  lemma NormalizeIdempotent(path: string)
    ensures Normalize(Normalize(path)) == Normalize(path)
  {
    DotNetStrings.ReplaceAbsentIsIdentity(Normalize(path), Backslash, ForwardSlash);
  }

  /** A path already free of backslashes is returned unchanged, and only such a path. */
  lemma NormalizeFixedPoint(path: string)
    ensures Normalize(path) == path <==> Backslash !in path
  {
    if Backslash !in path {
      DotNetStrings.ReplaceAbsentIsIdentity(path, Backslash, ForwardSlash);
    }
  }

  /** Leading slashes survive: a path starting with '/' or '\' starts with '/' afterwards. */
  lemma NormalizeKeepsLeadingSeparator(path: string)
    requires path != [] && (path[0] == ForwardSlash || path[0] == Backslash)
    ensures Normalize(path) != [] && Normalize(path)[0] == ForwardSlash
  {
  }
}
