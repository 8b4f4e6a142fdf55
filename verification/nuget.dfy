/**
 * The values the registry receives from the NuGet client library. Parsing,
 * version normalisation and archive reading belong to that library and are
 * not part of this model: they appear here as the values they produce.
 */
module NuGet {
  import opened Common

  /**
   * A parsed version. `normalized` is what the library's ToNormalizedString
   * gives for it; the model assumes nothing about how it is computed, so
   * `1.0` and `1.0.0` may share a normalized form.
   */
  datatype NuGetVersion = NuGetVersion(original: string, normalized: string)

  /** The canonical text of a version, used by both stores as part of a key. */
  function ToNormalizedString(version: NuGetVersion): string
  {
    version.normalized
  }

  /** A package id together with its version. */
  datatype PackageIdentity = PackageIdentity(id: string, version: NuGetVersion)

  /**
   * What a PackageArchiveReader yields for one archive: its identity, and the
   * nuspec and readme streams, `None` when the reader throws for that entry.
   */
  datatype PackageArchive = PackageArchive(
    identity: PackageIdentity,
    nuspec: Option<Bytes>,
    readme: Option<Bytes>)

  /** A readable, seekable stream: its whole content and the current position. */
  datatype Stream = Stream(content: Bytes, position: nat)

  /** `Seek(offset, SeekOrigin.Begin)`. */
  function Seek(s: Stream, offset: nat): Stream
  {
    s.(position := offset)
  }

  /** What `CopyToAsync` transfers: everything from the current position on. */
  function CopyToEnd(s: Stream): Bytes
  {
    if s.position <= |s.content| then s.content[s.position..] else []
  }

  /** Rewinding before copying transfers the entire stream, wherever it stood. */
  function CopyFromStart(s: Stream): (r: Bytes)
    ensures r == s.content
  {
    CopyToEnd(Seek(s, 0))
  }

  /** A stream that was read part-way and is not rewound loses its head. */
  lemma CopyWithoutSeekLosesPrefix(s: Stream)
    requires 0 < s.position <= |s.content|
    ensures CopyToEnd(s) != CopyFromStart(s)
  {
    assert |CopyToEnd(s)| == |s.content| - s.position;
  }
}
