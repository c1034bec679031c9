/** The download endpoint's path rewriting: a requested path names a
    storage bucket by its first segment, and is mapped to the bucket, the
    object path inside it, and the file name offered to the browser. */
module Downloads {
  import opened Common
  import opened Strings

  const CvBucket: string := "hojas-vida"
  const DocsBucket: string := "documentos"
  const CvPrefix: string := "hojas-vida/"
  const DocsPrefix: string := "documentos/"
  const DoubledCvPrefix: string := "hojas-vida/hojas-vida/"

  /** Where a download is fetched from and the name it is saved under. */
  datatype Download = Download(bucket: string, path: string, filename: string)

  /** `name` is what follows the last '/' of `path`, or all of `path` when
      it has none. */
  predicate FileNameOf(path: string, name: string) {
    && |name| <= |path|
    && path[|path| - |name|..] == name
    && (|name| < |path| ==> path[|path| - |name| - 1] == '/')
  }

  /** The object `path` in `bucket`, offered under its last segment. */
  function Located(bucket: string, path: string): (d: Download)
    ensures d.bucket == bucket && d.path == path
    ensures '/' !in d.filename && d.filename == LastSegment(path, '/')
    ensures FileNameOf(path, d.filename)
  {
    LastSegmentIsTail(path, '/');
    Download(bucket, path, LastSegment(path, '/'))
  }

  /** The object path of a CV: a doubled 'hojas-vida/' prefix is rewritten
      to a single one (first occurrence only), and the prefix is kept. */
  function CvObjectPath(filePath: string): (path: string)
    requires StartsWith(filePath, CvPrefix)
    ensures StartsWith(path, CvPrefix)
    ensures !StartsWith(filePath, DoubledCvPrefix) ==> path == filePath
    ensures StartsWith(filePath, DoubledCvPrefix) ==> path == filePath[|CvPrefix|..]
  {
    var rest := if StartsWith(filePath, DoubledCvPrefix)
                then ReplaceFirst(filePath, DoubledCvPrefix, "")
                else ReplaceFirst(filePath, CvPrefix, "");
    assert StartsWith(filePath, DoubledCvPrefix) ==> CvPrefix + rest == filePath[|CvPrefix|..] by {
      if StartsWith(filePath, DoubledCvPrefix) {
        assert filePath[|CvPrefix|..][..|CvPrefix|] == CvPrefix;
      }
    }
    assert (CvPrefix + rest)[..|CvPrefix|] == CvPrefix;
    CvPrefix + rest
  }

  /** The object path of a document: the 'documentos/' prefix is dropped. */
  function DocsObjectPath(filePath: string): (path: string)
    requires StartsWith(filePath, DocsPrefix)
    ensures DocsPrefix + path == filePath
  {
    ReplaceFirst(filePath, DocsPrefix, "")
  }

  /** Resolves a requested path. Only paths under 'hojas-vida/' or
      'documentos/' are accepted. A CV path keeps its 'hojas-vida/' prefix,
      which is also the object path's prefix inside that bucket, and a
      doubled prefix is taken as one; a document path loses its prefix. */
  function ResolveDownload(filePath: string): (r: Result<Download>)
    ensures r.Err? <==> filePath == "" || (!StartsWith(filePath, CvPrefix) && !StartsWith(filePath, DocsPrefix))
    ensures r.Err? ==> r.failure == InvalidPath && Status(r.failure) == 400
    ensures r.Ok? && StartsWith(filePath, CvPrefix) ==>
              r.value.bucket == CvBucket && StartsWith(r.value.path, CvPrefix)
    ensures r.Ok? && StartsWith(filePath, CvPrefix) && !StartsWith(filePath, DoubledCvPrefix) ==>
              r.value.path == filePath
    ensures r.Ok? && StartsWith(filePath, DoubledCvPrefix) ==>
              r.value.path == filePath[|CvPrefix|..]
    ensures r.Ok? && !StartsWith(filePath, CvPrefix) ==>
              r.value.bucket == DocsBucket && DocsPrefix + r.value.path == filePath
    ensures r.Ok? ==> '/' !in r.value.filename && r.value.filename == LastSegment(r.value.path, '/')
    ensures r.Ok? ==> FileNameOf(r.value.path, r.value.filename)
  {
    if filePath == "" || (!StartsWith(filePath, CvPrefix) && !StartsWith(filePath, DocsPrefix)) then
      Err(InvalidPath)
    else if StartsWith(filePath, CvPrefix) then
      Ok(Located(CvBucket, CvObjectPath(filePath)))
    else
      Ok(Located(DocsBucket, DocsObjectPath(filePath)))
  }

  /** Prefixing once a path that lacks the prefix gives a path with it
      once but not twice. */
  lemma PrefixedOnce(rest: string)
    requires !StartsWith(rest, CvPrefix)
    ensures StartsWith(CvPrefix + rest, CvPrefix)
    ensures !StartsWith(CvPrefix + rest, DoubledCvPrefix)
  {
    var once := CvPrefix + rest;
    assert once[..|CvPrefix|] == CvPrefix;
    assert |rest| >= |CvPrefix| ==> rest[..|CvPrefix|] == once[|CvPrefix|..|DoubledCvPrefix|];
    assert DoubledCvPrefix[|CvPrefix|..] == CvPrefix;
  }

  /** Prefixing any path twice gives a path with the doubled prefix whose
      tail after one prefix is the path prefixed once. */
  lemma PrefixedTwice(rest: string)
    ensures StartsWith(CvPrefix + CvPrefix + rest, DoubledCvPrefix)
    ensures (CvPrefix + CvPrefix + rest)[|CvPrefix|..] == CvPrefix + rest
  {
    var twice := CvPrefix + CvPrefix + rest;
    assert twice[..|DoubledCvPrefix|] == DoubledCvPrefix;
  }

  /** A CV requested with the prefix once or twice names the same object,
      whose path carries the prefix once. */
  lemma DoubledPrefixSameObject(rest: string)
    requires !StartsWith(rest, CvPrefix)
    ensures ResolveDownload(CvPrefix + rest) == Ok(Download(CvBucket, CvPrefix + rest, LastSegment(CvPrefix + rest, '/')))
    ensures ResolveDownload(CvPrefix + CvPrefix + rest) == ResolveDownload(CvPrefix + rest)
  {
    PrefixedOnce(rest);
    PrefixedTwice(rest);
    assert CvObjectPath(CvPrefix + rest) == CvPrefix + rest;
    assert CvObjectPath(CvPrefix + CvPrefix + rest) == CvPrefix + rest;
  }

  /** Only one copy of the prefix is dropped: a path with the prefix three
      times resolves to an object path that still carries it twice. */
  lemma TripledPrefixKeepsTwo(rest: string)
    ensures ResolveDownload(CvPrefix + CvPrefix + CvPrefix + rest).Ok?
    ensures ResolveDownload(CvPrefix + CvPrefix + CvPrefix + rest).value.path == CvPrefix + CvPrefix + rest
  {
    PrefixedTwice(CvPrefix + rest);
    assert CvPrefix + CvPrefix + (CvPrefix + rest) == CvPrefix + CvPrefix + CvPrefix + rest;
    assert CvPrefix + (CvPrefix + rest) == CvPrefix + CvPrefix + rest;
  }

  /** A document stored under a plain name is offered under that name. */
  lemma DocumentNameRoundTrip(name: string)
    requires '/' !in name
    ensures ResolveDownload(DocsPrefix + name) == Ok(Download(DocsBucket, name, name))
  {
    var p := DocsPrefix + name;
    assert StartsWith(p, DocsPrefix);
    assert !StartsWith(p, CvPrefix) by {
      assert p[0] == 'd';
    }
    assert Split(name, '/') == [name];
  }
}
