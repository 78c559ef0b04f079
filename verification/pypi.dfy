/** The parts of a PyPI JSON document the scripts read, and the choice of the
    source archive among a release's files. The HTTP request itself is not
    modelled: a fetched and decoded document is passed in as a value, and a
    failed fetch as `None`. */
module PyPI {
  import opened Wrappers
  import opened Text

  /** One entry of the document's `urls` list: `packagetype`, `filename`,
      `url` and `digests["sha256"]`. */
  datatype FileEntry = FileEntry(packageType: string, filename: string, url: string, sha256: string)

  /** A decoded document: `info["version"]` and `urls`. */
  datatype Release = Release(version: string, urls: seq<FileEntry>)

  /** A source archive's location and digest. */
  datatype Tarball = Tarball(url: string, sha256: string)

  /** The entry is a source distribution packed as `.tar.gz`. */
  predicate IsSdistTarball(e: FileEntry) {
    e.packageType == "sdist" && EndsWith(e.filename, ".tar.gz")
  }

  /** The index of the first qualifying entry at or after `from`. */
  function FirstSdistFrom(urls: seq<FileEntry>, from: nat): (r: Option<nat>)
    requires from <= |urls|
    ensures r.Some? ==> from <= r.value < |urls| && IsSdistTarball(urls[r.value])
    ensures r.Some? ==> forall k :: from <= k < r.value ==> !IsSdistTarball(urls[k])
    ensures r.None? ==> forall k :: from <= k < |urls| ==> !IsSdistTarball(urls[k])
    decreases |urls| - from
  {
    if from == |urls| then None
    else if IsSdistTarball(urls[from]) then Some(from)
    else FirstSdistFrom(urls, from + 1)
  }

  /** The loop over `urls` that stops at the first sdist `.tar.gz` entry. */
  function FirstSdist(urls: seq<FileEntry>): (r: Option<nat>)
    ensures r.Some? ==> r.value < |urls| && IsSdistTarball(urls[r.value])
    ensures r.Some? ==> forall k :: 0 <= k < r.value ==> !IsSdistTarball(urls[k])
    ensures r.None? ==> forall k :: 0 <= k < |urls| ==> !IsSdistTarball(urls[k])
  {
    FirstSdistFrom(urls, 0)
  }

  /** `get_tarball_info` after its request: `None` when the fetch failed or
      no entry qualifies, otherwise the first qualifying entry's url and digest. */
  function TarballInfo(doc: Option<Release>): (r: Option<Tarball>)
    ensures r.Some? <==> doc.Some? && exists k :: 0 <= k < |doc.value.urls| && IsSdistTarball(doc.value.urls[k])
    ensures r.Some? ==> var k := FirstSdist(doc.value.urls).value;
                        r.value == Tarball(doc.value.urls[k].url, doc.value.urls[k].sha256)
  {
    match doc
    case None => None
    case Some(release) =>
      match FirstSdist(release.urls)
      case None => None
      case Some(k) => Some(Tarball(release.urls[k].url, release.urls[k].sha256))
  }
}
