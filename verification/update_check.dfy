/** Deciding whether a formula has an update (`check_formula_update`,
    scripts/check_updates.py:104-141). The PyPI request is replaced by its
    decoded answer, and `packaging.version.Version` by two parameters: `parse`
    (`None` where the constructor raises) and `le` (`<=` on parsed versions). */
module UpdateCheck {
  import opened Wrappers
  import opened PyPI
  import opened FormulaReader

  /** `UpdateInfo` */
  datatype UpdateInfo = UpdateInfo(
    formula: string,
    pypiName: string,
    currentVersion: string,
    latestVersion: string,
    tarballUrl: string,
    sha256: string)

  /** The `try`/`except` comparison: with both versions parsed, `latest <= current`;
      when either fails to parse, plain string equality. The same version is
      never newer, as long as `le` holds between its parse and itself. */
  predicate NotNewer<K>(current: string, latest: string, parse: string -> Option<K>, le: (K, K) -> bool)
    ensures && latest == current
            && (parse(current).Some? ==> le(parse(current).value, parse(current).value))
            ==> NotNewer(current, latest, parse, le)
  {
    match (parse(current), parse(latest))
    case (Some(c), Some(l)) => le(l, c)
    case _ => latest == current
  }

  function CheckUpdate<K>(info: FormulaInfo, doc: Option<Release>, parse: string -> Option<K>, le: (K, K) -> bool)
    : (r: Option<UpdateInfo>)
    ensures doc.None? ==> r.None?
    ensures (&& doc.Some? && parse(info.version).Some? && parse(doc.value.version).Some?
             && le(parse(doc.value.version).value, parse(info.version).value)) ==> r.None?
    ensures (&& doc.Some? && (parse(info.version).None? || parse(doc.value.version).None?)
             && doc.value.version == info.version) ==> r.None?
    ensures r.Some? ==> r.value.formula == info.name && r.value.pypiName == info.pypiName
                        && r.value.currentVersion == info.version
    ensures r.Some? ==> r.value.latestVersion == doc.value.version
    ensures r.Some? ==> r.value.tarballUrl != []
    ensures r.Some? ==> exists k :: 0 <= k < |doc.value.urls| && IsSdistTarball(doc.value.urls[k])
                          && (forall j :: 0 <= j < k ==> !IsSdistTarball(doc.value.urls[j]))
                          && r.value.tarballUrl == doc.value.urls[k].url
                          && r.value.sha256 == doc.value.urls[k].sha256
    ensures (&& doc.Some? && !NotNewer(info.version, doc.value.version, parse, le)
             && exists k :: 0 <= k < |doc.value.urls| && IsSdistTarball(doc.value.urls[k])
                  && doc.value.urls[k].url != []
                  && forall j :: 0 <= j < k ==> !IsSdistTarball(doc.value.urls[j]))
            ==> r.Some?
  {
    match doc
    case None => None
    case Some(release) =>
      if NotNewer(info.version, release.version, parse, le) then None
      else
        match FirstSdist(release.urls)
        case None => None
        case Some(k) =>
          var entry := release.urls[k];
          if entry.url == [] then None
          else Some(UpdateInfo(info.name, info.pypiName, info.version, release.version, entry.url, entry.sha256))
  }

  /** An upstream that reports exactly the formula's version never yields an
      update, provided `le` is reflexive. */
  lemma SameVersionIsNoUpdate<K>(info: FormulaInfo, release: Release, parse: string -> Option<K>, le: (K, K) -> bool)
    requires forall k :: le(k, k)
    requires release.version == info.version
    ensures CheckUpdate(info, Some(release), parse, le).None?
  {
    match parse(info.version)
    case Some(c) => assert le(c, c);
    case None =>
  }
}
