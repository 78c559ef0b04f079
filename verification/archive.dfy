/** The last path segment of a source-archive URL, `/<name>-<version>.tar.gz`,
    as the two URL patterns of the scripts read it:
      `/([a-zA-Z0-9_-]+)-(\d+\.\d+(?:\.\d+)?(?:\.\w+)?)\.tar\.gz$`  (scripts/check_updates.py:57)
      `/([a-zA-Z0-9_-]+)-[\d.]+\.tar\.gz$`                          (scripts/update_formulas.py:129)
    Neither name nor version may contain '/', and the version may not contain
    '-', so a match can only start at the last '/' and split at the last '-':
    the greedy, backtracking search has exactly one candidate. */
module Archive {
  import opened Wrappers
  import opened Text

  /** `t$` without MULTILINE: `t` ends the text, or is followed only by one final newline. */
  predicate Anchored(u: string, t: string) {
    EndsWith(u, t) || EndsWith(u, t + "\n")
  }

  /** The text `/<name>-<version>.tar.gz`. */
  function TailText(name: string, version: string): string {
    "/" + name + "-" + version + ".tar.gz"
  }

  datatype Tail = Tail(name: string, version: string)

  /** The index of the last `c` in `s`. */
  function LastIndex(s: string, c: char): (r: Option<nat>)
    ensures r.Some? ==> r.value < |s| && s[r.value] == c
    ensures r.Some? ==> forall k :: r.value < k < |s| ==> s[k] != c
    ensures r.None? ==> c !in s
  {
    if |s| == 0 then None
    else if s[|s| - 1] == c then Some(|s| - 1)
    else LastIndex(s[..|s| - 1], c)
  }

  /** `u` without one final newline: the text a `$` anchor sees the end of. */
  function Unterminated(u: string): string {
    if EndsWith(u, "\n") then u[..|u| - 1] else u
  }

  /** Splits the last path segment of `u` at its last '-', after dropping a
      final newline and the `.tar.gz` suffix; no character classes are checked. */
  function ArchiveTail(u: string): (r: Option<Tail>)
    ensures r.Some? ==> Anchored(u, TailText(r.value.name, r.value.version))
    ensures r.Some? ==> '/' !in r.value.name && '/' !in r.value.version && '-' !in r.value.version
  {
    var v := Unterminated(u);
    if !EndsWith(v, ".tar.gz") then None
    else
      var stem := v[..|v| - 7];
      match LastIndex(stem, '/')
      case None => None
      case Some(p) =>
        var file := stem[p + 1..];
        match LastIndex(file, '-')
        case None => None
        case Some(d) =>
          TailLayout(u, stem[..p], file[..d], file[d + 1..]);
          Some(Tail(file[..d], file[d + 1..]))
  }

  lemma TailLayout(u: string, pre: string, name: string, version: string)
    requires EndsWith(Unterminated(u), ".tar.gz")
    requires Unterminated(u)[..|Unterminated(u)| - 7] == pre + "/" + name + "-" + version
    ensures Anchored(u, TailText(name, version))
  {
    var v := Unterminated(u);
    var t := TailText(name, version);
    assert v == v[..|v| - 7] + ".tar.gz";
    assert v == pre + t;
    assert EndsWith(v, t) by {
      assert v[|v| - |t|..] == t;
    }
    if EndsWith(u, "\n") {
      assert u == v + "\n";
      assert u[|u| - |t| - 1..] == t + "\n";
    }
  }

  /** Every split of an anchored tail with a '/'-free name and a '/'- and
      '-'-free version is the one `ArchiveTail` finds. */
  lemma ArchiveTailComplete(u: string, name: string, version: string)
    requires Anchored(u, TailText(name, version))
    requires '/' !in name && '/' !in version && '-' !in version
    ensures ArchiveTail(u) == Some(Tail(name, version))
  {
    var t := TailText(name, version);
    UnterminatedEnds(u, t);
    StemOf(Unterminated(u), name, version);
    TailSplits(u, Unterminated(u)[..|Unterminated(u)| - |t|], name, version);
  }

  /** A text ending in the tail is a `.tar.gz` file whose stem ends in `/<name>-<version>`. */
  lemma StemOf(v: string, name: string, version: string)
    requires EndsWith(v, TailText(name, version))
    ensures EndsWith(v, ".tar.gz")
    ensures v[..|v| - 7] == v[..|v| - |TailText(name, version)|] + "/" + name + "-" + version
  {
    var t := TailText(name, version);
    var pre := v[..|v| - |t|];
    var file := "/" + name + "-" + version;
    assert t == file + ".tar.gz";
    assert v == pre + file + ".tar.gz" by {
      assert v == pre + v[|v| - |t|..];
    }
    assert v[|v| - 7..] == ".tar.gz";
    assert v[..|v| - 7] == pre + file;
  }

  /** The converse of `TailLayout`: the stem's last '/' and last '-' are the given ones. */
  lemma TailSplits(u: string, pre: string, name: string, version: string)
    requires EndsWith(Unterminated(u), ".tar.gz")
    requires Unterminated(u)[..|Unterminated(u)| - 7] == pre + "/" + name + "-" + version
    requires '/' !in name && '/' !in version && '-' !in version
    ensures ArchiveTail(u) == Some(Tail(name, version))
  {
    FileSplits(pre, name, version);
  }

  /** In `pre/name-version`, the last '/' ends `pre` and the last '-' of what
      follows ends `name`. */
  lemma FileSplits(pre: string, name: string, version: string)
    requires '/' !in name && '/' !in version && '-' !in version
    ensures var stem := pre + "/" + name + "-" + version;
            && LastIndex(stem, '/') == Some(|pre|)
            && stem[|pre| + 1..] == name + "-" + version
            && LastIndex(name + "-" + version, '-') == Some(|name|)
            && (name + "-" + version)[..|name|] == name
            && (name + "-" + version)[|name| + 1..] == version
  {
    var file := name + "-" + version;
    assert pre + "/" + name + "-" + version == pre + ['/'] + file;
    assert '/' !in file;
    LastSeparator(pre, '/', file);
    assert file == name + ['-'] + version;
    LastSeparator(name, '-', version);
  }

  lemma UnterminatedEnds(u: string, t: string)
    requires Anchored(u, t) && |t| > 0 && t[|t| - 1] != '\n'
    ensures EndsWith(Unterminated(u), t)
  {
    if EndsWith(u, t + "\n") {
      assert u[|u| - 1] == '\n';
      assert Unterminated(u) == u[..|u| - 1];
      assert u[|u| - 1 - |t|..|u| - 1] == (t + "\n")[..|t|];
    } else {
      assert u[|u| - 1] == t[|t| - 1];
    }
  }

  lemma LastIndexIs(s: string, c: char, i: nat)
    requires i < |s| && s[i] == c
    requires forall k :: i < k < |s| ==> s[k] != c
    ensures LastIndex(s, c) == Some(i)
  {
    var r := LastIndex(s, c);
    assert r.Some?;
    assert r.value <= i;
  }

  /** In `x + [c] + y` with no `c` in `y`, the last `c` is the one after `x`. */
  lemma LastSeparator(x: string, c: char, y: string)
    requires c !in y
    ensures LastIndex(x + [c] + y, c) == Some(|x|)
  {
    var s := x + [c] + y;
    forall k | |x| < k < |s|
      ensures s[k] != c
    {
      assert s[k] == y[k - |x| - 1];
    }
    LastIndexIs(s, c, |x|);
  }

  /** `[a-zA-Z0-9_-]+` */
  predicate NameToken(n: string) {
    |n| > 0 && forall k :: 0 <= k < |n| ==> IsWordChar(n[k]) || n[k] == '-'
  }

  /** `\d+\.\d+(?:\.\d+)?(?:\.\w+)?`, read field by field: every character is
      a word character or '.', and the dots cut the version into two to four
      non-empty fields, of which the first two, and the third of four, are
      all digits. (The optional third field may be `\d+` or `\w+`; a
      four-field version needs both optional groups.) */
  predicate VersionShaped(v: string) {
    && (forall k :: 0 <= k < |v| ==> v[k] == '.' || IsWordChar(v[k]))
    && var f := Split(v, ".");
    && 2 <= |f| <= 4
    && (forall k :: 0 <= k < |f| ==> |f[k]| > 0)
    && AllDigits(f[0]) && AllDigits(f[1])
    && (|f| == 4 ==> AllDigits(f[2]))
  }

  /** `[\d.]+` */
  predicate DottedDigits(v: string) {
    |v| > 0 && forall k :: 0 <= k < |v| ==> IsDigit(v[k]) || v[k] == '.'
  }

  /** The two groups of the PyPI-URL pattern of the update checker. */
  function PypiTail(u: string): (r: Option<Tail>)
    ensures r.Some? ==> Anchored(u, TailText(r.value.name, r.value.version))
    ensures r.Some? ==> NameToken(r.value.name) && VersionShaped(r.value.version)
  {
    match ArchiveTail(u)
    case Some(t) => if NameToken(t.name) && VersionShaped(t.version) then Some(t) else None
    case None => None
  }

  /** Every match of the checker's PyPI-URL pattern is the one `PypiTail` reports. */
  lemma PypiTailComplete(u: string, name: string, version: string)
    requires Anchored(u, TailText(name, version))
    requires NameToken(name) && VersionShaped(version)
    ensures PypiTail(u) == Some(Tail(name, version))
  {
    assert '/' !in name && '/' !in version && '-' !in version;
    ArchiveTailComplete(u, name, version);
  }

  /** The match of the writer's package-name pattern; its group is `name`. */
  function UrlTail(u: string): (r: Option<Tail>)
    ensures r.Some? ==> Anchored(u, TailText(r.value.name, r.value.version))
    ensures r.Some? ==> NameToken(r.value.name) && DottedDigits(r.value.version)
  {
    match ArchiveTail(u)
    case Some(t) => if NameToken(t.name) && DottedDigits(t.version) then Some(t) else None
    case None => None
  }

  /** Every match of the writer's package-name pattern is the one `UrlTail` reports. */
  lemma UrlTailComplete(u: string, name: string, version: string)
    requires Anchored(u, TailText(name, version))
    requires NameToken(name) && DottedDigits(version)
    ensures UrlTail(u) == Some(Tail(name, version))
  {
    assert '/' !in name && '/' !in version && '-' !in version;
    ArchiveTailComplete(u, name, version);
  }
}
