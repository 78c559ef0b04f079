/** The two patterns `update_formula` uses to put the new tarball url into
    the formula before its line pass (scripts/update_formulas.py:136-148):
      `(url\s+"https://files\.pythonhosted\.org/packages/)[^"]+(")`
      `(url\s+")[^"]+(\.tar\.gz")`
    Both are `url\s+"([^"]+)"` with a condition on the quoted value (it
    contains no quote), so both are decided by `QuotedAt`. */
module UrlRules {
  import opened Wrappers
  import opened Text
  import opened Matchers

  const HostedPrefix := "https://files.pythonhosted.org/packages/"
  const ArchiveSuffix := ".tar.gz"

  /** Text of one match of the first pattern, and its first group. */
  function HostedText(ws: string, path: string): string {
    "url" + ws + "\"" + HostedPrefix + path + "\""
  }

  function HostedGroup(ws: string): string {
    "url" + ws + "\"" + HostedPrefix
  }

  /** Text of one match of the second pattern, and its first group. */
  function ArchiveText(ws: string, stem: string): string {
    "url" + ws + "\"" + stem + ArchiveSuffix + "\""
  }

  function ArchiveGroup(ws: string): string {
    "url" + ws + "\""
  }

  /** A hosted url whose path has no further `packages/` splits into the
      host part and the path. */
  lemma HostedUrlSplit(path: string)
    requires !Contains(path, "packages/")
    ensures Split(HostedPrefix + path, "packages/") == [HostedPrefix[..31], path]
  {
    var u := HostedPrefix + path;
    PackagesFirstAt(u);
    SplitAt(u, "packages/", 31);
    assert u[40..] == path;
    assert u[..31] == HostedPrefix[..31];
  }

  /** In a hosted url, the first `packages/` is the prefix's own. */
  lemma PackagesFirstAt(u: string)
    requires |u| >= |HostedPrefix| && u[..|HostedPrefix|] == HostedPrefix
    ensures IndexFrom(u, "packages/", 0) == Some(31)
  {
    assert OccursAt(u, "packages/", 31) by {
      assert u[31..40] == u[..40][31..40] == HostedPrefix[31..];
    }
    forall k | 0 <= k < 31
      ensures !OccursAt(u, "packages/", k)
    {
      NoPackagesAt(u, k);
    }
    FirstOccurrence(u, "packages/", 31);
  }

  lemma NoPackagesAt(u: string, k: nat)
    requires |u| >= |HostedPrefix| && u[..|HostedPrefix|] == HostedPrefix
    requires k < 31
    ensures !OccursAt(u, "packages/", k)
  {
    HostChars(k);
    assert u[k] == u[..40][k] && u[k + 1] == u[..40][k + 1];
    assert u[k..k + 9][0] == u[k] && u[k..k + 9][1] == u[k + 1];
  }

  /** Before its `packages/`, the hosted prefix has no `p` followed by `a`. */
  lemma HostChars(k: nat)
    requires k < |HostedPrefix| - |"packages/"|
    ensures HostedPrefix[k] != 'p' || HostedPrefix[k + 1] != 'a'
  {
  }

  /** A match of the first pattern at `i`: where it ends and its first group. */
  function HostedUrlAt(s: string, i: nat): (r: Option<Span>)
    requires i <= |s|
    ensures r.Some? ==> i < r.value.end <= |s|
  {
    match QuotedMatch(s, "url", i)
    case None => None
    case Some(ws) =>
      var v := ws[3];
      if |v| > |HostedPrefix| && v[..|HostedPrefix|] == HostedPrefix then
        Some(Span(i + |Concat(ws)|, HostedGroup(ws[1])))
      else None
  }

  /** A match of the second pattern at `i`: where it ends and its first group. */
  function ArchiveUrlAt(s: string, i: nat): (r: Option<Span>)
    requires i <= |s|
    ensures r.Some? ==> i < r.value.end <= |s|
  {
    match QuotedMatch(s, "url", i)
    case None => None
    case Some(ws) =>
      var v := ws[3];
      if |v| > |ArchiveSuffix| && EndsWith(v, ArchiveSuffix) then
        Some(Span(i + |Concat(ws)|, ArchiveGroup(ws[1])))
      else None
  }

  lemma PrefixFree()
    ensures AllIn(HostedPrefix, NonQuote) && AllIn(ArchiveSuffix, NonQuote)
  {
  }

  /** The pieces of a match of `url\s+"([^"]+)"` at `i`. */
  lemma UrlPieces(s: string, i: nat) returns (ws: string, v: string)
    requires i <= |s| && QuotedMatch(s, "url", i).Some?
    ensures QuotedMatch(s, "url", i) == Some(["url", ws, "\"", v, "\""])
    ensures Spaces(ws) && Unquoted(v)
    ensures OccursAt(s, QuotedText("url", ws, v), i)
  {
    var pieces := QuotedMatch(s, "url", i).value;
    MatchTokensSound(s, i, QuotedPattern("url"));
    QuotedPieces("url", pieces);
    ws, v := pieces[1], pieces[3];
  }

  /** The first pattern matches where `url\s+"([^"]+)"` does, when the value
      begins with the hosted prefix. */
  lemma HostedUrlAtIs(s: string, i: nat, ws: string, v: string)
    requires i <= |s| && QuotedMatch(s, "url", i) == Some(["url", ws, "\"", v, "\""])
    ensures HostedUrlAt(s, i)
            == if |v| > |HostedPrefix| && v[..|HostedPrefix|] == HostedPrefix
               then Some(Span(QuotedEnd(s, "url", i), HostedGroup(ws))) else None
  {
  }

  /** The second pattern matches where `url\s+"([^"]+)"` does, when the value
      ends in `.tar.gz`. */
  lemma ArchiveUrlAtIs(s: string, i: nat, ws: string, v: string)
    requires i <= |s| && QuotedMatch(s, "url", i) == Some(["url", ws, "\"", v, "\""])
    ensures ArchiveUrlAt(s, i)
            == if |v| > |ArchiveSuffix| && EndsWith(v, ArchiveSuffix)
               then Some(Span(QuotedEnd(s, "url", i), ArchiveGroup(ws))) else None
  {
  }

  /** A quoted value that begins with the hosted prefix is that prefix and a path. */
  lemma HostedValue(v: string) returns (path: string)
    requires Unquoted(v) && |v| > |HostedPrefix| && v[..|HostedPrefix|] == HostedPrefix
    ensures v == HostedPrefix + path && Unquoted(path)
  {
    path := v[|HostedPrefix|..];
    assert v == HostedPrefix + path;
    forall k | 0 <= k < |path| ensures In(path[k], NonQuote) {
      assert path[k] == v[|HostedPrefix| + k];
    }
  }

  lemma HostedJoin(path: string)
    requires Unquoted(path)
    ensures var v := HostedPrefix + path;
            Unquoted(v) && |v| > |HostedPrefix| && v[..|HostedPrefix|] == HostedPrefix
  {
    var v := HostedPrefix + path;
    PrefixFree();
    forall k | 0 <= k < |v| ensures In(v[k], NonQuote) {
      if k >= |HostedPrefix| {
        assert v[k] == path[k - |HostedPrefix|];
      }
    }
  }

  lemma HostedSpelled(ws: string, path: string)
    ensures QuotedText("url", ws, HostedPrefix + path) == HostedText(ws, path)
  {
  }

  /** Every match `HostedUrlAt` reports is a match of the first pattern. */
  lemma HostedUrlAtSound(s: string, i: nat) returns (ws: string, path: string)
    requires i <= |s| && HostedUrlAt(s, i).Some?
    ensures Spaces(ws) && Unquoted(path)
    ensures OccursAt(s, HostedText(ws, path), i)
    ensures HostedUrlAt(s, i) == Some(Span(i + |HostedText(ws, path)|, HostedGroup(ws)))
  {
    var v;
    ws, v := UrlPieces(s, i);
    path := HostedValue(v);
    HostedSpelled(ws, path);
    QuotedAtComplete(s, "url", i, ws, v);
    HostedUrlAtIs(s, i, ws, v);
  }

  /** Every match of the first pattern is found by `HostedUrlAt`. */
  lemma HostedUrlAtComplete(s: string, i: nat, ws: string, path: string)
    requires Spaces(ws) && Unquoted(path)
    requires OccursAt(s, HostedText(ws, path), i)
    ensures i <= |s| && HostedUrlAt(s, i) == Some(Span(i + |HostedText(ws, path)|, HostedGroup(ws)))
  {
    var v := HostedPrefix + path;
    HostedJoin(path);
    HostedSpelled(ws, path);
    QuotedAtComplete(s, "url", i, ws, v);
    HostedUrlAtIs(s, i, ws, v);
  }

  /** A quoted value that ends in `.tar.gz` is a stem and that suffix. */
  lemma ArchiveValue(v: string) returns (stem: string)
    requires Unquoted(v) && |v| > |ArchiveSuffix| && EndsWith(v, ArchiveSuffix)
    ensures v == stem + ArchiveSuffix && Unquoted(stem)
  {
    stem := v[..|v| - |ArchiveSuffix|];
    assert v == stem + ArchiveSuffix;
    forall k | 0 <= k < |stem| ensures In(stem[k], NonQuote) {
      assert stem[k] == v[k];
    }
  }

  lemma ArchiveJoin(stem: string)
    requires Unquoted(stem)
    ensures var v := stem + ArchiveSuffix;
            Unquoted(v) && |v| > |ArchiveSuffix| && EndsWith(v, ArchiveSuffix)
  {
    var v := stem + ArchiveSuffix;
    PrefixFree();
    forall k | 0 <= k < |v| ensures In(v[k], NonQuote) {
      if k < |stem| {
        assert v[k] == stem[k];
      } else {
        assert v[k] == ArchiveSuffix[k - |stem|];
      }
    }
    assert v[|v| - |ArchiveSuffix|..] == ArchiveSuffix;
  }

  lemma ArchiveSpelled(ws: string, stem: string)
    ensures QuotedText("url", ws, stem + ArchiveSuffix) == ArchiveText(ws, stem)
  {
  }

  /** Every match `ArchiveUrlAt` reports is a match of the second pattern. */
  lemma ArchiveUrlAtSound(s: string, i: nat) returns (ws: string, stem: string)
    requires i <= |s| && ArchiveUrlAt(s, i).Some?
    ensures Spaces(ws) && Unquoted(stem)
    ensures OccursAt(s, ArchiveText(ws, stem), i)
    ensures ArchiveUrlAt(s, i) == Some(Span(i + |ArchiveText(ws, stem)|, ArchiveGroup(ws)))
  {
    var v;
    ws, v := UrlPieces(s, i);
    stem := ArchiveValue(v);
    ArchiveSpelled(ws, stem);
    QuotedAtComplete(s, "url", i, ws, v);
    ArchiveUrlAtIs(s, i, ws, v);
  }

  /** Every match of the second pattern is found by `ArchiveUrlAt`. */
  lemma ArchiveUrlAtComplete(s: string, i: nat, ws: string, stem: string)
    requires Spaces(ws) && Unquoted(stem)
    requires OccursAt(s, ArchiveText(ws, stem), i)
    ensures i <= |s| && ArchiveUrlAt(s, i) == Some(Span(i + |ArchiveText(ws, stem)|, ArchiveGroup(ws)))
  {
    var v := stem + ArchiveSuffix;
    ArchiveJoin(stem);
    ArchiveSpelled(ws, stem);
    QuotedAtComplete(s, "url", i, ws, v);
    ArchiveUrlAtIs(s, i, ws, v);
  }
}
