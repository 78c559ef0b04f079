/** `update_formula` (scripts/update_formulas.py:118-206) on the formula's
    text. Reading and writing the file are not modelled: the text comes in
    and the text to be written goes out. The output of `pip freeze` and the
    PyPI documents of the dependencies are passed in; `releaseOf` stands for
    the request `get_tarball_info(name, version)` makes. */
module FormulaWriter {
  import opened Wrappers
  import opened Text
  import opened PyPI
  import opened Archive
  import opened LinePass
  import opened Deps
  import opened DepOrder
  import opened Resources
  import opened Substitute
  import opened Matchers
  import opened UrlRules

  /** The exceptions that escape `update_formula`. */
  datatype Failure =
    | NoPackagesSegment            // IndexError: `tarball_url.split("packages/")[1]`
    | BadFreezeLine(line: string)  // ValueError: a freeze line that is not one `==` pair

  /** Written back (`True`), given up without writing (`False`), or raised. */
  datatype Outcome = Written(content: string) | Declined | Raised(failure: Failure)

  /** The blocks for the dependencies in the given order, leaving out those
      for which no source tarball was found (lines 190-195). */
  function ResourceBlocks(deps: seq<Dep>, releaseOf: Dep -> Option<Release>): (r: seq<string>)
    ensures |r| <= |deps|
    ensures (forall j :: 0 <= j < |deps| ==> TarballInfo(releaseOf(deps[j])).Some?) ==>
              |r| == |deps| && forall k :: 0 <= k < |r| ==> GenerateResourceBlock(deps[k], releaseOf(deps[k])) == Some(r[k])
  {
    if |deps| == 0 then []
    else
      var rest := ResourceBlocks(deps[1..], releaseOf);
      match GenerateResourceBlock(deps[0], releaseOf(deps[0]))
      case Some(b) => [b] + rest
      case None => rest
  }

  /** The dependencies for which a source archive is found, in order. */
  function Qualifying(deps: seq<Dep>, releaseOf: Dep -> Option<Release>): (q: seq<Dep>)
    ensures forall k :: 0 <= k < |q| ==> TarballInfo(releaseOf(q[k])).Some?
  {
    if |deps| == 0 then []
    else (if TarballInfo(releaseOf(deps[0])).Some? then [deps[0]] else []) + Qualifying(deps[1..], releaseOf)
  }

  /** The blocks are exactly those of the dependencies with a source
      archive: one each, in their order. */
  lemma {:induction false} ResourceBlocksExact(deps: seq<Dep>, releaseOf: Dep -> Option<Release>)
    ensures var q := Qualifying(deps, releaseOf);
            && |ResourceBlocks(deps, releaseOf)| == |q|
            && forall k :: 0 <= k < |q| ==> GenerateResourceBlock(q[k], releaseOf(q[k])) == Some(ResourceBlocks(deps, releaseOf)[k])
  {
    if |deps| > 0 {
      ResourceBlocksExact(deps[1..], releaseOf);
      var q := Qualifying(deps, releaseOf);
      var q1 := Qualifying(deps[1..], releaseOf);
      var r := ResourceBlocks(deps, releaseOf);
      var r1 := ResourceBlocks(deps[1..], releaseOf);
      match GenerateResourceBlock(deps[0], releaseOf(deps[0]))
      case Some(b) =>
        assert q == [deps[0]] + q1 && r == [b] + r1;
        BlocksCons(deps[0], b, q1, r1, releaseOf);
      case None =>
        assert q == q1 && r == r1;
    }
  }

  lemma BlocksCons(d: Dep, b: string, q: seq<Dep>, r: seq<string>, releaseOf: Dep -> Option<Release>)
    requires GenerateResourceBlock(d, releaseOf(d)) == Some(b)
    requires |r| == |q| && forall k :: 0 <= k < |q| ==> GenerateResourceBlock(q[k], releaseOf(q[k])) == Some(r[k])
    ensures forall k :: 0 <= k < |q| + 1 ==> GenerateResourceBlock(([d] + q)[k], releaseOf(([d] + q)[k])) == Some(([b] + r)[k])
  {
    forall k | 0 < k < |q| + 1
      ensures GenerateResourceBlock(([d] + q)[k], releaseOf(([d] + q)[k])) == Some(([b] + r)[k])
    {
      assert ([d] + q)[k] == q[k - 1] && ([b] + r)[k] == r[k - 1];
    }
  }

  /** Every block comes from one of the dependencies. */
  lemma {:induction false} ResourceBlocksGenerated(deps: seq<Dep>, releaseOf: Dep -> Option<Release>)
    ensures forall b :: b in ResourceBlocks(deps, releaseOf) ==>
              exists j :: 0 <= j < |deps| && GenerateResourceBlock(deps[j], releaseOf(deps[j])) == Some(b)
  {
    if |deps| > 0 {
      var rest := ResourceBlocks(deps[1..], releaseOf);
      ResourceBlocksGenerated(deps[1..], releaseOf);
      var first := GenerateResourceBlock(deps[0], releaseOf(deps[0]));
      forall b | b in ResourceBlocks(deps, releaseOf)
        ensures exists j :: 0 <= j < |deps| && GenerateResourceBlock(deps[j], releaseOf(deps[j])) == Some(b)
      {
        if first == Some(b) {
          assert GenerateResourceBlock(deps[0], releaseOf(deps[0])) == Some(b);
        } else {
          assert b in rest;
          var j :| 0 <= j < |deps[1..]| && GenerateResourceBlock(deps[1..][j], releaseOf(deps[1..][j])) == Some(b);
          assert deps[1..][j] == deps[j + 1];
        }
      }
    }
  }

  /** The program the writer runs: the scripts as written, or the same
      program with the three corrections listed under the findings of this
      model: the url substitutions replace only the first match, the
      template of the second one replaces the whole quoted url, and the line
      pass uses the substring guard. */
  datatype Variant = AsWritten | Corrected

  /** The test at line 158 of the line pass. */
  function Guard(v: Variant): UrlGuard {
    if v.AsWritten? then ListMembership else Substring
  }

  /** The substitution at lines 144-148. */
  function ArchiveRule(v: Variant, url: string): Rule {
    if v.AsWritten? then ArchiveUrl(url) else ArchiveUrlFixed(url)
  }

  /** The substitutions at lines 136-148: as written `re.sub` replaces
      every match in the formula; corrected, only the first one
      (`count=1`), which is the formula's own url. */
  function ReSub(v: Variant, s: string, r: Rule): (t: string)
    ensures (forall j :: 0 <= j < |s| ==> MatchSpan(s, r, j).None?) ==> t == s
  {
    if v.AsWritten? then Sub(s, r) else SubFirst(s, r)
  }

  /** Lines 136-148: the new url goes into the text by substitution; `None`
      is the IndexError when the url has no `packages/`. */
  function PlaceUrl(v: Variant, content: string, tarballUrl: string): (r: Option<string>)
    ensures r.None? <==> !Contains(tarballUrl, "packages/")
  {
    SplitPieces(tarballUrl, "packages/");
    var pieces := Split(tarballUrl, "packages/");
    if |pieces| < 2 then None
    else
      var placed := ReSub(v, content, HostedUrl(pieces[1]));
      if Contains(placed, tarballUrl) then Some(placed)
      else Some(ReSub(v, placed, ArchiveRule(v, tarballUrl)))
  }

  /** A formula whose only hosted url has path `prior`, updated to the
      hosted url with path `path`: the first substitution puts the new path
      there, the new url is then in the text and the second substitution is
      skipped, in either variant. */
  lemma PlaceHostedUrl(v: Variant, content: string, k: nat, ws: string, prior: string, path: string)
    requires Spaces(ws) && Unquoted(prior) && !Contains(path, "packages/")
    requires OccursAt(content, HostedText(ws, prior), k)
    requires SoleHostedUrl(content, k)
    ensures PlaceUrl(v, content, HostedPrefix + path)
            == Some(content[..k] + HostedText(ws, path) + content[k + |HostedText(ws, prior)|..])
  {
    if v == AsWritten {
      HostedUrlSplit(path);
      HostedUrlOnce(content, k, ws, prior, path);
      HostedTextHasUrl(content[..k], ws, path, content[k + |HostedText(ws, prior)|..]);
      PlaceFound(v, content, HostedPrefix + path, path);
    } else {
      PlaceMainHostedUrl(content, k, ws, prior, path);
    }
  }

  /** The formula's only hosted url is the one at `k`. */
  predicate SoleHostedUrl(content: string, k: nat) {
    forall j :: 0 <= j < |content| && j != k ==> HostedUrlAt(content, j).None?
  }

  /** Corrected: whatever follows the formula's first hosted url, only that
      url gets the new path; hosted urls of resource blocks further down
      keep theirs, and the second substitution is skipped. */
  lemma PlaceMainHostedUrl(content: string, k: nat, ws: string, prior: string, path: string)
    requires Spaces(ws) && Unquoted(prior) && !Contains(path, "packages/")
    requires OccursAt(content, HostedText(ws, prior), k)
    requires forall j :: 0 <= j < k ==> HostedUrlAt(content, j).None?
    ensures PlaceUrl(Corrected, content, HostedPrefix + path)
            == Some(content[..k] + HostedText(ws, path) + content[k + |HostedText(ws, prior)|..])
  {
    HostedUrlSplit(path);
    HostedUrlFirst(content, k, ws, prior, path);
    HostedTextHasUrl(content[..k], ws, path, content[k + |HostedText(ws, prior)|..]);
    PlaceFound(Corrected, content, HostedPrefix + path, path);
  }

  /** As written: in a formula laid out as gaps and any number of hosted
      urls, every one of them gets the new path, those of resource blocks
      included, and the second substitution is skipped. */
  lemma PlaceHostedUrls(content: string, gaps: seq<string>, wss: seq<string>, priors: seq<string>, path: string)
    requires |gaps| == |wss| + 1 && |priors| == |wss| && |wss| > 0 && !Contains(path, "packages/")
    requires forall k :: 0 <= k < |wss| ==> Spaces(wss[k]) && Unquoted(priors[k])
    requires LaidOut(content, 0, gaps, HostedTexts(wss, priors))
    requires GapsFree(Hits(content, HostedUrl(path)), 0, gaps, HostedTexts(wss, priors))
    ensures PlaceUrl(AsWritten, content, HostedPrefix + path)
            == Some(Interleave(gaps, HostedTexts(wss, Copies(path, |wss|))))
  {
    var ts := HostedTexts(wss, Copies(path, |wss|));
    HostedUrlSplit(path);
    SubHostedUrls(content, gaps, wss, priors, path);
    assert Interleave(gaps, ts) == gaps[0] + HostedText(wss[0], path) + Interleave(gaps[1..], ts[1..]);
    HostedTextHasUrl(gaps[0], wss[0], path, Interleave(gaps[1..], ts[1..]));
    PlaceFound(AsWritten, content, HostedPrefix + path, path);
  }

  /** A hosted url in the text puts the whole url into it. */
  lemma HostedTextHasUrl(a: string, ws: string, path: string, b: string)
    ensures Contains(a + HostedText(ws, path) + b, HostedPrefix + path)
  {
    assert a + HostedText(ws, path) + b == (a + ("url" + ws + "\"")) + (HostedPrefix + path) + ("\"" + b);
    ContainsMiddle(a + ("url" + ws + "\""), HostedPrefix + path, "\"" + b);
  }

  /** When the first substitution already puts the new url into the text,
      the second is skipped. */
  lemma PlaceFound(v: Variant, content: string, url: string, path: string)
    requires |Split(url, "packages/")| >= 2 && Split(url, "packages/")[1] == path
    requires Contains(ReSub(v, content, HostedUrl(path)), url)
    ensures PlaceUrl(v, content, url) == Some(ReSub(v, content, HostedUrl(path)))
  {
  }

  /** A formula with no hosted url and one url ending in `.tar.gz`, and
      without the new url: the second substitution replaces that url. As
      written, the matched `.tar.gz"` is put back after the new url;
      corrected, the quoted url is exactly the new url. */
  lemma PlaceArchiveUrl(v: Variant, content: string, k: nat, ws: string, stem: string, url: string)
    requires Spaces(ws) && Unquoted(stem)
    requires Contains(url, "packages/") && !Contains(content, url)
    requires forall j :: 0 <= j < |content| ==> HostedUrlAt(content, j).None?
    requires OccursAt(content, ArchiveText(ws, stem), k)
    requires forall j :: 0 <= j < |content| && j != k ==> ArchiveUrlAt(content, j).None?
    ensures v == AsWritten ==>
              PlaceUrl(v, content, url)
              == Some(content[..k] + (ArchiveGroup(ws) + url + ArchiveSuffix + "\"") + content[k + |ArchiveText(ws, stem)|..])
    ensures v == Corrected ==>
              PlaceUrl(v, content, url)
              == Some(content[..k] + QuotedText("url", ws, url) + content[k + |ArchiveText(ws, stem)|..])
  {
    SplitPieces(url, "packages/");
    var hosted := HostedUrl(Split(url, "packages/")[1]);
    assert forall j :: 0 <= j < |content| ==> MatchSpan(content, hosted, j).None?;
    assert ReSub(v, content, hosted) == content;
    if v == AsWritten {
      ArchiveUrlOnce(content, k, ws, stem, ArchiveUrl(url));
    } else {
      ArchiveUrlFixedFirst(content, k, ws, stem, url);
    }
  }

  /** Lines 152-174: the line pass, with the variant's guard. When the new
      url and digest have no newline, the text keeps its number of lines and
      line `i` becomes `Rewritten(lines, i)`. */
  function PassLines(v: Variant, content: string, tarballUrl: string, sha256: string): (r: string)
    ensures '\n' !in tarballUrl && '\n' !in sha256 ==>
              var lines := Split(content, "\n");
              && |Split(r, "\n")| == |lines|
              && forall i :: 0 <= i < |lines| ==> Split(r, "\n")[i] == Rewritten(lines, i, tarballUrl, sha256, Guard(v))
  {
    var r := Join(RewriteLines(Split(content, "\n"), tarballUrl, sha256, Guard(v)), "\n");
    assert '\n' !in tarballUrl && '\n' !in sha256 ==> Split(r, "\n") == RewriteLines(Split(content, "\n"), tarballUrl, sha256, Guard(v)) by {
      if '\n' !in tarballUrl && '\n' !in sha256 {
        PassLinesKeepsLines(content, tarballUrl, sha256, Guard(v));
      }
    }
    r
  }

  /** Lines 181-203, once there are dependencies: the old blocks are removed
      and the new ones, sorted by name, go before `def install`. With no old
      block and one `def install` at `k`, the text around it is kept. */
  function ReplaceResources(content: string, deps: seq<Dep>, releaseOf: Dep -> Option<Release>): (r: string)
    ensures forall k :: InstallOnlyAt(content, k) && NoBlock(content) ==>
              r == content[..k] + "\n\n" + Join(ResourceBlocks(SortDeps(deps), releaseOf), "\n\n") + "\n" + content[k..]
  {
    var text := Join(ResourceBlocks(SortDeps(deps), releaseOf), "\n\n");
    var r := Sub(Sub(content, RemoveBlock), InsertBefore(text));
    assert forall k :: InstallOnlyAt(content, k) && NoBlock(content) ==> r == content[..k] + "\n\n" + text + "\n" + content[k..] by {
      forall k | InstallOnlyAt(content, k) && NoBlock(content)
        ensures r == content[..k] + "\n\n" + text + "\n" + content[k..]
      {
        RemoveNothing(content);
        InsertOnce(content, text, k);
      }
    }
    r
  }

  /** A formula laid out as gaps and any number of old blocks, with the
      removal pattern matching in no gap: the old blocks are all removed,
      and the new ones go before the one `def install`. */
  lemma ReplaceResourcesBlocks(content: string, gaps: seq<string>, fs: seq<Fields>, k: nat,
                               deps: seq<Dep>, releaseOf: Dep -> Option<Release>)
    requires |gaps| == |fs| + 1 && forall j :: 0 <= j < |fs| ==> FieldsOk(fs[j])
    requires LaidOut(content, 0, gaps, BlockTexts(fs))
    requires GapsFree(Hits(content, RemoveBlock), 0, gaps, BlockTexts(fs))
    requires InstallOnlyAt(Concat(gaps), k)
    ensures ReplaceResources(content, deps, releaseOf)
            == Concat(gaps)[..k] + "\n\n" + Join(ResourceBlocks(SortDeps(deps), releaseOf), "\n\n") + "\n" + Concat(gaps)[k..]
  {
    RemoveBlocks(content, gaps, fs);
    InsertOnce(Concat(gaps), Join(ResourceBlocks(SortDeps(deps), releaseOf), "\n\n"), k);
  }

  /** `resources_text` at line 198: the sorted blocks, separated by blank
      lines. */
  function ResourcesText(deps: seq<Dep>, releaseOf: Dep -> Option<Release>): string {
    Join(ResourceBlocks(SortDeps(deps), releaseOf), "\n\n")
  }

  /** With no `\n  def install` left once the old blocks are gone, the
      insertion at lines 199-203 matches nowhere: the old blocks are
      removed and the new ones are dropped. */
  lemma ReplaceResourcesNoInstall(content: string, gaps: seq<string>, fs: seq<Fields>,
                                  deps: seq<Dep>, releaseOf: Dep -> Option<Release>)
    requires |gaps| == |fs| + 1 && forall j :: 0 <= j < |fs| ==> FieldsOk(fs[j])
    requires LaidOut(content, 0, gaps, BlockTexts(fs))
    requires GapsFree(Hits(content, RemoveBlock), 0, gaps, BlockTexts(fs))
    requires forall j :: 0 <= j < |Concat(gaps)| ==> !OccursAt(Concat(gaps), InstallMarker, j)
    ensures ReplaceResources(content, deps, releaseOf) == Concat(gaps)
  {
    RemoveBlocks(content, gaps, fs);
    InsertNowhere(Concat(gaps), ResourcesText(deps, releaseOf));
  }

  /** The insertion has no `count`: when what is left after the removal
      holds several `\n  def install`, the new blocks go before every one
      of them. */
  lemma ReplaceResourcesEveryInstall(content: string, gaps: seq<string>, fs: seq<Fields>, parts: seq<string>,
                                     deps: seq<Dep>, releaseOf: Dep -> Option<Release>)
    requires |gaps| == |fs| + 1 && forall j :: 0 <= j < |fs| ==> FieldsOk(fs[j])
    requires LaidOut(content, 0, gaps, BlockTexts(fs))
    requires GapsFree(Hits(content, RemoveBlock), 0, gaps, BlockTexts(fs))
    requires |parts| >= 1 && LaidOut(Concat(gaps), 0, parts, Copies(InstallMarker, |parts| - 1))
    requires GapsFree(Hits(Concat(gaps), InsertBefore(ResourcesText(deps, releaseOf))), 0, parts, Copies(InstallMarker, |parts| - 1))
    ensures ReplaceResources(content, deps, releaseOf)
            == Interleave(parts, Copies("\n\n" + ResourcesText(deps, releaseOf) + "\n" + InstallMarker, |parts| - 1))
  {
    RemoveBlocks(content, gaps, fs);
    InsertEvery(Concat(gaps), parts, ResourcesText(deps, releaseOf));
  }

  /** `\n  def install` occurs at `k` and nowhere else. */
  predicate InstallOnlyAt(content: string, k: int) {
    && OccursAt(content, InstallMarker, k)
    && forall j :: 0 <= j <= |content| && j != k ==> !OccursAt(content, InstallMarker, j)
  }

  /** The removal pattern matches nowhere. */
  predicate NoBlock(content: string) {
    forall j :: 0 <= j < |content| ==> BlockAt(content, j).None?
  }

  /** `update_formula` with the given variant; `AsWritten` is the script. */
  function UpdateFormula(v: Variant, content: string, tarballUrl: string, sha256: string, updateResources: bool,
                         freezeOutput: Option<string>, releaseOf: Dep -> Option<Release>): (r: Outcome)
    ensures r == Declined <==> UrlTail(tarballUrl).None?
    ensures r == Raised(NoPackagesSegment) <==> UrlTail(tarballUrl).Some? && !Contains(tarballUrl, "packages/")
    ensures r.Raised? && r.failure.BadFreezeLine? ==>
              && updateResources && freezeOutput.Some?
              && r.failure.line in Split(Strip(freezeOutput.value), "\n")
              && !Unpackable(r.failure.line)
    ensures r.Written? ==> UrlTail(tarballUrl).Some? && Contains(tarballUrl, "packages/")
    ensures r.Written? && (!updateResources || PackageDependencies(freezeOutput, UrlTail(tarballUrl).value.name) == Success([])) ==>
              r.content == PassLines(v, PlaceUrl(v, content, tarballUrl).value, tarballUrl, sha256)
    ensures r.Written? && updateResources && PackageDependencies(freezeOutput, UrlTail(tarballUrl).value.name) != Success([]) ==>
              var deps := PackageDependencies(freezeOutput, UrlTail(tarballUrl).value.name);
              deps.Success? && r.content == ReplaceResources(PassLines(v, PlaceUrl(v, content, tarballUrl).value, tarballUrl, sha256), deps.value, releaseOf)
  {
    match UrlTail(tarballUrl)
    case None => Declined
    case Some(tail) =>
      match PlaceUrl(v, content, tarballUrl)
      case None => Raised(NoPackagesSegment)
      case Some(placed) =>
        var lined := PassLines(v, placed, tarballUrl, sha256);
        if !updateResources then Written(lined)
        else
          match PackageDependencies(freezeOutput, tail.name)
          case Failure(UnpackError(line)) => Raised(BadFreezeLine(line))
          case Success(deps) =>
            if |deps| == 0 then Written(lined)
            else Written(ReplaceResources(lined, deps, releaseOf))
  }

  /** Whatever the guard, the line pass keeps the number of lines:
      splitting its output gives back the rewritten lines, one for each line
      of the input. */
  lemma PassLinesKeepsLines(content: string, tarballUrl: string, sha256: string, g: UrlGuard)
    requires '\n' !in tarballUrl && '\n' !in sha256
    ensures var out := RewriteLines(Split(content, "\n"), tarballUrl, sha256, g);
            Split(Join(out, "\n"), "\n") == out
  {
    var lines := Split(content, "\n");
    var out := RewriteLines(lines, tarballUrl, sha256, g);
    forall k | 0 <= k < |out|
      ensures '\n' !in out[k]
    {
      CharContains(lines[k], '\n');
      assert '\n' !in UrlLine(tarballUrl) && '\n' !in ShaLine(sha256);
    }
    SplitJoin(out, '\n');
  }
}
