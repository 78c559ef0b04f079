/** The line-by-line rewrite at the heart of `update_formula`
    (scripts/update_formulas.py:152-174): every url line becomes the new
    tarball url, and the first `sha256` line of the main section becomes the
    new digest. The loop is modelled as a fold carrying its two flags,
    `url_found` and `in_main_section`, and is proved equal to a line-by-line
    description that mentions no flags. */
module LinePass {
  import opened Text

  /** How a line is recognised as the line just before a url line that must
      be left alone. The scripts test `"resource" not in lines[i-1:i]`, which
      is membership in a one-element list (`ListMembership`); the evidently
      intended test is a substring test on the previous line (`Substring`). */
  datatype UrlGuard = ListMembership | Substring

  predicate ResourceHeader(prev: string, g: UrlGuard) {
    match g
    case ListMembership => prev == "resource"
    case Substring => Contains(prev, "resource")
  }

  /** Line `i` is rewritten as the main url line. */
  predicate IsUrlLine(lines: seq<string>, i: nat, g: UrlGuard)
    requires i < |lines|
  {
    Contains(lines[i], "url ") && !(i > 0 && ResourceHeader(lines[i - 1], g))
  }

  /** Some line before `j` is a url line. */
  predicate UrlBefore(lines: seq<string>, j: nat, g: UrlGuard)
    requires j <= |lines|
  {
    exists i :: 0 <= i < j && IsUrlLine(lines, i, g)
  }

  /** A line that may become the main digest: not a url line, mentions `sha256`, and follows a url line. */
  predicate ShaCandidate(lines: seq<string>, j: nat, g: UrlGuard)
    requires j < |lines|
  {
    !IsUrlLine(lines, j, g) && Contains(lines[j], "sha256") && UrlBefore(lines, j, g)
  }

  /** A line that ends the main section: not a url line, and mentions `resource `. */
  predicate EndsMainSection(lines: seq<string>, k: nat, g: UrlGuard)
    requires k < |lines|
  {
    !IsUrlLine(lines, k, g) && Contains(lines[k], "resource ")
  }

  /** Line `j` is the main section's digest line: the first candidate, with
      no line before it that ends the main section. */
  predicate IsMainSha(lines: seq<string>, j: nat, g: UrlGuard)
    requires j < |lines|
  {
    && ShaCandidate(lines, j, g)
    && forall k :: 0 <= k < j ==> !ShaCandidate(lines, k, g) && !EndsMainSection(lines, k, g)
  }

  function UrlLine(url: string): string {
    "  url \"" + url + "\""
  }

  function ShaLine(sha256: string): string {
    "  sha256 \"" + sha256 + "\""
  }

  /** What line `i` becomes, described without the loop's flags. */
  function Rewritten(lines: seq<string>, i: nat, url: string, sha256: string, g: UrlGuard): string
    requires i < |lines|
  {
    if IsUrlLine(lines, i, g) then UrlLine(url)
    else if IsMainSha(lines, i, g) then ShaLine(sha256)
    else lines[i]
  }

  /** The loop from line `i` on, in state (`urlFound`, `inMain`); every
      branch emits exactly one line. */
  function PassFrom(lines: seq<string>, i: nat, url: string, sha256: string, g: UrlGuard,
                    urlFound: bool, inMain: bool): (r: seq<string>)
    requires i <= |lines|
    ensures |r| == |lines| - i
    decreases |lines| - i
  {
    if i == |lines| then []
    else if IsUrlLine(lines, i, g) then
      [UrlLine(url)] + PassFrom(lines, i + 1, url, sha256, g, true, inMain)
    else if urlFound && Contains(lines[i], "sha256") && inMain then
      [ShaLine(sha256)] + PassFrom(lines, i + 1, url, sha256, g, false, false)
    else
      [lines[i]] + PassFrom(lines, i + 1, url, sha256, g, urlFound, inMain && !Contains(lines[i], "resource "))
  }

  /** What the flags mean before line `i`. While still in the main section,
      no line so far has been a candidate or ended the section, and
      `urlFound` says whether a url line was seen; once out of it, no later
      line can be the main digest line. */
  predicate FlagsMean(lines: seq<string>, i: nat, g: UrlGuard, urlFound: bool, inMain: bool)
    requires i <= |lines|
  {
    if inMain then
      && (forall k :: 0 <= k < i ==> !ShaCandidate(lines, k, g) && !EndsMainSection(lines, k, g))
      && urlFound == UrlBefore(lines, i, g)
    else
      forall j :: i <= j < |lines| ==> !IsMainSha(lines, j, g)
  }

  lemma {:induction false} PassIsRewrite(lines: seq<string>, i: nat, url: string, sha256: string, g: UrlGuard,
                                        urlFound: bool, inMain: bool)
    requires i <= |lines|
    requires FlagsMean(lines, i, g, urlFound, inMain)
    ensures forall j :: i <= j < |lines| ==>
      PassFrom(lines, i, url, sha256, g, urlFound, inMain)[j - i] == Rewritten(lines, j, url, sha256, g)
    decreases |lines| - i
  {
    if i < |lines| {
      var uf, im := PassStep(lines, i, url, sha256, g, urlFound, inMain);
      PassIsRewrite(lines, i + 1, url, sha256, g, uf, im);
    }
  }

  /** One turn of the loop emits the line's rewrite, and the flags keep
      their meaning. */
  lemma PassStep(lines: seq<string>, i: nat, url: string, sha256: string, g: UrlGuard,
                 urlFound: bool, inMain: bool) returns (uf: bool, im: bool)
    requires i < |lines| && FlagsMean(lines, i, g, urlFound, inMain)
    ensures FlagsMean(lines, i + 1, g, uf, im)
    ensures PassFrom(lines, i, url, sha256, g, urlFound, inMain)
            == [Rewritten(lines, i, url, sha256, g)] + PassFrom(lines, i + 1, url, sha256, g, uf, im)
  {
    if IsUrlLine(lines, i, g) {
      uf, im := true, inMain;
      assert UrlBefore(lines, i + 1, g);
    } else if urlFound && Contains(lines[i], "sha256") && inMain {
      uf, im := false, false;
      assert ShaCandidate(lines, i, g);
      assert IsMainSha(lines, i, g);
    } else {
      uf, im := urlFound, inMain && !Contains(lines[i], "resource ");
      if inMain {
        assert !ShaCandidate(lines, i, g);
        assert !IsMainSha(lines, i, g);
        UrlBeforeNext(lines, i, g);
        if !im {
          assert EndsMainSection(lines, i, g);
        }
      }
    }
  }

  /** A line that is not a url line adds no url line before the next one. */
  lemma UrlBeforeNext(lines: seq<string>, i: nat, g: UrlGuard)
    requires i < |lines| && !IsUrlLine(lines, i, g)
    ensures UrlBefore(lines, i + 1, g) == UrlBefore(lines, i, g)
  {
    if UrlBefore(lines, i + 1, g) {
      var k :| 0 <= k < i + 1 && IsUrlLine(lines, k, g);
      assert k < i;
    }
  }

  /** The loop of scripts/update_formulas.py:152-172 over the formula's lines. */
  function RewriteLines(lines: seq<string>, url: string, sha256: string, g: UrlGuard): (r: seq<string>)
    ensures |r| == |lines|
    ensures forall i :: 0 <= i < |lines| ==> r[i] == Rewritten(lines, i, url, sha256, g)
  {
    PassIsRewrite(lines, 0, url, sha256, g, false, true);
    PassFrom(lines, 0, url, sha256, g, false, true)
  }

  /** At most one line is rewritten as the main digest line. */
  lemma AtMostOneMainSha(lines: seq<string>, g: UrlGuard, j1: nat, j2: nat)
    requires j1 < |lines| && j2 < |lines|
    requires IsMainSha(lines, j1, g) && IsMainSha(lines, j2, g)
    ensures j1 == j2
  {
  }

  /** With the scripts' guard, every line that contains `url ` becomes the
      main url line, unless the line above it is exactly `resource`. */
  lemma UrlLineOverwrittenAsWritten(lines: seq<string>, i: nat, url: string, sha256: string)
    requires i < |lines| && Contains(lines[i], "url ")
    requires !(i > 0 && lines[i - 1] == "resource")
    ensures RewriteLines(lines, url, sha256, ListMembership)[i] == UrlLine(url)
  {
  }

  /** In particular the url line of a resource block, under its header
      `  resource "<name>" do`, is overwritten with the main url. */
  lemma ResourceUrlOverwrittenAsWritten(lines: seq<string>, i: nat, name: string, prior: string, url: string, sha256: string)
    requires 0 < i < |lines|
    requires lines[i - 1] == "  resource \"" + name + "\" do" && lines[i] == "    url \"" + prior + "\""
    ensures RewriteLines(lines, url, sha256, ListMembership)[i] == UrlLine(url)
    ensures RewriteLines(lines, url, sha256, ListMembership)[i] != lines[i]
  {
    ResourceUrlLine(prior);
    assert lines[i - 1][0] == ' ';
    assert IsUrlLine(lines, i, ListMembership);
    assert UrlLine(url)[2] != lines[i][2];
  }

  /** A url line of a resource block contains `url `. */
  lemma ResourceUrlLine(url: string)
    ensures Contains("    url \"" + url + "\"", "url ")
  {
    assert "    url \"" == "    " + "url " + "\"";
    assert "    url \"" + url + "\"" == "    " + "url " + ("\"" + url + "\"");
    ContainsMiddle("    ", "url ", "\"" + url + "\"");
  }

  /** With the intended guard, a line directly under a line that mentions
      `resource` is never rewritten to the main url. */
  lemma ResourceUrlKeptCorrected(lines: seq<string>, i: nat, url: string, sha256: string)
    requires 0 < i < |lines| && Contains(lines[i - 1], "resource")
    requires !Contains(lines[i], "sha256")
    ensures RewriteLines(lines, url, sha256, Substring)[i] == lines[i]
  {
  }
}
