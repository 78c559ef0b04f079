/** `re.sub` for the four patterns `update_formula` substitutes with
    (scripts/update_formulas.py:136-148, 183-187, 199-203). Scanning from the
    left, at each position either the pattern matches, and the match is
    replaced and scanning resumes after it, or one character is copied. None
    of the patterns can match the empty string, so this is exactly Python's
    leftmost, non-overlapping replacement. */
module Substitute {
  import opened Wrappers
  import opened Text
  import opened Matchers
  import opened UrlRules
  import opened Resources

  /** A pattern together with its replacement. */
  datatype Rule =
    | HostedUrl(path: string)     // lines 136-140, with `tarball_url.split("packages/")[1]`
    | ArchiveUrl(url: string)     // lines 144-148, with `tarball_url`, as written
    | ArchiveUrlFixed(url: string) // lines 144-148, with the replacement evidently intended
    | RemoveBlock                 // lines 183-187
    | InsertBefore(text: string)  // lines 199-203, with `resources_text`

  /** `(\n  def install)` */
  const InstallMarker := "\n  def install"

  function MatchSpan(s: string, r: Rule, i: nat): (m: Option<Span>)
    requires i <= |s|
    ensures m.Some? ==> i < m.value.end <= |s|
  {
    match r
    case HostedUrl(_) => HostedUrlAt(s, i)
    case ArchiveUrl(_) => ArchiveUrlAt(s, i)
    case ArchiveUrlFixed(_) => ArchiveUrlAt(s, i)
    case RemoveBlock => BlockSpan(s, i)
    case InsertBefore(_) =>
      if OccursAt(s, InstallMarker, i) then Some(Span(i + |InstallMarker|, InstallMarker)) else None
  }

  /** The replacement template, filled in with the match's first group. The
      scripts' template for the second url pattern, `\g<1>{tarball_url}\2`,
      puts back the matched `.tar.gz"` after a url that already ends in
      `.tar.gz`; `ArchiveUrlFixed` is the template `\g<1>{tarball_url}"`. */
  function Replacement(r: Rule, group: string): string {
    match r
    case HostedUrl(path) => group + path + "\""
    case ArchiveUrl(url) => group + url + ArchiveSuffix + "\""
    case ArchiveUrlFixed(url) => group + url + "\""
    case RemoveBlock => ""
    case InsertBefore(text) => "\n\n" + text + "\n" + group
  }

  /** What replaces a match, and where the match ends. */
  datatype Hit = Hit(end: nat, text: string)

  /** Every match ends after it starts and within the text. */
  predicate HitsFit(s: string, hits: seq<Option<Hit>>) {
    && |hits| == |s|
    && forall k :: 0 <= k < |s| && hits[k].Some? ==> k < hits[k].value.end <= |s|
  }

  /** The match of rule `r` at position `k`, with its replacement. */
  function HitAt(s: string, r: Rule, k: nat): (h: Option<Hit>)
    requires k < |s|
    ensures h.Some? <==> MatchSpan(s, r, k).Some?
    ensures h.Some? ==> h.value == Hit(MatchSpan(s, r, k).value.end, Replacement(r, MatchSpan(s, r, k).value.group))
    ensures h.Some? ==> k < h.value.end <= |s|
  {
    match MatchSpan(s, r, k)
    case None => None
    case Some(m) => Some(Hit(m.end, Replacement(r, m.group)))
  }

  /** For each position, the match of rule `r` there with its replacement. */
  function Hits(s: string, r: Rule): (hits: seq<Option<Hit>>)
    ensures HitsFit(s, hits)
    ensures forall k :: 0 <= k < |s| ==> hits[k] == HitAt(s, r, k)
  {
    seq(|s|, k requires 0 <= k < |s| => HitAt(s, r, k))
  }

  /** The scan from position `i`: a match is replaced and skipped, any other
      character is copied. */
  function Rewrite(s: string, hits: seq<Option<Hit>>, i: nat): string
    requires HitsFit(s, hits) && i <= |s|
    decreases |s| - i
  {
    if i == |s| then ""
    else match hits[i]
      case Some(h) => h.text + Rewrite(s, hits, h.end)
      case None => [s[i]] + Rewrite(s, hits, i + 1)
  }

  /** `re.sub(pattern, replacement, s)`; a text in which the pattern
      matches nowhere comes back unchanged. */
  function Sub(s: string, r: Rule): (t: string)
    ensures (forall j :: 0 <= j < |s| ==> MatchSpan(s, r, j).None?) ==> t == s
  {
    var hits := Hits(s, r);
    assert (forall j :: 0 <= j < |s| ==> MatchSpan(s, r, j).None?) ==> Rewrite(s, hits, 0) == s by {
      if forall j :: 0 <= j < |s| ==> MatchSpan(s, r, j).None? {
        assert NoHitBetween(hits, 0, |s|);
        RewriteUnchanged(s, hits, 0);
      }
    }
    Rewrite(s, hits, 0)
  }

  /** `re.sub(pattern, replacement, s, count=1)`: only the leftmost match
      is replaced; a text in which the pattern matches nowhere comes back
      unchanged. */
  function SubFirst(s: string, r: Rule): (t: string)
    ensures (forall j :: 0 <= j < |s| ==> MatchSpan(s, r, j).None?) ==> t == s
  {
    var hits := Hits(s, r);
    assert (forall j :: 0 <= j < |s| ==> MatchSpan(s, r, j).None?) ==> RewriteFirst(s, hits, 0) == s by {
      if forall j :: 0 <= j < |s| ==> MatchSpan(s, r, j).None? {
        assert NoHitBetween(hits, 0, |s|);
        RewriteFirstUnchanged(s, hits, 0);
      }
    }
    RewriteFirst(s, hits, 0)
  }

  /** The scan from position `i` that stops after the first replacement. */
  function RewriteFirst(s: string, hits: seq<Option<Hit>>, i: nat): string
    requires HitsFit(s, hits) && i <= |s|
    decreases |s| - i
  {
    if i == |s| then ""
    else match hits[i]
      case Some(h) => h.text + s[h.end..]
      case None => [s[i]] + RewriteFirst(s, hits, i + 1)
  }

  predicate NoHitBetween(hits: seq<Option<Hit>>, i: nat, j: nat)
    requires i <= j <= |hits|
  {
    forall k :: i <= k < j ==> hits[k].None?
  }

  /** Where the pattern does not match, the text is copied unchanged. */
  lemma {:induction false} RewriteUnchanged(s: string, hits: seq<Option<Hit>>, i: nat)
    requires HitsFit(s, hits) && i <= |s| && NoHitBetween(hits, i, |s|)
    ensures Rewrite(s, hits, i) == s[i..]
    decreases |s| - i
  {
    if i < |s| {
      RewriteUnchanged(s, hits, i + 1);
      assert s[i..] == [s[i]] + s[i + 1..];
    }
  }

  /** With no match from `i` on, the scan that stops after the first
      replacement copies the text. */
  lemma {:induction false} RewriteFirstUnchanged(s: string, hits: seq<Option<Hit>>, i: nat)
    requires HitsFit(s, hits) && i <= |s| && NoHitBetween(hits, i, |s|)
    ensures RewriteFirst(s, hits, i) == s[i..]
    decreases |s| - i
  {
    if i < |s| {
      RewriteFirstUnchanged(s, hits, i + 1);
      assert s[i..] == [s[i]] + s[i + 1..];
    }
  }

  /** The text up to the leftmost match is copied, the match is replaced,
      and the rest of the text is copied. */
  lemma {:induction false} RewriteFirstLeftmost(s: string, hits: seq<Option<Hit>>, i: nat, k: nat)
    requires HitsFit(s, hits) && i <= k < |s| && NoHitBetween(hits, i, k) && hits[k].Some?
    ensures RewriteFirst(s, hits, i) == s[i..k] + (hits[k].value.text + s[hits[k].value.end..])
    decreases k - i
  {
    if i < k {
      RewriteFirstLeftmost(s, hits, i + 1, k);
      ConsSlice(s, i, k, hits[k].value.text + s[hits[k].value.end..]);
    } else {
      assert s[i..k] == [];
    }
  }

  /** With `count=1`, the leftmost match is replaced and everything after
      it is kept, further matches included. */
  lemma SubFirstLeftmost(s: string, r: Rule, k: nat)
    requires k < |s| && MatchSpan(s, r, k).Some?
    requires forall j :: 0 <= j < k ==> MatchSpan(s, r, j).None?
    ensures SubFirst(s, r) == s[..k] + Replacement(r, MatchSpan(s, r, k).value.group) + s[MatchSpan(s, r, k).value.end..]
  {
    var hits := Hits(s, r);
    var m := MatchSpan(s, r, k).value;
    assert hits[k] == Some(Hit(m.end, Replacement(r, m.group)));
    assert NoHitBetween(hits, 0, k);
    RewriteFirstLeftmost(s, hits, 0, k);
  }

  /** The text up to the leftmost match is copied, the match is replaced,
      and the scan goes on after the match. */
  lemma {:induction false} RewriteLeftmost(s: string, hits: seq<Option<Hit>>, i: nat, k: nat)
    requires HitsFit(s, hits) && i <= k < |s| && NoHitBetween(hits, i, k) && hits[k].Some?
    ensures Rewrite(s, hits, i) == s[i..k] + (hits[k].value.text + Rewrite(s, hits, hits[k].value.end))
    decreases k - i
  {
    if i < k {
      RewriteCopies(s, hits, i);
      RewriteLeftmost(s, hits, i + 1, k);
      ConsSlice(s, i, k, hits[k].value.text + Rewrite(s, hits, hits[k].value.end));
    } else {
      assert s[i..k] == [];
    }
  }

  /** A character where the pattern does not match is copied. */
  lemma RewriteCopies(s: string, hits: seq<Option<Hit>>, i: nat)
    requires HitsFit(s, hits) && i < |s| && hits[i].None?
    ensures Rewrite(s, hits, i) == [s[i]] + Rewrite(s, hits, i + 1)
  {
  }

  lemma ConsSlice(s: string, i: nat, k: nat, t: string)
    requires i < k <= |s|
    ensures [s[i]] + (s[i + 1..k] + t) == s[i..k] + t
  {
    assert s[i..k] == [s[i]] + s[i + 1..k];
  }

  /** A text in which the pattern matches at `k` only: that match is
      replaced and everything else is copied. */
  lemma SubOnce(s: string, r: Rule, k: nat)
    requires k < |s| && MatchSpan(s, r, k).Some?
    requires forall j :: 0 <= j < |s| && j != k ==> MatchSpan(s, r, j).None?
    ensures Sub(s, r) == s[..k] + Replacement(r, MatchSpan(s, r, k).value.group) + s[MatchSpan(s, r, k).value.end..]
  {
    var hits := Hits(s, r);
    var m := MatchSpan(s, r, k).value;
    MatchHit(s, r, k, m.end, Replacement(r, m.group));
    GapHits(s, r, 0, k);
    GapHits(s, r, m.end, |s|);
    RewriteLeftmost(s, hits, 0, k);
    RewriteUnchanged(s, hits, m.end);
  }

  /** A formula whose only match of the first url pattern is the url
      `HostedPrefix + prior` gets `HostedPrefix + path` there instead. */
  lemma HostedUrlOnce(s: string, k: nat, ws: string, prior: string, path: string)
    requires Spaces(ws) && Unquoted(prior)
    requires OccursAt(s, HostedText(ws, prior), k)
    requires forall j :: 0 <= j < |s| && j != k ==> HostedUrlAt(s, j).None?
    ensures Sub(s, HostedUrl(path)) == s[..k] + HostedText(ws, path) + s[k + |HostedText(ws, prior)|..]
  {
    HostedUrlAtComplete(s, k, ws, prior);
    forall j | 0 <= j < |s| && j != k
      ensures MatchSpan(s, HostedUrl(path), j).None?
    {
    }
    SubOnce(s, HostedUrl(path), k);
  }

  /** A formula whose only match of the second url pattern is at `k`: that
      match is replaced, with `url "` as the group. */
  lemma ArchiveUrlOnce(s: string, k: nat, ws: string, stem: string, r: Rule)
    requires r.ArchiveUrl? || r.ArchiveUrlFixed?
    requires Spaces(ws) && Unquoted(stem)
    requires OccursAt(s, ArchiveText(ws, stem), k)
    requires forall j :: 0 <= j < |s| && j != k ==> ArchiveUrlAt(s, j).None?
    ensures Sub(s, r) == s[..k] + Replacement(r, ArchiveGroup(ws)) + s[k + |ArchiveText(ws, stem)|..]
  {
    ArchiveUrlAtComplete(s, k, ws, stem);
    forall j | 0 <= j < |s| && j != k
      ensures MatchSpan(s, r, j).None?
    {
    }
    SubOnce(s, r, k);
  }

  /** As written, the second url pattern's replacement keeps the matched
      `.tar.gz"`: a formula whose only such url is `stem.tar.gz` gets the new
      url followed by a second `.tar.gz`. */
  lemma ArchiveUrlDoubledAsWritten(s: string, k: nat, ws: string, stem: string, url: string)
    requires Spaces(ws) && Unquoted(stem)
    requires OccursAt(s, ArchiveText(ws, stem), k)
    requires forall j :: 0 <= j < |s| && j != k ==> ArchiveUrlAt(s, j).None?
    requires EndsWith(url, ArchiveSuffix)
    ensures Sub(s, ArchiveUrl(url)) == s[..k] + (ArchiveGroup(ws) + url + ArchiveSuffix + "\"") + s[k + |ArchiveText(ws, stem)|..]
    ensures EndsWith(url + ArchiveSuffix, ".tar.gz.tar.gz")
  {
    ArchiveUrlOnce(s, k, ws, stem, ArchiveUrl(url));
    DoubledSuffix(url);
  }

  lemma DoubledSuffix(url: string)
    requires EndsWith(url, ArchiveSuffix)
    ensures EndsWith(url + ArchiveSuffix, ".tar.gz.tar.gz")
  {
    var t := url + ArchiveSuffix;
    assert t[|t| - 14..] == url[|url| - 7..] + ArchiveSuffix;
  }

  /** With the intended replacement, the url is replaced by the new url. */
  lemma ArchiveUrlFixedOnce(s: string, k: nat, ws: string, stem: string, url: string)
    requires Spaces(ws) && Unquoted(stem)
    requires OccursAt(s, ArchiveText(ws, stem), k)
    requires forall j :: 0 <= j < |s| && j != k ==> ArchiveUrlAt(s, j).None?
    ensures Sub(s, ArchiveUrlFixed(url)) == s[..k] + QuotedText("url", ws, url) + s[k + |ArchiveText(ws, stem)|..]
  {
    ArchiveUrlOnce(s, k, ws, stem, ArchiveUrlFixed(url));
  }

  /** With `count=1`, a formula whose first match of the first url pattern
      is the url `HostedPrefix + prior` at `k` gets `HostedPrefix + path`
      there; the rest of the text, later hosted urls included, is kept. */
  lemma HostedUrlFirst(s: string, k: nat, ws: string, prior: string, path: string)
    requires Spaces(ws) && Unquoted(prior)
    requires OccursAt(s, HostedText(ws, prior), k)
    requires forall j :: 0 <= j < k ==> HostedUrlAt(s, j).None?
    ensures SubFirst(s, HostedUrl(path)) == s[..k] + HostedText(ws, path) + s[k + |HostedText(ws, prior)|..]
  {
    HostedUrlAtComplete(s, k, ws, prior);
    forall j | 0 <= j < k
      ensures MatchSpan(s, HostedUrl(path), j).None?
    {
    }
    SubFirstLeftmost(s, HostedUrl(path), k);
  }

  /** With `count=1` and the intended template, the first url ending in
      `.tar.gz` becomes exactly the new url; the rest of the text is kept. */
  lemma ArchiveUrlFixedFirst(s: string, k: nat, ws: string, stem: string, url: string)
    requires Spaces(ws) && Unquoted(stem)
    requires OccursAt(s, ArchiveText(ws, stem), k)
    requires forall j :: 0 <= j < k ==> ArchiveUrlAt(s, j).None?
    ensures SubFirst(s, ArchiveUrlFixed(url)) == s[..k] + QuotedText("url", ws, url) + s[k + |ArchiveText(ws, stem)|..]
  {
    ArchiveUrlAtComplete(s, k, ws, stem);
    forall j | 0 <= j < k
      ensures MatchSpan(s, ArchiveUrlFixed(url), j).None?
    {
    }
    SubFirstLeftmost(s, ArchiveUrlFixed(url), k);
  }

  /** A text without a resource block is left as it is by the removal. */
  lemma RemoveNothing(s: string)
    requires forall j :: 0 <= j < |s| ==> BlockAt(s, j).None?
    ensures Sub(s, RemoveBlock) == s
  {
    var hits := Hits(s, RemoveBlock);
    assert NoHitBetween(hits, 0, |s|) by {
      forall j | 0 <= j < |s| ensures hits[j].None? {
        BlockHit(s, j);
      }
    }
    RewriteUnchanged(s, hits, 0);
  }

  /** With exactly one `\n  def install`, the resources text goes right
      before it, after a blank line. */
  lemma InsertOnce(s: string, text: string, k: nat)
    requires OccursAt(s, InstallMarker, k)
    requires forall j :: 0 <= j <= |s| && j != k ==> !OccursAt(s, InstallMarker, j)
    ensures Sub(s, InsertBefore(text)) == s[..k] + "\n\n" + text + "\n" + s[k..]
  {
    var e := k + |InstallMarker|;
    assert MatchSpan(s, InsertBefore(text), k) == Some(Span(e, InstallMarker));
    SubOnce(s, InsertBefore(text), k);
    MarkerAhead(s, k, "\n\n" + text + "\n");
  }

  lemma MarkerAhead(s: string, k: nat, t: string)
    requires OccursAt(s, InstallMarker, k)
    ensures s[..k] + (t + InstallMarker) + s[k + |InstallMarker|..] == s[..k] + t + s[k..]
  {
    assert s[k..] == InstallMarker + s[k + |InstallMarker|..];
  }

  /** The removal pattern's matches are the blocks `BlockAt` finds, each
      replaced by nothing. */
  lemma BlockHit(s: string, j: nat)
    requires j < |s|
    ensures Hits(s, RemoveBlock)[j].Some? <==> BlockAt(s, j).Some?
    ensures BlockAt(s, j).Some? ==>
              Hits(s, RemoveBlock)[j] == Some(Hit(j + |BlockText(BlockAt(s, j).value)|, ""))
  {
    assert MatchSpan(s, RemoveBlock, j) == BlockSpan(s, j);
  }

  /** Removing the only block of a text cuts exactly that block out. */
  lemma RemoveAt(s: string, k: nat, f: Fields)
    requires k < |s| && BlockAt(s, k) == Some(f)
    requires forall j :: 0 <= j <= |s| && j != k ==> BlockAt(s, j).None?
    ensures k + |BlockText(f)| <= |s|
    ensures Sub(s, RemoveBlock) == s[..k] + s[k + |BlockText(f)|..]
  {
    var m := BlockSpan(s, k).value;
    assert MatchSpan(s, RemoveBlock, k) == Some(m);
    forall j | 0 <= j < |s| && j != k
      ensures MatchSpan(s, RemoveBlock, j).None?
    {
      assert MatchSpan(s, RemoveBlock, j) == BlockSpan(s, j);
    }
    SubOnce(s, RemoveBlock, k);
    assert Replacement(RemoveBlock, m.group) == "";
    assert s[..k] + "" == s[..k];
  }

  /** Removing the only block of a text leaves the text around it. */
  lemma RemoveOnly(a: string, f: Fields, b: string)
    requires FieldsOk(f)
    requires var s := a + "\n" + RenderBlock(f) + b;
             forall j :: 0 <= j <= |s| && j != |a| ==> BlockAt(s, j).None?
    ensures Sub(a + "\n" + RenderBlock(f) + b, RemoveBlock) == a + b
  {
    var s := a + "\n" + RenderBlock(f) + b;
    RenderedIsBlockText(f);
    var t := BlockText(f);
    assert s == a + t + b;
    assert OccursAt(s, t, |a|) by {
      assert s[|a|..|a| + |t|] == t;
    }
    BlockAtComplete(s, |a|, f);
    RemoveAt(s, |a|, f);
    assert s[..|a|] == a && s[|a| + |t|..] == b;
  }

  // ---------------------------------------------------------------------
  // Texts with several matches

  /** `gaps[0] + ms[0] + gaps[1] + ... + ms[n - 1] + gaps[n]` */
  function Interleave(gaps: seq<string>, ms: seq<string>): string
    requires |gaps| == |ms| + 1
    decreases |ms|
  {
    if |ms| == 0 then gaps[0] else gaps[0] + ms[0] + Interleave(gaps[1..], ms[1..])
  }

  /** `s` from `i` on reads `gaps[0]`, `ms[0]`, `gaps[1]`, ..., `gaps[n]`
      and ends there. */
  predicate LaidOut(s: string, i: nat, gaps: seq<string>, ms: seq<string>)
    requires |gaps| == |ms| + 1
    decreases |ms|
  {
    var p := i + |gaps[0]|;
    && OccursAt(s, gaps[0], i)
    && if |ms| == 0 then p == |s|
       else OccursAt(s, ms[0], p) && LaidOut(s, p + |ms[0]|, gaps[1..], ms[1..])
  }

  /** The text `Interleave(gaps, ms)` is laid out as its gaps and matches. */
  lemma {:induction false} InterleaveLaidOut(s: string, i: nat, gaps: seq<string>, ms: seq<string>)
    requires |gaps| == |ms| + 1 && i <= |s| && s[i..] == Interleave(gaps, ms)
    ensures LaidOut(s, i, gaps, ms)
    decreases |ms|
  {
    if |ms| == 0 {
      assert s[i..i + |gaps[0]|] == s[i..];
    } else {
      var p := i + |gaps[0]|;
      SliceParts(s, i, gaps[0], ms[0], Interleave(gaps[1..], ms[1..]));
      assert s[p..p + |ms[0]|] == s[p..][..|ms[0]|];
      InterleaveLaidOut(s, p + |ms[0]|, gaps[1..], ms[1..]);
    }
  }

  /** Reading `a + b + c` off `s` at `i`. */
  lemma SliceParts(s: string, i: nat, a: string, b: string, c: string)
    requires i <= |s| && s[i..] == a + b + c
    ensures i + |a| + |b| <= |s|
    ensures s[i..i + |a|] == a && s[i + |a|..] == b + c && s[i + |a| + |b|..] == c
  {
    assert s[i..][..|a|] == a;
    assert s[i..][|a|..] == b + c;
    assert s[i..][|a| + |b|..] == c;
  }

  /** Reading the text from `i` as laid out by `gaps` and `ms`, the pattern
      matches at no position of a gap. */
  predicate GapsFree(hits: seq<Option<Hit>>, i: nat, gaps: seq<string>, ms: seq<string>)
    requires |gaps| == |ms| + 1
    decreases |ms|
  {
    var p := i + |gaps[0]|;
    && p <= |hits|
    && NoHitBetween(hits, i, p)
    && (|ms| > 0 ==> GapsFree(hits, p + |ms[0]|, gaps[1..], ms[1..]))
  }

  /** Reading the text from `i` as laid out by `gaps` and `ms`, the pattern
      matches each `ms[k]` at its start, exactly, and replaces it by
      `ts[k]`. */
  predicate MatchesReplaced(hits: seq<Option<Hit>>, i: nat, gaps: seq<string>, ms: seq<string>, ts: seq<string>)
    requires |gaps| == |ms| + 1 && |ts| == |ms|
    decreases |ms|
  {
    |ms| > 0 ==>
      var p := i + |gaps[0]|;
      && p < |hits|
      && hits[p] == Some(Hit(p + |ms[0]|, ts[0]))
      && MatchesReplaced(hits, p + |ms[0]|, gaps[1..], ms[1..], ts[1..])
  }

  /** `re.sub` on a text laid out as gaps and matches: the gaps are copied
      and every match is replaced. */
  lemma {:induction false} RewriteLaidOut(s: string, hits: seq<Option<Hit>>, i: nat, gaps: seq<string>, ms: seq<string>, ts: seq<string>)
    requires HitsFit(s, hits) && |gaps| == |ms| + 1 && |ts| == |ms| && LaidOut(s, i, gaps, ms)
    requires GapsFree(hits, i, gaps, ms) && MatchesReplaced(hits, i, gaps, ms, ts)
    ensures Rewrite(s, hits, i) == Interleave(gaps, ts)
    decreases |ms|
  {
    var p := i + |gaps[0]|;
    if |ms| == 0 {
      RewriteUnchanged(s, hits, i);
      assert s[i..] == s[i..p];
    } else {
      var e := p + |ms[0]|;
      RewriteLeftmost(s, hits, i, p);
      RewriteLaidOut(s, hits, e, gaps[1..], ms[1..], ts[1..]);
    }
  }

  /** A match at `p` is a hit there. */
  lemma MatchHit(s: string, r: Rule, p: nat, e: nat, t: string)
    requires p < |s| && MatchSpan(s, r, p).Some? && MatchSpan(s, r, p).value.end == e
    requires Replacement(r, MatchSpan(s, r, p).value.group) == t
    ensures Hits(s, r)[p] == Some(Hit(e, t))
  {
  }

  /** Where the pattern does not match, there is no hit. */
  lemma GapHits(s: string, r: Rule, i: nat, p: nat)
    requires i <= p <= |s| && forall j :: i <= j < p ==> MatchSpan(s, r, j).None?
    ensures NoHitBetween(Hits(s, r), i, p)
  {
  }

  /** `re.sub` on a whole text laid out as gaps and matches. */
  lemma SubLaidOut(s: string, r: Rule, gaps: seq<string>, ms: seq<string>, ts: seq<string>)
    requires |gaps| == |ms| + 1 && |ts| == |ms| && LaidOut(s, 0, gaps, ms)
    requires GapsFree(Hits(s, r), 0, gaps, ms) && MatchesReplaced(Hits(s, r), 0, gaps, ms, ts)
    ensures Sub(s, r) == Interleave(gaps, ts)
  {
    RewriteLaidOut(s, Hits(s, r), 0, gaps, ms, ts);
  }

  /** `n` empty strings. */
  function Blank(n: nat): (r: seq<string>)
    ensures |r| == n && forall k :: 0 <= k < n ==> r[k] == ""
  {
    seq(n, k => "")
  }

  /** With every match replaced by nothing, what is left is the gaps. */
  lemma {:induction false} InterleaveBlank(gaps: seq<string>)
    requires |gaps| >= 1
    ensures Interleave(gaps, Blank(|gaps| - 1)) == Concat(gaps)
    decreases |gaps|
  {
    if |gaps| > 1 {
      InterleaveBlank(gaps[1..]);
      assert Blank(|gaps| - 1)[1..] == Blank(|gaps| - 2);
    } else {
      assert Concat(gaps) == gaps[0] + Concat(gaps[1..]);
    }
  }

  /** `re.sub` with an empty replacement on a text laid out as gaps and
      matches leaves the gaps. */
  lemma SubErases(s: string, r: Rule, gaps: seq<string>, ms: seq<string>)
    requires |gaps| == |ms| + 1 && LaidOut(s, 0, gaps, ms)
    requires GapsFree(Hits(s, r), 0, gaps, ms) && MatchesReplaced(Hits(s, r), 0, gaps, ms, Blank(|ms|))
    ensures Sub(s, r) == Concat(gaps)
  {
    SubLaidOut(s, r, gaps, ms, Blank(|ms|));
    InterleaveBlank(gaps);
  }

  /** Every occurrence of each `ms[k]` in `s` is a hit, replaced by `ts[k]`. */
  ghost predicate ReplacedWherever(s: string, hits: seq<Option<Hit>>, ms: seq<string>, ts: seq<string>)
    requires |hits| == |s| && |ts| == |ms|
  {
    forall k, p: nat {:trigger OccursAt(s, ms[k], p)} :: 0 <= k < |ms| && OccursAt(s, ms[k], p) ==> p < |s| && hits[p] == Some(Hit(p + |ms[k]|, ts[k]))
  }

  /** When every occurrence of each `ms[k]` is a match that the pattern
      replaces by `ts[k]`, a text laid out as gaps and `ms` has its matches
      replaced. */
  lemma {:induction false} EveryMatchReplaced(s: string, hits: seq<Option<Hit>>, i: nat, gaps: seq<string>, ms: seq<string>, ts: seq<string>)
    requires |gaps| == |ms| + 1 && |ts| == |ms| && LaidOut(s, i, gaps, ms) && |hits| == |s|
    requires ReplacedWherever(s, hits, ms, ts)
    ensures MatchesReplaced(hits, i, gaps, ms, ts)
    decreases |ms|
  {
    if |ms| > 0 {
      var p := i + |gaps[0]|;
      var ms', ts' := ms[1..], ts[1..];
      assert OccursAt(s, ms[0], p);
      forall k, q: nat | 0 <= k < |ms'| && OccursAt(s, ms'[k], q)
        ensures q < |s| && hits[q] == Some(Hit(q + |ms'[k]|, ts'[k]))
      {
        assert ms'[k] == ms[k + 1] && ts'[k] == ts[k + 1];
        assert OccursAt(s, ms[k + 1], q);
        assert q < |s| && hits[q] == Some(Hit(q + |ms[k + 1]|, ts[k + 1]));
      }
      assert ReplacedWherever(s, hits, ms', ts');
      EveryMatchReplaced(s, hits, p + |ms[0]|, gaps[1..], ms', ts');
    }
  }

  /** The blocks as they stand in a formula, each after a newline: by
      `RenderedIsBlockText`, block `k` is `"\n" + RenderBlock(fs[k])`. */
  function BlockTexts(fs: seq<Fields>): (ms: seq<string>)
    ensures |ms| == |fs| && forall k :: 0 <= k < |fs| ==> ms[k] == BlockText(fs[k])
  {
    seq(|fs|, k requires 0 <= k < |fs| => BlockText(fs[k]))
  }

  lemma BlockMatched(s: string, p: nat, f: Fields)
    requires FieldsOk(f) && OccursAt(s, BlockText(f), p)
    ensures p < |s| && Hits(s, RemoveBlock)[p] == Some(Hit(p + |BlockText(f)|, ""))
  {
    BlockAtComplete(s, p, f);
    assert MatchSpan(s, RemoveBlock, p) == BlockSpan(s, p);
    MatchHit(s, RemoveBlock, p, p + |BlockText(f)|, "");
  }

  /** Every block in `s` is a hit, replaced by nothing. */
  ghost predicate BlockHits(s: string, hits: seq<Option<Hit>>)
    requires |hits| == |s|
  {
    forall f, p: nat {:trigger OccursAt(s, BlockText(f), p)} ::
      FieldsOk(f) && OccursAt(s, BlockText(f), p) ==> p < |s| && hits[p] == Some(Hit(p + |BlockText(f)|, ""))
  }

  /** Wherever a block stands, the removal pattern matches it whole. */
  lemma BlocksAnywhere(s: string)
    ensures BlockHits(s, Hits(s, RemoveBlock))
  {
    forall f, p: nat {:trigger OccursAt(s, BlockText(f), p)} | FieldsOk(f) && OccursAt(s, BlockText(f), p)
      ensures p < |s| && Hits(s, RemoveBlock)[p] == Some(Hit(p + |BlockText(f)|, ""))
    {
      BlockMatched(s, p, f);
    }
  }

  lemma BlocksWherever(s: string, hits: seq<Option<Hit>>, fs: seq<Fields>)
    requires |hits| == |s| && BlockHits(s, hits)
    requires forall k :: 0 <= k < |fs| ==> FieldsOk(fs[k])
    ensures ReplacedWherever(s, hits, BlockTexts(fs), Blank(|fs|))
  {
    var ms := BlockTexts(fs);
    forall k, p: nat {:trigger OccursAt(s, ms[k], p)} | 0 <= k < |ms| && OccursAt(s, ms[k], p)
      ensures p < |s| && hits[p] == Some(Hit(p + |ms[k]|, Blank(|fs|)[k]))
    {
      assert OccursAt(s, BlockText(fs[k]), p);
    }
  }

  /** Removing the blocks of a formula that holds any number of them, with
      no other match of the removal pattern: what is left is the text
      between them. */
  lemma RemoveBlocks(s: string, gaps: seq<string>, fs: seq<Fields>)
    requires |gaps| == |fs| + 1 && forall k :: 0 <= k < |fs| ==> FieldsOk(fs[k])
    requires LaidOut(s, 0, gaps, BlockTexts(fs))
    requires GapsFree(Hits(s, RemoveBlock), 0, gaps, BlockTexts(fs))
    ensures Sub(s, RemoveBlock) == Concat(gaps)
  {
    BlocksAnywhere(s);
    BlocksWherever(s, Hits(s, RemoveBlock), fs);
    EveryMatchReplaced(s, Hits(s, RemoveBlock), 0, gaps, BlockTexts(fs), Blank(|fs|));
    SubErases(s, RemoveBlock, gaps, BlockTexts(fs));
  }

  /** Hosted urls with the white space after `url` and the path of each. */
  function HostedTexts(wss: seq<string>, paths: seq<string>): (ms: seq<string>)
    requires |wss| == |paths|
    ensures |ms| == |wss| && forall k :: 0 <= k < |wss| ==> ms[k] == HostedText(wss[k], paths[k])
  {
    seq(|wss|, k requires 0 <= k < |wss| => HostedText(wss[k], paths[k]))
  }

  /** `n` copies of `x`. */
  function Copies(x: string, n: nat): (r: seq<string>)
    ensures |r| == n && forall k :: 0 <= k < n ==> r[k] == x
  {
    seq(n, k => x)
  }

  lemma HostedMatched(s: string, p: nat, ws: string, prior: string, path: string)
    requires Spaces(ws) && Unquoted(prior) && OccursAt(s, HostedText(ws, prior), p)
    ensures p < |s| && Hits(s, HostedUrl(path))[p] == Some(Hit(p + |HostedText(ws, prior)|, HostedText(ws, path)))
  {
    HostedUrlAtComplete(s, p, ws, prior);
    MatchHit(s, HostedUrl(path), p, p + |HostedText(ws, prior)|, HostedText(ws, path));
  }

  /** Every hosted url in `s` is a hit, replaced by the url with `path`. */
  ghost predicate HostedHits(s: string, hits: seq<Option<Hit>>, path: string)
    requires |hits| == |s|
  {
    forall ws, prior, p: nat {:trigger OccursAt(s, HostedText(ws, prior), p)} ::
      Spaces(ws) && Unquoted(prior) && OccursAt(s, HostedText(ws, prior), p)
      ==> p < |s| && hits[p] == Some(Hit(p + |HostedText(ws, prior)|, HostedText(ws, path)))
  }

  /** Wherever a hosted url stands, the first url pattern matches it and
      puts in the new path. */
  lemma HostedAnywhere(s: string, path: string)
    ensures HostedHits(s, Hits(s, HostedUrl(path)), path)
  {
    forall ws, prior, p: nat {:trigger OccursAt(s, HostedText(ws, prior), p)}
      | Spaces(ws) && Unquoted(prior) && OccursAt(s, HostedText(ws, prior), p)
      ensures p < |s| && Hits(s, HostedUrl(path))[p] == Some(Hit(p + |HostedText(ws, prior)|, HostedText(ws, path)))
    {
      HostedMatched(s, p, ws, prior, path);
    }
  }

  lemma HostedWherever(s: string, hits: seq<Option<Hit>>, wss: seq<string>, priors: seq<string>, path: string)
    requires |hits| == |s| && HostedHits(s, hits, path)
    requires |priors| == |wss| && forall k :: 0 <= k < |wss| ==> Spaces(wss[k]) && Unquoted(priors[k])
    ensures ReplacedWherever(s, hits, HostedTexts(wss, priors), HostedTexts(wss, Copies(path, |wss|)))
  {
    var ms := HostedTexts(wss, priors);
    var ts := HostedTexts(wss, Copies(path, |wss|));
    forall k, p: nat {:trigger OccursAt(s, ms[k], p)} | 0 <= k < |ms| && OccursAt(s, ms[k], p)
      ensures p < |s| && hits[p] == Some(Hit(p + |ms[k]|, ts[k]))
    {
      assert OccursAt(s, HostedText(wss[k], priors[k]), p);
    }
  }

  /** As written, every hosted url of the formula gets the new path, the
      urls of resource blocks as much as the formula's own. */
  lemma SubHostedUrls(s: string, gaps: seq<string>, wss: seq<string>, priors: seq<string>, path: string)
    requires |gaps| == |wss| + 1 && |priors| == |wss|
    requires forall k :: 0 <= k < |wss| ==> Spaces(wss[k]) && Unquoted(priors[k])
    requires LaidOut(s, 0, gaps, HostedTexts(wss, priors))
    requires GapsFree(Hits(s, HostedUrl(path)), 0, gaps, HostedTexts(wss, priors))
    ensures Sub(s, HostedUrl(path)) == Interleave(gaps, HostedTexts(wss, Copies(path, |wss|)))
  {
    var ms := HostedTexts(wss, priors);
    var ts := HostedTexts(wss, Copies(path, |wss|));
    HostedAnywhere(s, path);
    HostedWherever(s, Hits(s, HostedUrl(path)), wss, priors, path);
    EveryMatchReplaced(s, Hits(s, HostedUrl(path)), 0, gaps, ms, ts);
    SubLaidOut(s, HostedUrl(path), gaps, ms, ts);
  }

  /** With no `\n  def install` in the text, the insertion finds nothing
      to put the resources before, and the text comes back unchanged. */
  lemma InsertNowhere(s: string, text: string)
    requires forall j :: 0 <= j < |s| ==> !OccursAt(s, InstallMarker, j)
    ensures Sub(s, InsertBefore(text)) == s
  {
    var hits := Hits(s, InsertBefore(text));
    assert NoHitBetween(hits, 0, |s|) by {
      forall j | 0 <= j < |s| ensures hits[j].None? {
        assert MatchSpan(s, InsertBefore(text), j).None?;
      }
    }
    RewriteUnchanged(s, hits, 0);
  }

  /** Every `\n  def install` in `s` is a hit, replaced by the resources
      text in front of it. */
  lemma MarkersAnywhere(s: string, hits: seq<Option<Hit>>, n: nat, text: string)
    requires hits == Hits(s, InsertBefore(text))
    ensures ReplacedWherever(s, hits, Copies(InstallMarker, n), Copies("\n\n" + text + "\n" + InstallMarker, n))
  {
    var ms := Copies(InstallMarker, n);
    var ts := Copies("\n\n" + text + "\n" + InstallMarker, n);
    forall k, p: nat {:trigger OccursAt(s, ms[k], p)} | 0 <= k < |ms| && OccursAt(s, ms[k], p)
      ensures p < |s| && hits[p] == Some(Hit(p + |ms[k]|, ts[k]))
    {
      assert MatchSpan(s, InsertBefore(text), p) == Some(Span(p + |InstallMarker|, InstallMarker));
    }
  }

  /** The insertion has no `count`: in a text laid out as gaps without a
      `\n  def install` and any number of them between the gaps, the
      resources text goes before every one. */
  lemma InsertEvery(s: string, gaps: seq<string>, text: string)
    requires |gaps| >= 1
    requires LaidOut(s, 0, gaps, Copies(InstallMarker, |gaps| - 1))
    requires GapsFree(Hits(s, InsertBefore(text)), 0, gaps, Copies(InstallMarker, |gaps| - 1))
    ensures Sub(s, InsertBefore(text)) == Interleave(gaps, Copies("\n\n" + text + "\n" + InstallMarker, |gaps| - 1))
  {
    var n := |gaps| - 1;
    MarkersAnywhere(s, Hits(s, InsertBefore(text)), n, text);
    EveryMatchReplaced(s, Hits(s, InsertBefore(text)), 0, gaps, Copies(InstallMarker, n),
                       Copies("\n\n" + text + "\n" + InstallMarker, n));
    SubLaidOut(s, InsertBefore(text), gaps, Copies(InstallMarker, n), Copies("\n\n" + text + "\n" + InstallMarker, n));
  }
}
