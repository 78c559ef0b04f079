/** What the writer puts into a formula is what the update checker reads
    back: once `update_formula` (scripts/update_formulas.py:118-206) has put
    a new PyPI url into a formula, `extract_formula_info`
    (scripts/check_updates.py:38-75) reads that url's version and project
    name out of the written text. */
module RoundTrip {
  import opened Wrappers
  import opened Text
  import opened Matchers
  import opened Archive
  import opened UrlRules
  import opened LinePass
  import opened PyPI
  import opened Deps
  import opened FormulaReader
  import opened FormulaWriter

  /** An occurrence of `t` in `a + [c] + b` lies inside `a`, inside `b`,
      or across the `c`. */
  lemma OccursAcross(a: string, c: char, b: string, t: string, j: int)
    ensures OccursAt(a + [c] + b, t, j) ==> OccursAt(a, t, j) || OccursAt(b, t, j - |a| - 1) || c in t
  {
    var s := a + [c] + b;
    if OccursAt(s, t, j) {
      if j + |t| <= |a| {
        assert s[j..j + |t|] == a[j..j + |t|];
      } else if j > |a| {
        assert s[j..j + |t|] == b[j - |a| - 1..j - |a| - 1 + |t|];
      } else {
        assert s[j..j + |t|][|a| - j] == s[|a|];
      }
    }
  }

  /** Two texts without `t` joined by a newline, when `t` has none, have no
      `t` either. */
  lemma NotAcross(a: string, b: string, t: string)
    requires '\n' !in t && !Contains(a, t) && !Contains(b, t)
    ensures !Contains(a + "\n" + b, t)
  {
    forall j | 0 <= j
      ensures !OccursAt(a + "\n" + b, t, j)
    {
      OccursAcross(a, '\n', b, t, j);
    }
  }

  /** No line contains `t` and `t` has no newline: neither does the text
      the lines are joined into. */
  lemma {:induction false} JoinAvoids(ps: seq<string>, t: string)
    requires |ps| >= 1 && '\n' !in t
    requires forall k :: 0 <= k < |ps| ==> !Contains(ps[k], t)
    ensures !Contains(Join(ps, "\n"), t)
    decreases |ps|
  {
    if |ps| > 1 {
      assert forall k :: 0 <= k < |ps[1..]| ==> ps[1..][k] == ps[k + 1];
      JoinAvoids(ps[1..], t);
      NotAcross(ps[0], Join(ps[1..], "\n"), t);
    }
  }

  /** The first newline of `a + "\n" + b`, when `a` has none, ends `a`. */
  lemma NewlineFirst(a: string, b: string)
    requires '\n' !in a
    ensures IndexFrom(a + "\n" + b, "\n", 0) == Some(|a|)
  {
    var s := a + "\n" + b;
    assert s[|a|..|a| + 1] == "\n";
    forall k | 0 <= k < |a|
      ensures !OccursAt(s, "\n", k)
    {
      assert s[k] == a[k];
    }
    FirstOccurrence(s, "\n", |a|);
  }

  /** Splitting lines joined by newlines, followed by a newline and more
      text, gives back the lines and then the lines of that text. */
  lemma {:induction false} SplitAfterLines(ps: seq<string>, x: string)
    requires |ps| >= 1 && forall k :: 0 <= k < |ps| ==> '\n' !in ps[k]
    ensures Split(Join(ps, "\n") + "\n" + x, "\n") == ps + Split(x, "\n")
    decreases |ps|
  {
    var s := Join(ps, "\n") + "\n" + x;
    if |ps| == 1 {
      assert s == ps[0] + "\n" + x;
      SplitOff(ps[0], x);
      assert ps == [ps[0]];
    } else {
      var rest := Join(ps[1..], "\n") + "\n" + x;
      assert s == ps[0] + "\n" + rest;
      SplitOff(ps[0], rest);
      assert forall k :: 0 <= k < |ps[1..]| ==> ps[1..][k] == ps[k + 1];
      SplitAfterLines(ps[1..], x);
      Associate([ps[0]], ps[1..], Split(x, "\n"));
      assert ps == [ps[0]] + ps[1..];
    }
  }

  /** Concatenation of sequences is associative. */
  lemma Associate<T>(a: seq<T>, b: seq<T>, c: seq<T>)
    ensures a + (b + c) == (a + b) + c
  {
  }

  /** Splitting a line without newline, a newline and more text. */
  lemma SplitOff(a: string, b: string)
    requires '\n' !in a
    ensures Split(a + "\n" + b, "\n") == [a] + Split(b, "\n")
  {
    var s := a + "\n" + b;
    NewlineFirst(a, b);
    SplitAt(s, "\n", |a|);
    assert s[..|a|] == a;
    assert s[|a| + 1..] == b;
  }

  /** The first line of a text that starts with `  url ` contains `url `. */
  lemma UrlFirstLine(x: string)
    requires |x| >= 6 && x[..6] == "  url "
    ensures Contains(Split(x, "\n")[0], "url ")
  {
    if IndexFrom(x, "\n", 0).None? {
      assert Split(x, "\n") == [x];
      IndentedUrlLine(x);
    } else {
      FirstLineHasUrl(x, IndexFrom(x, "\n", 0).value);
    }
  }

  lemma FirstLineHasUrl(x: string, i: nat)
    requires |x| >= 6 && x[..6] == "  url " && IndexFrom(x, "\n", 0) == Some(i)
    ensures Contains(Split(x, "\n")[0], "url ")
  {
    SplitAt(x, "\n", i);
    NewlineAfterIndent(x, i);
    assert x[..i][..6] == x[..6];
    IndentedUrlLine(x[..i]);
  }

  /** A line starting with `  url ` contains `url `. */
  lemma IndentedUrlLine(y: string)
    requires |y| >= 6 && y[..6] == "  url "
    ensures Contains(y, "url ")
  {
    assert y[2..6] == y[..6][2..6];
    ContainsAt(y, "url ", 2);
  }

  /** A newline in a text starting with `  url ` comes after that. */
  lemma NewlineAfterIndent(x: string, i: nat)
    requires |x| >= 6 && x[..6] == "  url " && OccursAt(x, "\n", i)
    ensures i >= 6
  {
    assert x[i] == x[i..i + 1][0] == '\n';
    assert forall k :: 0 <= k < 6 ==> x[k] == x[..6][k];
  }

  /** Joined lines, cut before line `i`. */
  lemma {:induction false} JoinAt(ps: seq<string>, i: nat)
    requires 0 < i < |ps|
    ensures Join(ps, "\n") == Join(ps[..i], "\n") + "\n" + Join(ps[i..], "\n")
    decreases i
  {
    if i == 1 {
      assert ps[..1] == [ps[0]];
    } else {
      JoinAt(ps[1..], i - 1);
      assert ps[1..][..i - 1] == ps[..i][1..];
      assert ps[1..][i - 1..] == ps[i..];
    }
  }

  /** `re.search` reports the leftmost match. */
  lemma SearchFindsFirst(s: string, p: Pattern, k: nat, g: string)
    requires k <= |s| && MatchAt(s, k, p) == Some(g)
    requires forall j :: 0 <= j < k ==> MatchAt(s, j, p).None?
    ensures Search(s, p) == Some(g)
  {
    var r := SearchFrom(s, p, 0);
    assert r.Some?;
    assert r.value.at == k;
  }

  /** A class declaration in a text is still found in any longer text. */
  lemma ClassKept(a: string, b: string)
    requires Search(a, ClassDecl).Some?
    ensures Search(a + b, ClassDecl).Some?
  {
    var k := SearchFrom(a, ClassDecl, 0).value.at;
    var ws := ClassAtSound(a, k);
    OccursExtended(a, b, Concat(ws), k);
    ClassAtComplete(a + b, k, ws);
    assert MatchAt(a + b, k, ClassDecl).Some?;
  }

  lemma OccursExtended(a: string, b: string, t: string, k: int)
    requires OccursAt(a, t, k)
    ensures OccursAt(a + b, t, k)
  {
    assert (a + b)[k..k + |t|] == a[k..k + |t|];
  }

  /** A text containing `url ` contains `url`. */
  lemma UrlSpaceHasUrl(x: string)
    ensures Contains(x, "url ") ==> Contains(x, "url")
  {
    if Contains(x, "url ") {
      var j := IndexFrom(x, "url ", 0).value;
      assert x[j..j + 3] == x[j..j + 4][..3];
      ContainsAt(x, "url", j);
    }
  }

  /** The line pass keeps the lines above the first line containing
      `url `, when none of them has `url` and the one right above it has no
      `resource`, and turns that line into the new url line. */
  lemma RewriteAbove(lines: seq<string>, n: nat, url: string, sha256: string, g: UrlGuard)
    requires n < |lines| && Contains(lines[n], "url ")
    requires forall k :: 0 <= k < n ==> !Contains(lines[k], "url")
    requires n > 0 ==> !Contains(lines[n - 1], "resource")
    ensures var out := RewriteLines(lines, url, sha256, g);
            out[..n] == lines[..n] && out[n] == UrlLine(url)
  {
    var out := RewriteLines(lines, url, sha256, g);
    forall k | 0 <= k < n
      ensures !IsUrlLine(lines, k, g)
    {
      UrlSpaceHasUrl(lines[k]);
    }
    forall j | 0 <= j < n
      ensures out[j] == lines[j]
    {
      assert !UrlBefore(lines, j, g);
    }
    if n > 0 {
      ContainsAt("resource", "resource", 0);
    }
    assert IsUrlLine(lines, n, g);
  }

  /** Lines `ls` with no `url` and then the new url line: the checker's
      url search finds the new url there, and a class declaration in `ls`
      is still found. */
  lemma ReadBelowLines(out: seq<string>, ls: seq<string>, url: string)
    requires 0 < |ls| < |out| && out[..|ls|] == ls && out[|ls|] == UrlLine(url) && Unquoted(url)
    requires forall k :: 0 <= k < |ls| ==> !Contains(ls[k], "url")
    ensures var w := Join(out, "\n");
            && Search(w, QuotedAfter("url")) == Some(url)
            && (Search(Join(ls, "\n"), ClassDecl).Some? ==> Search(w, ClassDecl).Some?)
  {
    var n := |ls|;
    JoinAt(out, n);
    JoinAvoids(ls, "url");
    LinesBelowStart(out, n);
    UrlAfterLines(Join(out, "\n"), Join(ls, "\n"), Join(out[n..], "\n"), url);
    ClassAboveKept(Join(ls, "\n"), Join(out[n..], "\n"));
  }

  /** The lines from `n` on, joined, start with line `n`. */
  lemma LinesBelowStart(out: seq<string>, n: nat)
    requires n < |out|
    ensures |out[n]| <= |Join(out[n..], "\n")| && Join(out[n..], "\n")[..|out[n]|] == out[n]
  {
    JoinStarts(out[n..]);
  }

  /** A class declaration in the lines above is still found below them. */
  lemma ClassAboveKept(a: string, b: string)
    ensures Search(a, ClassDecl).Some? ==> Search(a + "\n" + b, ClassDecl).Some?
  {
    if Search(a, ClassDecl).Some? {
      Associate(a, "\n", b);
      ClassKept(a, "\n" + b);
    }
  }

  /** The new url line right after a text without `url` and a newline:
      the checker's url search finds the new url. */
  lemma UrlAfterLines(w: string, a: string, b: string, url: string)
    requires w == a + "\n" + b && Unquoted(url) && !Contains(a, "url")
    requires |UrlLine(url)| <= |b| && b[..|UrlLine(url)|] == UrlLine(url)
    ensures Search(w, QuotedAfter("url")) == Some(url)
  {
    UrlLineRead(w, a, b, url);
    UrlLineIndent(b, url);
    forall j | 0 <= j < |a| + 3
      ensures MatchAt(w, j, QuotedAfter("url")).None?
    {
      QuotedStartsWithKeyword(w, "url", j);
      NoUrlBefore(a, b, j);
    }
    SearchFindsFirst(w, QuotedAfter("url"), |a| + 3, url);
  }

  /** Lines with no `url` above a line starting `  url `, the line right
      above it without `resource`: after the line pass, the checker's url
      search finds the new url on that line, and a class declaration in
      the lines above is still found. */
  lemma PassThenRead(v: Variant, ls: seq<string>, x: string, url: string, sha256: string)
    requires |ls| >= 1
    requires forall k :: 0 <= k < |ls| ==> '\n' !in ls[k] && !Contains(ls[k], "url")
    requires !Contains(ls[|ls| - 1], "resource")
    requires |x| >= 6 && x[..6] == "  url "
    requires Unquoted(url) && '\n' !in url && '\n' !in sha256
    ensures var w := PassLines(v, Join(ls, "\n") + "\n" + x, url, sha256);
            && Search(w, QuotedAfter("url")) == Some(url)
            && (Search(Join(ls, "\n"), ClassDecl).Some? ==> Search(w, ClassDecl).Some?)
  {
    var all := Split(Join(ls, "\n") + "\n" + x, "\n");
    LinesOfFormula(ls, x);
    PassOverLines(all, ls, url, sha256, Guard(v));
  }

  /** The lines of such a text: the given lines, then one containing `url `. */
  lemma LinesOfFormula(ls: seq<string>, x: string)
    requires |ls| >= 1 && forall k :: 0 <= k < |ls| ==> '\n' !in ls[k]
    requires |x| >= 6 && x[..6] == "  url "
    ensures var all := Split(Join(ls, "\n") + "\n" + x, "\n");
            |ls| < |all| && all[..|ls|] == ls && Contains(all[|ls|], "url ")
  {
    var all := Split(Join(ls, "\n") + "\n" + x, "\n");
    SplitAfterLines(ls, x);
    UrlFirstLine(x);
    assert all[|ls|] == Split(x, "\n")[0];
  }

  /** The line pass over lines whose first `url ` line is preceded by the
      lines `ls`, without `url`, the last without `resource`. */
  lemma PassOverLines(all: seq<string>, ls: seq<string>, url: string, sha256: string, g: UrlGuard)
    requires 0 < |ls| < |all| && all[..|ls|] == ls && Contains(all[|ls|], "url ")
    requires forall k :: 0 <= k < |ls| ==> !Contains(ls[k], "url")
    requires !Contains(ls[|ls| - 1], "resource")
    requires Unquoted(url)
    ensures var w := Join(RewriteLines(all, url, sha256, g), "\n");
            && Search(w, QuotedAfter("url")) == Some(url)
            && (Search(Join(ls, "\n"), ClassDecl).Some? ==> Search(w, ClassDecl).Some?)
  {
    var n := |ls|;
    LinesOfPrefix(all, ls);
    RewriteAbove(all, n, url, sha256, g);
    ReadBelowLines(RewriteLines(all, url, sha256, g), ls, url);
  }

  /** A sequence that starts with `ls` has `ls`'s elements first. */
  lemma LinesOfPrefix<T>(all: seq<T>, ls: seq<T>)
    requires |ls| <= |all| && all[..|ls|] == ls
    ensures forall k :: 0 <= k < |ls| ==> all[k] == ls[k]
  {
    forall k | 0 <= k < |ls|
      ensures all[k] == ls[k]
    {
      assert all[..|ls|][k] == all[k];
    }
  }


  /** Joined lines start with the first line. */
  lemma JoinStarts(qs: seq<string>)
    requires |qs| >= 1
    ensures |qs[0]| <= |Join(qs, "\n")| && Join(qs, "\n")[..|qs[0]|] == qs[0]
  {
  }

  /** The new url line right after a newline is read as a url. */
  lemma UrlLineRead(w: string, a: string, b: string, url: string)
    requires w == a + "\n" + b && Unquoted(url)
    requires |UrlLine(url)| <= |b| && b[..|UrlLine(url)|] == UrlLine(url)
    ensures |a| + 3 <= |w| && MatchAt(w, |a| + 3, QuotedAfter("url")) == Some(url)
  {
    var q := QuotedText("url", " ", url);
    assert UrlLine(url) == "  " + q;
    assert w[|a| + 3..|a| + 3 + |q|] == b[..|UrlLine(url)|][2..];
    assert Spaces(" ") by { assert IsSpace(" "[0]); }
    QuotedAtComplete(w, "url", |a| + 3, " ", url);
  }

  /** A text starting with the new url line starts with two spaces. */
  lemma UrlLineIndent(b: string, url: string)
    requires |UrlLine(url)| <= |b| && b[..|UrlLine(url)|] == UrlLine(url)
    ensures |b| >= 2 && b[0] == ' ' && b[1] == ' '
  {
    assert b[0] == b[..|UrlLine(url)|][0] && b[1] == b[..|UrlLine(url)|][1];
  }

  /** Every match of `<keyword>\s+"..."` starts with the keyword. */
  lemma QuotedStartsWithKeyword(s: string, keyword: string, j: nat)
    requires j <= |s|
    ensures QuotedAt(s, keyword, j).Some? ==> OccursAt(s, keyword, j)
  {
    if QuotedAt(s, keyword, j).Some? {
      var ws := QuotedAtSound(s, keyword, j);
      var t := QuotedText(keyword, ws, QuotedAt(s, keyword, j).value);
      assert s[j..j + |keyword|] == s[j..j + |t|][..|keyword|];
    }
  }

  /** Before the url line, whose first two characters are spaces, a text
      without `url` has no `url`. */
  lemma NoUrlBefore(a: string, b: string, j: int)
    requires !Contains(a, "url")
    requires |b| >= 2 && b[0] == ' ' && b[1] == ' '
    requires j < |a| + 3
    ensures !OccursAt(a + "\n" + b, "url", j)
  {
    OccursAcross(a, '\n', b, "url", j);
    assert OccursAt(b, "url", j - |a| - 1) ==> b[j - |a| - 1] == 'u' by {
      if OccursAt(b, "url", j - |a| - 1) {
        assert b[j - |a| - 1..j - |a| + 2][0] == 'u';
      }
    }
  }

  /** A formula whose lines up to its url line have no `url`, the line
      right above it no `resource`, with a class declaration among them,
      and whose own hosted url is its only one: updated to a new PyPI url
      without touching its resources, the written text is read back by the
      update checker with the new url's version and project name. */
  lemma UpdateReadsBack(v: Variant, ls: seq<string>, ws: string, prior: string, rest: string,
                        url: string, path: string, sha256: string, t: Tail,
                        freezeOutput: Option<string>, releaseOf: Dep -> Option<Release>, filePath: string)
    requires |ls| >= 1
    requires forall k :: 0 <= k < |ls| ==> '\n' !in ls[k] && !Contains(ls[k], "url")
    requires !Contains(ls[|ls| - 1], "resource")
    requires Search(Join(ls, "\n"), ClassDecl).Some?
    requires Spaces(ws) && ws[0] == ' ' && Unquoted(prior)
    requires SoleHostedUrl(Join(ls, "\n") + "\n  " + HostedText(ws, prior) + rest, |Join(ls, "\n")| + 3)
    requires url == HostedPrefix + path && !Contains(path, "packages/")
    requires Unquoted(url) && '\n' !in url && '\n' !in sha256
    requires UrlTail(url) == Some(t) && VersionShaped(t.version)
    ensures var r := UpdateFormula(v, Join(ls, "\n") + "\n  " + HostedText(ws, prior) + rest, url, sha256,
                                   false, freezeOutput, releaseOf);
            && r.Written?
            && ExtractFormulaInfo(r.content, filePath).Some?
            && ExtractFormulaInfo(r.content, filePath).value.version == t.version
            && ExtractFormulaInfo(r.content, filePath).value.pypiName == PypiName(t.name)
  {
    var content := Join(ls, "\n") + "\n  " + HostedText(ws, prior) + rest;
    var x := "  " + HostedText(ws, path) + rest;
    Layout(Join(ls, "\n") + "\n  ", HostedText(ws, prior), rest);
    PlacedBelowLines(v, content, |Join(ls, "\n")| + 3, Join(ls, "\n"), ws, prior, rest, path);
    UrlLineStart(ws, path, rest);
    var written := PassLines(v, Join(ls, "\n") + "\n" + x, url, sha256);
    assert UpdateFormula(v, content, url, sha256, false, freezeOutput, releaseOf) == Written(written);
    PassThenRead(v, ls, x, url, sha256);
    PypiTailComplete(url, t.name, t.version);
    ReadInfo(written, url, t, filePath);
  }

  /** The formula's only hosted url, right after the text `a`, a newline
      and two spaces, gets the new path; the text above it is kept. */
  lemma PlacedBelowLines(v: Variant, content: string, k: nat, a: string, ws: string, prior: string, rest: string, path: string)
    requires Spaces(ws) && Unquoted(prior) && !Contains(path, "packages/")
    requires k <= |content| && content[..k] == a + "\n  "
    requires OccursAt(content, HostedText(ws, prior), k)
    requires content[k + |HostedText(ws, prior)|..] == rest
    requires SoleHostedUrl(content, k)
    ensures PlaceUrl(v, content, HostedPrefix + path) == Some(a + "\n" + ("  " + HostedText(ws, path) + rest))
  {
    PlaceHostedUrl(v, content, k, ws, prior, path);
    Splice(a, HostedText(ws, path), rest);
  }

  /** Putting `m` between `a` with a newline and two spaces and `b`. */
  lemma Splice(a: string, m: string, b: string)
    ensures (a + "\n  ") + m + b == a + "\n" + ("  " + m + b)
  {
  }

  /** The parts of a text made of three. */
  lemma Layout(a: string, m: string, b: string)
    ensures var s := a + m + b;
            s[..|a|] == a && OccursAt(s, m, |a|) && s[|a| + |m|..] == b
  {
    var s := a + m + b;
    assert s[|a|..|a| + |m|] == m;
  }

  lemma UrlLineStart(ws: string, path: string, rest: string)
    requires |ws| > 0 && ws[0] == ' '
    ensures var x := "  " + HostedText(ws, path) + rest;
            |x| >= 6 && x[..6] == "  url "
  {
    var x := "  " + HostedText(ws, path) + rest;
    assert x == "  url" + ws + ("\"" + HostedPrefix + path + "\"" + rest);
    assert x[5] == ws[0];
  }

  /** The checker's reading of a text whose first url is a PyPI url and
      which has a class declaration: the url's version and project name. */
  lemma ReadInfo(w: string, url: string, t: Tail, filePath: string)
    requires Search(w, QuotedAfter("url")) == Some(url) && Search(w, ClassDecl).Some?
    requires PypiTail(url) == Some(t)
    ensures ExtractFormulaInfo(w, filePath).Some?
    ensures ExtractFormulaInfo(w, filePath).value.version == t.version
    ensures ExtractFormulaInfo(w, filePath).value.pypiName == PypiName(t.name)
  {
  }
}
