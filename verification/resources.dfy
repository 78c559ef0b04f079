/** Resource blocks: how `generate_resource_block` writes one
    (scripts/update_formulas.py:101-115), and how the removal pattern of
    `update_formula` recognises one (scripts/update_formulas.py:183-187):
      `\n  resource "[^"]+" do\n    url "[^"]+"\n    sha256 "[^"]+"\n  end`
    Every `[^"]+` of the pattern is followed by a quote, so each run is the
    maximal run of non-quote characters and the match needs no backtracking. */
module Resources {
  import opened Wrappers
  import opened Text
  import opened Matchers
  import opened PyPI
  import opened Deps

  /** The three quoted values of a block. */
  datatype Fields = Fields(name: string, url: string, sha256: string)

  /** Each value is what `[^"]+` can match. */
  predicate FieldsOk(f: Fields) {
    Unquoted(f.name) && Unquoted(f.url) && Unquoted(f.sha256)
  }

  /** `package_name.lower().replace("_", "-")` */
  function ResourceName(n: string): string {
    ReplaceChar(Lower(n), '_', '-')
  }

  // The literal pieces of a block, line by line.
  const ResourceOpen := "  resource \""
  const NameClose := "\" do"
  const UrlOpen := "    url \""
  const ShaOpen := "    sha256 \""
  const Quote := "\""
  const EndLine := "  end"

  /** The block as `generate_resource_block` formats it:
        `  resource "{name}" do\n    url "{url}"\n    sha256 "{sha256}"\n  end` */
  function RenderBlock(f: Fields): (r: string)
    ensures Join(BlockLines(f), "\n") == r
  {
    JoinFour(ResourceOpen + f.name + NameClose, UrlOpen + f.url + Quote, ShaOpen + f.sha256 + Quote, EndLine, "\n");
    ResourceOpen + f.name + NameClose + "\n" + UrlOpen + f.url + Quote + "\n" + ShaOpen + f.sha256 + Quote + "\n" + EndLine
  }

  /** `generate_resource_block(dep_name, dep_version)`, given the decoded
      PyPI document of that version (`None` when the fetch failed). */
  function GenerateResourceBlock(d: Dep, doc: Option<Release>): (r: Option<string>)
    ensures r.Some? <==> TarballInfo(doc).Some?
  {
    match TarballInfo(doc)
    case None => None
    case Some(t) => Some(RenderBlock(Fields(ResourceName(d.name), t.url, t.sha256)))
  }

  /** The fields `generate_resource_block` writes for a dependency whose
      source archive was found. */
  function GeneratedFields(d: Dep, doc: Option<Release>): Fields
    requires TarballInfo(doc).Some?
  {
    var t := TarballInfo(doc).value;
    Fields(ResourceName(d.name), t.url, t.sha256)
  }

  /** A generated block, after a newline, is read back by the removal
      pattern as the lower-cased, hyphenated name with the archive's url and
      digest. */
  lemma GeneratedBlockParses(d: Dep, doc: Option<Release>)
    requires GenerateResourceBlock(d, doc).Some? && FieldsOk(GeneratedFields(d, doc))
    ensures BlockAt("\n" + GenerateResourceBlock(d, doc).value, 0) == Some(GeneratedFields(d, doc))
  {
    var f := GeneratedFields(d, doc);
    RenderedBlockParses(f, "");
    assert "\n" + RenderBlock(f) + "" == "\n" + RenderBlock(f);
  }

  /** A generated block whose fields hold no newline is exactly its four lines. */
  lemma GeneratedBlockLines(d: Dep, doc: Option<Release>)
    requires GenerateResourceBlock(d, doc).Some? && NoNewline(GeneratedFields(d, doc))
    ensures Split(GenerateResourceBlock(d, doc).value, "\n") == BlockLines(GeneratedFields(d, doc))
  {
    RenderedBlockLines(GeneratedFields(d, doc));
  }

  predicate NoNewline(f: Fields) {
    '\n' !in f.name && '\n' !in f.url && '\n' !in f.sha256
  }

  /** The four lines of a block. */
  function BlockLines(f: Fields): seq<string> {
    [ResourceOpen + f.name + NameClose, UrlOpen + f.url + Quote, ShaOpen + f.sha256 + Quote, EndLine]
  }

  /** A rendered block is exactly its four lines. */
  lemma RenderedBlockLines(f: Fields)
    requires NoNewline(f)
    ensures Split(RenderBlock(f), "\n") == BlockLines(f)
  {
    var ls := BlockLines(f);
    assert forall k :: 0 <= k < |ls| ==> '\n' !in ls[k] by {
      assert '\n' !in ResourceOpen && '\n' !in NameClose && '\n' !in UrlOpen;
      assert '\n' !in ShaOpen && '\n' !in Quote && '\n' !in EndLine;
    }
    SplitJoin(ls, '\n');
  }

  lemma JoinFour(a: string, b: string, c: string, d: string, sep: string)
    ensures Join([a, b, c, d], sep) == a + sep + b + sep + c + sep + d
  {
    assert [c, d][1..] == [d];
    assert Join([c, d], sep) == c + sep + d;
    assert [b, c, d][1..] == [c, d];
    assert Join([b, c, d], sep) == b + sep + (c + sep + d);
    assert [a, b, c, d][1..] == [b, c, d];
  }

  // ---------------------------------------------------------------------
  // The removal pattern

  // The literal pieces of the pattern: `\n  resource "`, `" do\n    url "`,
  // `"\n    sha256 "` and `"\n  end`.
  const Head := "\n" + ResourceOpen
  const UrlPart := NameClose + "\n" + UrlOpen
  const ShaPart := Quote + "\n" + ShaOpen
  const Tail := Quote + "\n" + EndLine

  const BlockPattern := [Lit(Head), Plus(NonQuote), Lit(UrlPart), Plus(NonQuote), Lit(ShaPart), Plus(NonQuote), Lit(Tail)]

  /** Text of one match of the removal pattern. */
  function BlockText(f: Fields): string {
    Head + (f.name + (UrlPart + (f.url + (ShaPart + (f.sha256 + Tail)))))
  }

  /** The pieces of that text, one per token of the pattern. */
  function BlockPieces(f: Fields): seq<string> {
    [Head, f.name, UrlPart, f.url, ShaPart, f.sha256, Tail]
  }

  /** The fields of the block the removal pattern matches at `i`, if any. */
  function BlockAt(s: string, i: nat): Option<Fields>
    requires i <= |s|
  {
    match MatchTokens(s, i, BlockPattern)
    case None => None
    case Some(ws) => Some(Fields(ws[1], ws[3], ws[5]))
  }

  /** The span the removal pattern matches at `i`: the whole block. */
  function BlockSpan(s: string, i: nat): (r: Option<Span>)
    requires i <= |s|
    ensures r.Some? <==> BlockAt(s, i).Some?
    ensures r.Some? ==> OccursAt(s, BlockText(BlockAt(s, i).value), i)
                        && r.value.end == i + |BlockText(BlockAt(s, i).value)|
  {
    match BlockAt(s, i)
    case None => None
    case Some(f) =>
      BlockAtSound(s, i);
      Some(Span(i + |BlockText(f)|, ""))
  }

  lemma BlockPatternGreedy()
    ensures Greedy(BlockPattern)
  {
    var ts := BlockPattern;
    assert Stops(ts[2], ts[1].cls) && Stops(ts[4], ts[3].cls) && Stops(ts[6], ts[5].cls);
    Greedy7(ts);
  }

  /** The pieces of a match of the removal pattern are those of one block,
      and the block's text is theirs. */
  lemma PiecesOfBlock(ws: seq<string>)
    requires FitsAll(ws, BlockPattern)
    ensures var f := Fields(ws[1], ws[3], ws[5]);
            ws == BlockPieces(f) && FieldsOk(f) && Concat(ws) == BlockText(f)
  {
    var ts := BlockPattern;
    assert Fits(ws[0], ts[0]) && Fits(ws[2], ts[2]) && Fits(ws[4], ts[4]) && Fits(ws[6], ts[6]);
    assert Fits(ws[1], ts[1]) && Fits(ws[3], ts[3]) && Fits(ws[5], ts[5]);
    var f := Fields(ws[1], ws[3], ws[5]);
    assert ws == BlockPieces(f);
    Concat7(Head, f.name, UrlPart, f.url, ShaPart, f.sha256, Tail);
  }

  /** Every block `BlockAt` reports is a match of the removal pattern. */
  lemma BlockAtSound(s: string, i: nat)
    requires i <= |s| && BlockAt(s, i).Some?
    ensures FieldsOk(BlockAt(s, i).value)
    ensures OccursAt(s, BlockText(BlockAt(s, i).value), i)
  {
    MatchTokensSound(s, i, BlockPattern);
    PiecesOfBlock(MatchTokens(s, i, BlockPattern).value);
  }

  /** The head of a resource block whose url line is indented by two
      spaces. */
  function ReindentedHead(name: string): string {
    Head + (name + (NameClose + "\n  url "))
  }

  /** Such a head and any text of the removal pattern differ at some
      position they share. */
  lemma ReindentedHeadDiffers(f: Fields, name: string) returns (j: nat)
    requires FieldsOk(f) && Unquoted(name)
    ensures j < |ReindentedHead(name)| && j < |BlockText(f)|
    ensures ReindentedHead(name)[j] != BlockText(f)[j]
  {
    var t, b := ReindentedHead(name), BlockText(f);
    if |f.name| < |name| {
      j := |Head| + |f.name|;
      assert b[j] == '"';
      assert t[j] == name[|f.name|];
    } else if |f.name| > |name| {
      j := |Head| + |name|;
      assert t[j] == '"';
      assert b[j] == f.name[|name|];
    } else {
      j := |Head| + |name| + |NameClose| + 3;
      assert t[j] == 'u' && b[j] == ' ';
    }
  }

  /** A block whose url line starts with two spaces instead of four, as
      the line pass of the scripts leaves it, is not matched by the removal
      pattern. */
  lemma ReindentedBlockMissed(s: string, i: nat, name: string)
    requires Unquoted(name)
    requires OccursAt(s, ReindentedHead(name), i)
    ensures BlockAt(s, i).None?
  {
    if BlockAt(s, i).Some? {
      var f := BlockAt(s, i).value;
      BlockAtSound(s, i);
      var j := ReindentedHeadDiffers(f, name);
      assert false;
    }
  }

  /** Every match of the removal pattern is found by `BlockAt`, with the same fields. */
  lemma BlockAtComplete(s: string, i: nat, fl: Fields)
    requires FieldsOk(fl) && OccursAt(s, BlockText(fl), i)
    ensures i <= |s| && BlockAt(s, i) == Some(fl)
  {
    var ws := BlockPieces(fl);
    var ts := BlockPattern;
    Concat7(Head, fl.name, UrlPart, fl.url, ShaPart, fl.sha256, Tail);
    assert FitsAll(ws, ts) by {
      assert Fits(ws[0], ts[0]) && Fits(ws[2], ts[2]) && Fits(ws[4], ts[4]) && Fits(ws[6], ts[6]);
      assert Fits(ws[1], ts[1]) && Fits(ws[3], ts[3]) && Fits(ws[5], ts[5]);
    }
    BlockPatternGreedy();
    MatchTokensComplete(s, i, ws, ts);
  }

  /** A block as `generate_resource_block` writes it, after a newline, is
      the text of one match of the removal pattern. */
  lemma RenderedIsBlockText(f: Fields)
    ensures "\n" + RenderBlock(f) == BlockText(f)
  {
    Regroup("\n", ResourceOpen, f.name, NameClose, UrlOpen, f.url, Quote, ShaOpen, f.sha256, EndLine);
  }

  /** The pieces of a rendered block, regrouped as the pieces of the pattern. */
  lemma Regroup(nl: string, r: string, n: string, c: string, u: string, url: string, q: string, s: string, sha: string, e: string)
    ensures nl + (r + n + c + nl + u + url + q + nl + s + sha + q + nl + e)
         == (nl + r) + (n + ((c + nl + u) + (url + ((q + nl + s) + (sha + (q + nl + e))))))
  {
  }

  /** A block written by `generate_resource_block`, after a newline, is a
      block the removal pattern takes out again, whatever follows it. */
  lemma RenderedBlockParses(f: Fields, rest: string)
    requires FieldsOk(f)
    ensures BlockAt("\n" + RenderBlock(f) + rest, 0) == Some(f)
    ensures BlockSpan("\n" + RenderBlock(f) + rest, 0) == Some(Span(|BlockText(f)|, ""))
  {
    RenderedIsBlockText(f);
    var s := BlockText(f) + rest;
    assert OccursAt(s, BlockText(f), 0) by {
      assert s[0..|BlockText(f)|] == BlockText(f);
    }
    BlockAtComplete(s, 0, f);
  }
}
