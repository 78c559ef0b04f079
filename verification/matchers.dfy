/** Hand-written matchers for the fixed regular expressions the update checker
    searches a formula with:
      `class\s+(\w+)\s+<\s+Formula`   (scripts/check_updates.py:43)
      `url\s+"([^"]+)"`               (scripts/check_updates.py:50)
      `version\s+"([^"]+)"`           (scripts/check_updates.py:64)
    Each of these patterns, like the block pattern of the writer, is a
    sequence of literals and non-empty runs of one character class. A run is
    always followed by a token that cannot begin with a character of its
    class, so the greedy run is the only one that can lead to a match and no
    backtracking is ever needed. `MatchTokens` is that greedy matcher, proved
    once to find exactly the matches of such a pattern. */
module Matchers {
  import opened Wrappers
  import opened Text

  predicate NotQuote(c: char) {
    c != '"'
  }

  /** The character classes the patterns repeat: `\s`, `\w` and `[^"]`. */
  datatype CharClass = Space | Word | NonQuote

  predicate In(c: char, p: CharClass) {
    match p
    case Space => IsSpace(c)
    case Word => IsWordChar(c)
    case NonQuote => NotQuote(c)
  }

  predicate AllIn(w: string, p: CharClass) {
    forall k :: 0 <= k < |w| ==> In(w[k], p)
  }

  /** What `\s+` matches. */
  predicate Spaces(ws: string) {
    |ws| > 0 && AllIn(ws, Space)
  }

  /** What `[^"]+` matches. */
  predicate Unquoted(v: string) {
    |v| > 0 && AllIn(v, NonQuote)
  }

  /** The end of the longest run of `p`-characters starting at `i`. */
  function RunEnd(s: string, i: nat, p: CharClass): (j: nat)
    requires i <= |s|
    ensures i <= j <= |s|
    ensures forall k :: i <= k < j ==> In(s[k], p)
    ensures j < |s| ==> !In(s[j], p)
    decreases |s| - i
  {
    if i < |s| && In(s[i], p) then RunEnd(s, i + 1, p) else i
  }

  // ---------------------------------------------------------------------
  // Patterns made of literals and runs

  /** One token of a pattern: a literal, or `c+` for a character class `c`. */
  datatype Token = Lit(text: string) | Plus(cls: CharClass)

  /** The piece `w` of a match is text that token `t` matches. */
  predicate Fits(w: string, t: Token) {
    match t
    case Lit(x) => w == x
    case Plus(c) => |w| > 0 && AllIn(w, c)
  }

  predicate FitsAll(ws: seq<string>, ts: seq<Token>) {
    |ws| == |ts| && forall k :: 0 <= k < |ws| ==> Fits(ws[k], ts[k])
  }

  function Concat(ws: seq<string>): string
  {
    if |ws| == 0 then "" else ws[0] + Concat(ws[1..])
  }

  /** The language of the pattern `ts`: the text of `s` at `i` is a match of
      `ts` whose token `k` matched the piece `ws[k]`. */
  predicate Spells(s: string, i: nat, ws: seq<string>, ts: seq<Token>) {
    FitsAll(ws, ts) && OccursAt(s, Concat(ws), i)
  }

  /** No character matched by `t` at its start can continue a run of `c`. */
  predicate Stops(t: Token, c: CharClass) {
    match t
    case Lit(x) => |x| > 0 && !In(x[0], c)
    case Plus(d) => (c == Space && d == Word) || (c == Word && d == Space)
  }

  /** Every run is followed by a token that stops it. */
  predicate Greedy(ts: seq<Token>)
    decreases |ts|
  {
    |ts| == 0 || ((ts[0].Plus? ==> |ts| > 1 && Stops(ts[1], ts[0].cls)) && Greedy(ts[1..]))
  }

  /** Where token `t` ends when it matches at `i`: after the literal, or at
      the end of the greedy run. */
  function TokenEnd(s: string, i: nat, t: Token): (r: Option<nat>)
    requires i <= |s|
    ensures r.Some? ==> i <= r.value <= |s|
  {
    match t
    case Lit(x) => if OccursAt(s, x, i) then Some(i + |x|) else None
    case Plus(c) => var j := RunEnd(s, i, c); if j == i then None else Some(j)
  }

  /** The greedy match of the pattern `ts` at `i`, as one piece per token. */
  function MatchTokens(s: string, i: nat, ts: seq<Token>): (r: Option<seq<string>>)
    requires i <= |s|
    ensures r.Some? ==> |r.value| == |ts|
    decreases |ts|
  {
    if |ts| == 0 then Some([])
    else match TokenEnd(s, i, ts[0])
      case None => None
      case Some(j) =>
        match MatchTokens(s, j, ts[1..])
        case None => None
        case Some(ws) => Some([s[i..j]] + ws)
  }

  lemma OccursSplit(s: string, x: string, y: string, i: int)
    requires OccursAt(s, x + y, i)
    ensures OccursAt(s, x, i) && OccursAt(s, y, i + |x|)
  {
    assert s[i..i + |x|] == (x + y)[..|x|];
    assert s[i + |x|..i + |x| + |y|] == (x + y)[|x|..];
  }

  lemma OccursJoin(s: string, x: string, y: string, i: int)
    requires OccursAt(s, x, i) && OccursAt(s, y, i + |x|)
    ensures OccursAt(s, x + y, i)
  {
    assert s[i..i + |x| + |y|] == s[i..i + |x|] + s[i + |x|..i + |x| + |y|];
  }

  lemma FirstChar(s: string, t: string, j: int)
    requires OccursAt(s, t, j) && |t| > 0
    ensures s[j] == t[0]
  {
    assert s[j] == s[j..j + |t|][0];
  }

  /** A run of `p`-characters that is followed by a non-`p` character (or the
      end of the text) is exactly what `RunEnd` consumes. */
  lemma RunIs(s: string, j: nat, w: string, p: CharClass)
    requires OccursAt(s, w, j)
    requires AllIn(w, p)
    requires j + |w| < |s| ==> !In(s[j + |w|], p)
    ensures RunEnd(s, j, p) == j + |w|
  {
    forall k | 0 <= k < |w|
      ensures s[j + k] == w[k]
    {
      assert s[j + k] == s[j..j + |w|][k];
    }
  }

  /** A token that stops a run of `c` does not begin with a `c`-character. */
  lemma StopsRun(t: Token, c: CharClass, w: string)
    requires Stops(t, c) && Fits(w, t)
    ensures |w| > 0 && !In(w[0], c)
  {
  }

  /** The text of the pieces begins with the first piece. */
  lemma ConcatHead(ws: seq<string>)
    requires |ws| > 0 && |ws[0]| > 0
    ensures |Concat(ws)| > 0 && Concat(ws)[0] == ws[0][0]
  {
  }

  lemma FitsAllCons(ws: seq<string>, ts: seq<Token>)
    requires |ws| == |ts| > 0 && Fits(ws[0], ts[0]) && FitsAll(ws[1..], ts[1..])
    ensures FitsAll(ws, ts)
  {
    forall k | 1 <= k < |ws|
      ensures Fits(ws[k], ts[k])
    {
      assert ws[k] == ws[1..][k - 1] && ts[k] == ts[1..][k - 1];
    }
  }

  lemma FitsAllTail(ws: seq<string>, ts: seq<Token>)
    requires |ts| > 0 && FitsAll(ws, ts)
    ensures Fits(ws[0], ts[0]) && FitsAll(ws[1..], ts[1..])
  {
    forall k | 0 <= k < |ws| - 1
      ensures Fits(ws[1..][k], ts[1..][k])
    {
      assert Fits(ws[k + 1], ts[k + 1]);
    }
  }

  /** The piece of the first token, followed by the match of the others. */
  lemma SpellsCons(s: string, i: nat, w: string, rest: seq<string>, ts: seq<Token>)
    requires |ts| > 0 && Fits(w, ts[0]) && OccursAt(s, w, i)
    requires Spells(s, i + |w|, rest, ts[1..])
    ensures Spells(s, i, [w] + rest, ts)
  {
    var ws := [w] + rest;
    assert ws[1..] == rest;
    FitsAllCons(ws, ts);
    OccursJoin(s, w, Concat(rest), i);
  }

  /** Every match `MatchTokens` reports is a match of the pattern. */
  lemma {:induction false} MatchTokensSound(s: string, i: nat, ts: seq<Token>)
    requires i <= |s| && MatchTokens(s, i, ts).Some?
    ensures Spells(s, i, MatchTokens(s, i, ts).value, ts)
    decreases |ts|
  {
    if |ts| == 0 {
      assert OccursAt(s, "", i);
    } else {
      var j := TokenEnd(s, i, ts[0]).value;
      MatchTokensSound(s, j, ts[1..]);
      TokenPiece(s, i, ts[0]);
      SpellsCons(s, i, s[i..j], MatchTokens(s, j, ts[1..]).value, ts);
    }
  }

  /** The text a token consumes is a piece it matches. */
  lemma TokenPiece(s: string, i: nat, t: Token)
    requires i <= |s| && TokenEnd(s, i, t).Some?
    ensures Fits(s[i..TokenEnd(s, i, t).value], t)
    ensures OccursAt(s, s[i..TokenEnd(s, i, t).value], i)
  {
  }

  /** Every match of a greedy pattern is the match `MatchTokens` reports. */
  lemma {:induction false} MatchTokensComplete(s: string, i: nat, ws: seq<string>, ts: seq<Token>)
    requires Greedy(ts) && Spells(s, i, ws, ts)
    ensures i <= |s| && MatchTokens(s, i, ts) == Some(ws)
    decreases |ts|
  {
    if |ts| > 0 {
      var j := i + |ws[0]|;
      FirstTokenOfMatch(s, i, ws, ts);
      MatchTokensComplete(s, j, ws[1..], ts[1..]);
      assert ws == [ws[0]] + ws[1..];
    } else {
      assert ws == [];
    }
  }

  /** The first token of a match of a greedy pattern consumes its piece, and
      the other pieces match the other tokens right after it. */
  lemma FirstTokenOfMatch(s: string, i: nat, ws: seq<string>, ts: seq<Token>)
    requires |ts| > 0 && Greedy(ts) && Spells(s, i, ws, ts)
    ensures i + |ws[0]| <= |s| && s[i..i + |ws[0]|] == ws[0]
    ensures TokenEnd(s, i, ts[0]) == Some(i + |ws[0]|)
    ensures Greedy(ts[1..]) && Spells(s, i + |ws[0]|, ws[1..], ts[1..])
  {
    assert Concat(ws) == ws[0] + Concat(ws[1..]);
    OccursSplit(s, ws[0], Concat(ws[1..]), i);
    FitsAllTail(ws, ts);
    GreedyFollower(ws, ts);
    FirstTokenEnd(s, i, ws, ts);
  }

  /** The rest of a greedy pattern is greedy, and when the first token is a
      run, the text of the other pieces begins outside its class. */
  lemma GreedyFollower(ws: seq<string>, ts: seq<Token>)
    requires |ts| > 0 && Greedy(ts) && FitsAll(ws, ts)
    ensures Greedy(ts[1..])
    ensures ts[0].Plus? ==> |Concat(ws[1..])| > 0 && !In(Concat(ws[1..])[0], ts[0].cls)
  {
    if ts[0].Plus? {
      FollowerStops(ws, ts);
    }
  }

  lemma FirstTokenEnd(s: string, i: nat, ws: seq<string>, ts: seq<Token>)
    requires |ts| > 0 && |ws| > 0 && Fits(ws[0], ts[0]) && OccursAt(s, ws[0], i)
    requires OccursAt(s, Concat(ws[1..]), i + |ws[0]|)
    requires ts[0].Plus? ==> |Concat(ws[1..])| > 0 && !In(Concat(ws[1..])[0], ts[0].cls)
    ensures TokenEnd(s, i, ts[0]) == Some(i + |ws[0]|)
  {
    TokenEndIs(s, i, ws[0], ts[0], Concat(ws[1..]));
  }

  /** A run of `c`-characters followed by text that begins with a character
      outside `c` ends where that text begins. */
  lemma RunStopsAt(s: string, i: nat, w: string, c: CharClass, rest: string)
    requires OccursAt(s, w, i) && AllIn(w, c)
    requires OccursAt(s, rest, i + |w|) && |rest| > 0 && !In(rest[0], c)
    ensures RunEnd(s, i, c) == i + |w|
  {
    FirstChar(s, rest, i + |w|);
    RunIs(s, i, w, c);
  }

  /** In a greedy pattern, what follows a run begins outside the run's class. */
  lemma FollowerStops(ws: seq<string>, ts: seq<Token>)
    requires |ts| > 1 && FitsAll(ws, ts) && ts[0].Plus? && Stops(ts[1], ts[0].cls)
    ensures |Concat(ws[1..])| > 0 && !In(Concat(ws[1..])[0], ts[0].cls)
  {
    assert Fits(ws[1], ts[1]);
    StopsRun(ts[1], ts[0].cls, ws[1]);
    assert ws[1..][0] == ws[1];
    ConcatHead(ws[1..]);
  }

  /** A token ends where its piece does, when what follows the piece cannot
      continue a run. */
  lemma TokenEndIs(s: string, i: nat, w: string, t: Token, rest: string)
    requires Fits(w, t) && OccursAt(s, w, i) && OccursAt(s, rest, i + |w|)
    requires t.Plus? ==> |rest| > 0 && !In(rest[0], t.cls)
    ensures TokenEnd(s, i, t) == Some(i + |w|)
  {
    if t.Plus? {
      RunStopsAt(s, i, w, t.cls, rest);
    }
  }

  /** Pieces of four, five and seven tokens, spelled out. */
  lemma Concat4(d: string, e: string, f: string, g: string)
    ensures Concat([d, e, f, g]) == d + (e + (f + g))
  {
    assert [g][1..] == [] && g + Concat([]) == g;
    assert Concat([g]) == g;
    assert [f, g][1..] == [g];
    assert Concat([f, g]) == f + g;
    assert [e, f, g][1..] == [f, g];
    assert Concat([e, f, g]) == e + (f + g);
    assert [d, e, f, g][1..] == [e, f, g];
  }

  lemma Concat5(a: string, b: string, c: string, d: string, e: string)
    ensures Concat([a, b, c, d, e]) == a + b + c + d + e
  {
    Concat4(b, c, d, e);
    assert [a, b, c, d, e][1..] == [b, c, d, e];
  }

  lemma Concat7(a: string, b: string, c: string, d: string, e: string, f: string, g: string)
    ensures Concat([a, b, c, d, e, f, g]) == a + (b + (c + (d + (e + (f + g)))))
  {
    Concat4(d, e, f, g);
    assert [c, d, e, f, g][1..] == [d, e, f, g];
    assert Concat([c, d, e, f, g]) == c + (d + (e + (f + g)));
    assert [b, c, d, e, f, g][1..] == [c, d, e, f, g];
    assert Concat([b, c, d, e, f, g]) == b + (c + (d + (e + (f + g))));
    assert [a, b, c, d, e, f, g][1..] == [b, c, d, e, f, g];
  }

  /** Seven tokens in which every run is followed by a token that stops it. */
  lemma Greedy7(ts: seq<Token>)
    requires |ts| == 7
    requires forall k :: 0 <= k < 7 && ts[k].Plus? ==> k < 6 && Stops(ts[k + 1], ts[k].cls)
    ensures Greedy(ts)
  {
    assert Greedy(ts[7..]);
    assert ts[6..][1..] == ts[7..];
    assert Greedy(ts[6..]);
    assert ts[5..][1..] == ts[6..];
    assert Greedy(ts[5..]);
    assert ts[4..][1..] == ts[5..];
    assert Greedy(ts[4..]);
    assert ts[3..][1..] == ts[4..];
    assert Greedy(ts[3..]);
    assert ts[2..][1..] == ts[3..];
    assert Greedy(ts[2..]);
    assert ts[1..][1..] == ts[2..];
    assert Greedy(ts[1..]);
    assert ts[0..] == ts;
  }

  // ---------------------------------------------------------------------
  // `class\s+(\w+)\s+<\s+Formula`

  const ClassPattern := [Lit("class"), Plus(Space), Plus(Word), Plus(Space), Lit("<"), Plus(Space), Lit("Formula")]

  /** The captured class name when `class\s+(\w+)\s+<\s+Formula` matches at `i`. */
  function ClassAt(s: string, i: nat): Option<string>
    requires i <= |s|
  {
    match MatchTokens(s, i, ClassPattern)
    case None => None
    case Some(ws) => Some(ws[2])
  }

  lemma ClassPatternGreedy()
    ensures Greedy(ClassPattern)
  {
    var ts := ClassPattern;
    assert Stops(ts[2], ts[1].cls) && Stops(ts[3], ts[2].cls);
    assert Stops(ts[4], ts[3].cls) && Stops(ts[6], ts[5].cls);
    Greedy7(ts);
  }

  /** Every class name `ClassAt` reports is the group of a match of the pattern. */
  lemma ClassAtSound(s: string, i: nat) returns (ws: seq<string>)
    requires i <= |s| && ClassAt(s, i).Some?
    ensures Spells(s, i, ws, ClassPattern) && ClassAt(s, i) == Some(ws[2])
  {
    ws := MatchTokens(s, i, ClassPattern).value;
    MatchTokensSound(s, i, ClassPattern);
  }

  /** Every match of the pattern is found by `ClassAt`, with the same group. */
  lemma ClassAtComplete(s: string, i: nat, ws: seq<string>)
    requires Spells(s, i, ws, ClassPattern)
    ensures i <= |s| && ClassAt(s, i) == Some(ws[2])
  {
    ClassPatternGreedy();
    MatchTokensComplete(s, i, ws, ClassPattern);
  }

  /** A match is the text `class`, white space, the name, white space, `<`,
      white space and `Formula`. */
  lemma ClassSpelledOut(s: string, i: nat, ws: seq<string>)
    requires Spells(s, i, ws, ClassPattern)
    ensures Spaces(ws[1]) && |ws[2]| > 0 && AllIn(ws[2], Word) && Spaces(ws[3]) && Spaces(ws[5])
    ensures OccursAt(s, "class" + (ws[1] + (ws[2] + (ws[3] + ("<" + (ws[5] + "Formula"))))), i)
  {
    assert Fits(ws[0], ClassPattern[0]) && Fits(ws[4], ClassPattern[4]) && Fits(ws[6], ClassPattern[6]);
    assert Fits(ws[1], ClassPattern[1]) && Fits(ws[2], ClassPattern[2]);
    assert Fits(ws[3], ClassPattern[3]) && Fits(ws[5], ClassPattern[5]);
    assert ws == [ws[0], ws[1], ws[2], ws[3], ws[4], ws[5], ws[6]];
    Concat7(ws[0], ws[1], ws[2], ws[3], ws[4], ws[5], ws[6]);
  }

  // ---------------------------------------------------------------------
  // `<keyword>\s+"([^"]+)"`

  function QuotedPattern(keyword: string): seq<Token> {
    [Lit(keyword), Plus(Space), Lit("\""), Plus(NonQuote), Lit("\"")]
  }

  /** Text of one match of `<keyword>\s+"([^"]+)"`. */
  function QuotedText(keyword: string, ws: string, value: string): string {
    keyword + ws + "\"" + value + "\""
  }

  /** The pieces of the match of `<keyword>\s+"([^"]+)"` at `i`, if any. */
  function QuotedMatch(s: string, keyword: string, i: nat): (r: Option<seq<string>>)
    requires i <= |s|
    ensures r.Some? ==> |r.value| == 5 && i < i + |Concat(r.value)| <= |s|
  {
    var r := MatchTokens(s, i, QuotedPattern(keyword));
    if r.Some? then
      MatchTokensSound(s, i, QuotedPattern(keyword));
      QuotedPieces(keyword, r.value);
      r
    else r
  }

  /** The captured value when `<keyword>\s+"([^"]+)"` matches at `i`. */
  function QuotedAt(s: string, keyword: string, i: nat): Option<string>
    requires i <= |s|
  {
    match QuotedMatch(s, keyword, i)
    case None => None
    case Some(ws) => Some(ws[3])
  }

  /** Where a match of `<keyword>\s+"([^"]+)"` at `i` ends. */
  function QuotedEnd(s: string, keyword: string, i: nat): (e: nat)
    requires i <= |s| && QuotedMatch(s, keyword, i).Some?
  {
    i + |Concat(QuotedMatch(s, keyword, i).value)|
  }

  lemma QuotedPatternGreedy(keyword: string)
    ensures Greedy(QuotedPattern(keyword))
  {
    var ts := QuotedPattern(keyword);
    assert Greedy(ts[5..]);
    assert ts[4..][1..] == ts[5..];
    assert Greedy(ts[4..]);
    assert ts[3..][1..] == ts[4..];
    assert Stops(ts[4], ts[3].cls);
    assert Greedy(ts[3..]);
    assert ts[2..][1..] == ts[3..];
    assert Greedy(ts[2..]);
    assert ts[1..][1..] == ts[2..];
    assert Stops(ts[2], ts[1].cls);
    assert Greedy(ts[1..]);
  }

  /** Pieces that spell a match of the quoted pattern are the keyword, white
      space, a quote, the value and a quote. */
  lemma QuotedPieces(keyword: string, ws: seq<string>)
    requires FitsAll(ws, QuotedPattern(keyword))
    ensures ws == [keyword, ws[1], "\"", ws[3], "\""]
    ensures Spaces(ws[1]) && Unquoted(ws[3])
    ensures Concat(ws) == QuotedText(keyword, ws[1], ws[3])
  {
    var ts := QuotedPattern(keyword);
    assert Fits(ws[0], ts[0]) && Fits(ws[1], ts[1]) && Fits(ws[2], ts[2]);
    assert Fits(ws[3], ts[3]) && Fits(ws[4], ts[4]);
    assert ws == [keyword, ws[1], "\"", ws[3], "\""];
    Concat5(keyword, ws[1], "\"", ws[3], "\"");
  }

  /** Every value `QuotedAt` reports is the group of a match of the pattern,
      and the match ends at `QuotedEnd`. */
  lemma QuotedAtSound(s: string, keyword: string, i: nat) returns (ws: string)
    requires i <= |s| && QuotedAt(s, keyword, i).Some?
    ensures Spaces(ws) && Unquoted(QuotedAt(s, keyword, i).value)
    ensures OccursAt(s, QuotedText(keyword, ws, QuotedAt(s, keyword, i).value), i)
    ensures QuotedEnd(s, keyword, i) == i + |QuotedText(keyword, ws, QuotedAt(s, keyword, i).value)|
  {
    var pieces := QuotedMatch(s, keyword, i).value;
    MatchTokensSound(s, i, QuotedPattern(keyword));
    QuotedPieces(keyword, pieces);
    ws := pieces[1];
  }

  /** Every match of the pattern is found by `QuotedAt`, with the same group
      and the same end. */
  lemma QuotedAtComplete(s: string, keyword: string, i: nat, ws: string, value: string)
    requires Spaces(ws) && Unquoted(value)
    requires OccursAt(s, QuotedText(keyword, ws, value), i)
    ensures i <= |s| && QuotedMatch(s, keyword, i) == Some([keyword, ws, "\"", value, "\""])
    ensures QuotedAt(s, keyword, i) == Some(value)
    ensures QuotedEnd(s, keyword, i) == i + |QuotedText(keyword, ws, value)|
  {
    var pieces := [keyword, ws, "\"", value, "\""];
    var ts := QuotedPattern(keyword);
    Concat5(keyword, ws, "\"", value, "\"");
    assert FitsAll(pieces, ts) by {
      assert Fits(pieces[0], ts[0]) && Fits(pieces[1], ts[1]) && Fits(pieces[2], ts[2]);
      assert Fits(pieces[3], ts[3]) && Fits(pieces[4], ts[4]);
    }
    QuotedPatternGreedy(keyword);
    MatchTokensComplete(s, i, pieces, ts);
  }

  /** A match found by one of the substitution patterns: where it ends, and
      its first group. */
  datatype Span = Span(end: nat, group: string)

  // ---------------------------------------------------------------------
  // re.search: the leftmost position where the pattern matches

  datatype Pattern = ClassDecl | QuotedAfter(keyword: string)

  function MatchAt(s: string, i: nat, p: Pattern): Option<string>
    requires i <= |s|
  {
    match p
    case ClassDecl => ClassAt(s, i)
    case QuotedAfter(keyword) => QuotedAt(s, keyword, i)
  }

  datatype Found = Found(at: nat, group: string)

  /** `re.search(p, s[from:])`: the leftmost match at or after `from`, with its capture. */
  function SearchFrom(s: string, p: Pattern, from: nat): (r: Option<Found>)
    requires from <= |s|
    ensures r.Some? ==> from <= r.value.at <= |s| && MatchAt(s, r.value.at, p) == Some(r.value.group)
    ensures r.Some? ==> forall k :: from <= k < r.value.at ==> MatchAt(s, k, p).None?
    ensures r.None? ==> forall k :: from <= k <= |s| ==> MatchAt(s, k, p).None?
    decreases |s| - from
  {
    match MatchAt(s, from, p)
    case Some(g) => Some(Found(from, g))
    case None => if from == |s| then None else SearchFrom(s, p, from + 1)
  }

  /** `re.search(p, s)`, reduced to the first capture group. */
  function Search(s: string, p: Pattern): (r: Option<string>)
    ensures r.Some? <==> exists k :: 0 <= k <= |s| && MatchAt(s, k, p).Some?
    ensures r.Some? ==> exists k :: 0 <= k <= |s| && MatchAt(s, k, p) == Some(r.value)
                                   && forall j :: 0 <= j < k ==> MatchAt(s, j, p).None?
  {
    match SearchFrom(s, p, 0)
    case Some(f) => Some(f.group)
    case None => None
  }
}
