/** The character classes and `str` operations the two update scripts rely on,
    with the meaning Python gives them. */
module Text {
  import opened Wrappers

  /** `str.isspace`: what `\s` matches in a `str` pattern and what a bare
      `str.strip()` removes. */
  predicate IsSpace(c: char) {
    || '\t' <= c <= '\r'
    || '\U{1C}' <= c <= ' '
    || c == '\U{85}' || c == '\U{A0}' || c == '\U{1680}'
    || '\U{2000}' <= c <= '\U{200A}'
    || c == '\U{2028}' || c == '\U{2029}' || c == '\U{202F}' || c == '\U{205F}' || c == '\U{3000}'
  }

  /** `\d`, restricted to ASCII. */
  predicate IsDigit(c: char) {
    '0' <= c <= '9'
  }

  predicate IsLetter(c: char) {
    'a' <= c <= 'z' || 'A' <= c <= 'Z'
  }

  /** `\w`, restricted to ASCII. */
  predicate IsWordChar(c: char) {
    IsLetter(c) || IsDigit(c) || c == '_'
  }

  predicate AllDigits(s: string) {
    forall k :: 0 <= k < |s| ==> IsDigit(s[k])
  }

  predicate AllWordChars(s: string) {
    forall k :: 0 <= k < |s| ==> IsWordChar(s[k])
  }

  predicate AllSpaces(s: string) {
    forall k :: 0 <= k < |s| ==> IsSpace(s[k])
  }

  /** `str.lower()` on one character, restricted to ASCII. */
  function LowerChar(c: char): char {
    if 'A' <= c <= 'Z' then (c as int + 32) as char else c
  }

  function Lower(s: string): (r: string)
    ensures |r| == |s|
    ensures forall k :: 0 <= k < |s| ==> r[k] == LowerChar(s[k])
  {
    seq(|s|, k requires 0 <= k < |s| => LowerChar(s[k]))
  }

  /** `str.replace(a, b)` for one-character arguments. */
  function ReplaceChar(s: string, a: char, b: char): (r: string)
    ensures |r| == |s|
    ensures forall k :: 0 <= k < |s| ==> r[k] == (if s[k] == a then b else s[k])
  {
    seq(|s|, k requires 0 <= k < |s| => if s[k] == a then b else s[k])
  }

  /** `t` occurs in `s` starting at index `i`. */
  predicate OccursAt(s: string, t: string, i: int) {
    0 <= i && i + |t| <= |s| && s[i..i + |t|] == t
  }

  predicate EndsWith(s: string, t: string) {
    |t| <= |s| && s[|s| - |t|..] == t
  }

  /** `str.find(t, from)`: the first occurrence of `t` at or after `from`. */
  function IndexFrom(s: string, t: string, from: nat): (r: Option<nat>)
    ensures r.Some? ==> from <= r.value && OccursAt(s, t, r.value)
    ensures r.Some? ==> forall k :: from <= k < r.value ==> !OccursAt(s, t, k)
    ensures r.None? ==> forall k :: from <= k ==> !OccursAt(s, t, k)
    decreases |s| - from
  {
    if from + |t| > |s| then None
    else if s[from..from + |t|] == t then Some(from)
    else IndexFrom(s, t, from + 1)
  }

  /** Python's `t in s` for strings. */
  predicate Contains(s: string, t: string) {
    IndexFrom(s, t, 0).Some?
  }

  lemma ContainsAt(s: string, t: string, i: int)
    requires OccursAt(s, t, i)
    ensures Contains(s, t)
  {
  }

  /** A text contains each of its middle parts. */
  lemma ContainsMiddle(a: string, t: string, b: string)
    ensures Contains(a + t + b, t)
  {
    assert (a + t + b)[|a|..|a| + |t|] == t;
    ContainsAt(a + t + b, t, |a|);
  }

  lemma OccursInPrefix(s: string, t: string, n: nat, k: int)
    requires n <= |s| && OccursAt(s[..n], t, k)
    ensures OccursAt(s, t, k)
  {
    assert s[..n][k..k + |t|] == s[k..k + |t|];
  }

  /** The first occurrence found from the start is the one at `i`. */
  lemma FirstOccurrence(s: string, t: string, i: nat)
    requires OccursAt(s, t, i)
    requires forall k :: 0 <= k < i ==> !OccursAt(s, t, k)
    ensures IndexFrom(s, t, 0) == Some(i)
  {
  }

  /** Python's `sep.join(ps)`. */
  function Join(ps: seq<string>, sep: string): string
  {
    if |ps| == 0 then ""
    else if |ps| == 1 then ps[0]
    else ps[0] + sep + Join(ps[1..], sep)
  }

  /** Python's `s.split(sep)` for a non-empty separator: the pieces between
      the leftmost non-overlapping occurrences of `sep`. */
  function Split(s: string, sep: string): (r: seq<string>)
    requires |sep| > 0
    ensures |r| >= 1
    ensures Join(r, sep) == s
    ensures forall k :: 0 <= k < |r| ==> !Contains(r[k], sep)
    decreases |s|
  {
    match IndexFrom(s, sep, 0)
    case None => [s]
    case Some(i) =>
      var head := s[..i];
      var rest := Split(s[i + |sep|..], sep);
      assert !Contains(head, sep) by {
        if Contains(head, sep) {
          var k := IndexFrom(head, sep, 0).value;
          OccursInPrefix(s, sep, i, k);
        }
      }
      assert Join([head] + rest, sep) == s by {
        assert ([head] + rest)[1..] == rest;
        assert s == s[..i] + sep + s[i + |sep|..];
      }
      [head] + rest
  }

  lemma NotContainsChar(s: string, c: char, from: nat)
    requires c !in s
    ensures IndexFrom(s, [c], from) == None
    decreases |s| - from
  {
    if from + 1 <= |s| {
      assert s[from..from + 1] == [s[from]];
      NotContainsChar(s, c, from + 1);
    }
  }

  /** A character of `s` is a one-character substring of it. */
  lemma CharContains(s: string, c: char)
    ensures c in s ==> Contains(s, [c])
  {
    if c in s {
      var k :| 0 <= k < |s| && s[k] == c;
      assert s[k..k + 1] == [c];
      ContainsAt(s, [c], k);
    }
  }

  /** `s.split(sep)` has a second piece exactly when `sep` occurs in `s`. */
  lemma SplitPieces(s: string, sep: string)
    requires |sep| > 0
    ensures |Split(s, sep)| >= 2 <==> Contains(s, sep)
  {
  }

  /** Splitting on a one-character separator undoes joining with it, as long
      as no piece contains the separator. */
  lemma {:induction false} SplitJoin(ps: seq<string>, c: char)
    requires |ps| >= 1
    requires forall k :: 0 <= k < |ps| ==> c !in ps[k]
    ensures Split(Join(ps, [c]), [c]) == ps
    decreases |ps|
  {
    NotContainsChar(ps[0], c, 0);
    if |ps| > 1 {
      var s := Join(ps, [c]);
      JoinHead(ps, c);
      SplitAt(s, [c], |ps[0]|);
      assert forall k :: 0 <= k < |ps[1..]| ==> c !in ps[1..][k] by {
        forall k | 0 <= k < |ps[1..]| ensures c !in ps[1..][k] {
          assert ps[1..][k] == ps[k + 1];
        }
      }
      SplitJoin(ps[1..], c);
      assert [ps[0]] + ps[1..] == ps;
    }
  }

  /** The split of a text at its first separator. */
  lemma SplitAt(s: string, sep: string, i: nat)
    requires |sep| > 0 && IndexFrom(s, sep, 0) == Some(i)
    ensures i + |sep| <= |s|
    ensures Split(s, sep) == [s[..i]] + Split(s[i + |sep|..], sep)
  {
  }

  /** In the pieces joined by `c`, the first `c` ends the first piece. */
  lemma JoinHead(ps: seq<string>, c: char)
    requires |ps| >= 2 && c !in ps[0]
    ensures var s := Join(ps, [c]);
            && IndexFrom(s, [c], 0) == Some(|ps[0]|)
            && s[..|ps[0]|] == ps[0]
            && s[|ps[0]| + 1..] == Join(ps[1..], [c])
  {
    var s := Join(ps, [c]);
    var n := |ps[0]|;
    assert s == ps[0] + [c] + Join(ps[1..], [c]);
    assert OccursAt(s, [c], n) by {
      assert s[n..n + 1] == [c];
    }
    forall k | 0 <= k < n
      ensures !OccursAt(s, [c], k)
    {
      assert s[k] == ps[0][k];
    }
    FirstOccurrence(s, [c], n);
    assert s[..n] == ps[0];
    assert s[n + 1..] == Join(ps[1..], [c]);
  }

  /** `str.lstrip()` with no argument. */
  function StripStart(s: string): (r: string)
    ensures |r| <= |s| && r == s[|s| - |r|..]
    ensures forall k :: 0 <= k < |s| - |r| ==> IsSpace(s[k])
    ensures |r| > 0 ==> !IsSpace(r[0])
  {
    if |s| > 0 && IsSpace(s[0]) then StripStart(s[1..]) else s
  }

  /** `str.rstrip()` with no argument. */
  function StripEnd(s: string): (r: string)
    ensures |r| <= |s| && r == s[..|r|]
    ensures forall k :: |r| <= k < |s| ==> IsSpace(s[k])
    ensures |r| > 0 ==> !IsSpace(r[|r| - 1])
  {
    if |s| > 0 && IsSpace(s[|s| - 1]) then StripEnd(s[..|s| - 1]) else s
  }

  /** `str.strip()` with no argument. */
  function Strip(s: string): string {
    StripEnd(StripStart(s))
  }
}
