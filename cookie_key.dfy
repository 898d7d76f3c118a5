/**
 * Cookie keys and the key scrubber of the Cookie class.
 *
 * A key reaches the class either as a string ("name" or "name[idx]") or as a
 * one-pair array {name => idx}.  The scrubber turns a string that ends in
 * `word[word]` into the pair, and a pair back into the string `name[idx]`.
 */
module CookieKey {
  import opened Wrappers

  /** A key as a caller passes it: a PHP string, or a one-pair PHP array. */
  datatype Key = Plain(s: string) | Pair(name: string, idx: string)

  /** The character class `[\w\d]` of a non-Unicode PCRE pattern. */
  predicate IsWordChar(c: char) {
    ('a' <= c <= 'z') || ('A' <= c <= 'Z') || ('0' <= c <= '9') || c == '_'
  }

  predicate AllWord(s: string) {
    forall i :: 0 <= i < |s| ==> IsWordChar(s[i])
  }

  /** What `[\w\d]+` matches: a non-empty run of word characters. */
  predicate IsWordRun(s: string) {
    |s| > 0 && AllWord(s)
  }

  /** The string form `name[idx]` of an array key. */
  function Bracketed(name: string, idx: string): string {
    name + "[" + idx + "]"
  }

  /**
   * The regular expression `([\w\d]+)\[([\w\d]+)\]$` has its leftmost match in `s`
   * with groups `name` and `idx`, and `pre` is the text before the match.
   * PCRE's `$` matches at the end of the subject or just before a final newline;
   * the match starts as far left as it can, so `name` cannot be extended leftwards.
   */
  ghost predicate MatchesAt(s: string, pre: string, name: string, idx: string) {
    IsWordRun(name) && IsWordRun(idx) &&
    (pre == [] || !IsWordChar(pre[|pre| - 1])) &&
    (s == pre + Bracketed(name, idx) || s == pre + Bracketed(name, idx) + "\n")
  }

  /** Every character of `s` from position `j` up to (not including) `e` is a word character. */
  predicate WordsBetween(s: string, j: nat, e: nat)
    requires j <= e <= |s|
  {
    forall i :: j <= i < e ==> IsWordChar(s[i])
  }

  /** The start of the longest run of word characters that ends at position `e`. */
  function RunStart(s: string, e: nat): (j: nat)
    requires e <= |s|
    ensures j <= e && WordsBetween(s, j, e)
    ensures j == 0 || !IsWordChar(s[j - 1])
    decreases e
  {
    if e > 0 && IsWordChar(s[e - 1]) then RunStart(s, e - 1) else e
  }

  /** The part of `s` the pattern's `$` may end at: `s` without one final newline. */
  function DollarSubject(s: string): string {
    if |s| > 0 && s[|s| - 1] == '\n' then s[..|s| - 1] else s
  }

  /** `preg_match('/([\w\d]+)\[([\w\d]+)\]$/i', s)`: the two groups of the match, if any. */
  function MatchBracketed(s: string): (r: Option<(string, string)>)
    ensures r.Some? ==> IsWordRun(r.value.0) && IsWordRun(r.value.1)
    ensures r.Some? ==> |r.value.0| + |r.value.1| + 2 <= |s|
  {
    MatchBeforeEnd(DollarSubject(s))
  }

  /** The groups of a match of `([\w\d]+)\[([\w\d]+)\]` that ends exactly at the end of `b`. */
  function MatchBeforeEnd(b: string): (r: Option<(string, string)>)
    ensures r.Some? ==> IsWordRun(r.value.0) && IsWordRun(r.value.1)
    ensures r.Some? ==> |r.value.0| + |r.value.1| + 2 <= |b|
  {
    if |b| == 0 || b[|b| - 1] != ']' then None
    else
      var j := RunStart(b, |b| - 1);
      if j == |b| - 1 || j == 0 || b[j - 1] != '[' then None
      else
        var i := RunStart(b, j - 1);
        if i == j - 1 then None
        else
          WordsSlice(b, i, j - 1);
          WordsSlice(b, j, |b| - 1);
          Some((b[i..j - 1], b[j..|b| - 1]))
  }

  /**
   * `_scrubKey($key, $toString)`.  Towards the string form every key becomes a
   * string; towards the array form a string either stays as it is or becomes a
   * pair of word runs, and an array key is never touched.
   */
  function ScrubKey(key: Key, toString: bool): (r: Key)
    ensures toString ==> r.Plain?
    ensures !toString && key.Pair? ==> r == key
    ensures !toString && r.Pair? ==> key.Pair? || (IsWordRun(r.name) && IsWordRun(r.idx))
    ensures r.Plain? && !(toString && key.Pair?) ==> r == key
  {
    if toString then
      match key
      case Pair(k, v) => Plain(Bracketed(k, v))
      case Plain(_) => key
    else
      match key
      case Pair(_, _) => key
      case Plain(s) =>
        match MatchBracketed(s)
        case Some((name, idx)) => Pair(name, idx)
        case None => key
  }

  /** A run ending at `e` that cannot be extended leftwards is the one RunStart finds. */
  lemma {:induction false} RunStartExact(s: string, j: nat, e: nat)
    requires j <= e <= |s|
    requires WordsBetween(s, j, e)
    requires j == 0 || !IsWordChar(s[j - 1])
    ensures RunStart(s, e) == j
    decreases e
  {
    if e > j {
      assert IsWordChar(s[e - 1]);
      RunStartExact(s, j, e - 1);
    }
  }

  /** `b` is `pre + name[idx]`, with the groups and the left boundary the pattern demands. */
  ghost predicate EndsInMatch(b: string, pre: string, name: string, idx: string) {
    IsWordRun(name) && IsWordRun(idx) &&
    (pre == [] || !IsWordChar(pre[|pre| - 1])) &&
    b == pre + Bracketed(name, idx)
  }

  /** A stretch of word characters, cut out, is a string of word characters. */
  lemma WordsSlice(b: string, i: nat, e: nat)
    requires i <= e <= |b| && WordsBetween(b, i, e)
    ensures AllWord(b[i..e])
  {
    forall k | 0 <= k < e - i ensures IsWordChar(b[i..e][k]) {
      assert b[i..e][k] == b[i + k];
    }
  }

  /** Where the groups reported by MatchBeforeEnd start and what surrounds them. */
  lemma MatchPositions(b: string) returns (i: nat, j: nat)
    requires MatchBeforeEnd(b).Some?
    ensures i < j - 1 && j < |b| - 1 && b[j - 1] == '[' && b[|b| - 1] == ']'
    ensures WordsBetween(b, i, j - 1) && WordsBetween(b, j, |b| - 1)
    ensures i == 0 || !IsWordChar(b[i - 1])
    ensures MatchBeforeEnd(b) == Some((b[i..j - 1], b[j..|b| - 1]))
  {
    j := RunStart(b, |b| - 1);
    i := RunStart(b, j - 1);
  }

  /** Word runs at `i` and `j`, bracketed as the pattern wants, make `b` end in a match. */
  lemma EndsInMatchAt(b: string, i: nat, j: nat)
    requires i < j - 1 && j < |b| - 1 && b[j - 1] == '[' && b[|b| - 1] == ']'
    requires WordsBetween(b, i, j - 1) && WordsBetween(b, j, |b| - 1)
    requires i == 0 || !IsWordChar(b[i - 1])
    ensures EndsInMatch(b, b[..i], b[i..j - 1], b[j..|b| - 1])
  {
    SplitAroundBrackets(b, i, j);
    WordsSlice(b, i, j - 1);
    WordsSlice(b, j, |b| - 1);
    assert i > 0 ==> b[..i][i - 1] == b[i - 1];
  }

  /** The groups MatchBeforeEnd reports, with the text before them, make up `b`. */
  lemma MatchBeforeEndSound(b: string) returns (pre: string)
    requires MatchBeforeEnd(b).Some?
    ensures EndsInMatch(b, pre, MatchBeforeEnd(b).value.0, MatchBeforeEnd(b).value.1)
  {
    var i, j := MatchPositions(b);
    pre := b[..i];
    EndsInMatchAt(b, i, j);
  }

  /** A string whose `j - 1`-th and last characters are brackets is the text around them put back together. */
  lemma SplitAroundBrackets(b: string, i: nat, j: nat)
    requires i < j < |b| && b[j - 1] == '[' && b[|b| - 1] == ']'
    ensures b == b[..i] + Bracketed(b[i..j - 1], b[j..|b| - 1])
  {
    var r := b[..i] + Bracketed(b[i..j - 1], b[j..|b| - 1]);
    BracketedLayout(b[..i], b[i..j - 1], b[j..|b| - 1]);
    forall k | 0 <= k < |b| ensures r[k] == b[k] {
      BracketedAt(b[..i], b[i..j - 1], b[j..|b| - 1], k);
    }
  }

  /** Every match MatchBracketed reports is the regular expression's leftmost match. */
  lemma MatchSound(s: string)
    requires MatchBracketed(s).Some?
    ensures exists pre :: MatchesAt(s, pre, MatchBracketed(s).value.0, MatchBracketed(s).value.1)
  {
    var b := DollarSubject(s);
    var pre := MatchBeforeEndSound(b);
    assert s == b || s == b + "\n";
    assert MatchesAt(s, pre, MatchBracketed(s).value.0, MatchBracketed(s).value.1);
  }

  /** Where the parts of `pre + name[idx]` sit. */
  lemma BracketedLayout(pre: string, name: string, idx: string)
    ensures var b, p, n := pre + Bracketed(name, idx), |pre|, |name|;
      |b| == p + n + |idx| + 2 &&
      b[..p] == pre && b[p..p + n] == name && b[p + n] == '[' &&
      b[p + n + 1..|b| - 1] == idx && b[|b| - 1] == ']'
  {
    var b, p, n := pre + Bracketed(name, idx), |pre|, |name|;
    assert b == pre + name + ("[" + idx + "]");
    assert b == (pre + name + "[") + idx + "]";
  }

  /** Each character of `pre + name[idx]` by position. */
  lemma BracketedAt(pre: string, name: string, idx: string, i: nat)
    requires i < |pre| + |name| + |idx| + 2
    ensures var b, p, n := pre + Bracketed(name, idx), |pre|, |name|;
      b[i] == if i < p then pre[i]
              else if i < p + n then name[i - p]
              else if i == p + n then '['
              else if i < |b| - 1 then idx[i - p - n - 1]
              else ']'
  {
    BracketedLayout(pre, name, idx);
    var b, p, n := pre + Bracketed(name, idx), |pre|, |name|;
    if i < p {
      assert b[i] == b[..p][i];
    } else if i < p + n {
      assert b[i] == b[p..p + n][i - p];
    } else if p + n < i < |b| - 1 {
      assert b[i] == b[p + n + 1..|b| - 1][i - p - n - 1];
    }
  }

  /** What `$` sees in a subject that is `b`, possibly followed by one newline. */
  lemma DollarSubjectOf(s: string, b: string)
    requires |b| > 0 && b[|b| - 1] == ']'
    requires s == b || s == b + "\n"
    ensures DollarSubject(s) == b
  {
    if s != b {
      assert s[..|s| - 1] == b;
    }
  }

  lemma BracketedWords(pre: string, name: string, idx: string)
    requires AllWord(name) && AllWord(idx)
    requires pre == [] || !IsWordChar(pre[|pre| - 1])
    ensures var b, p, n := pre + Bracketed(name, idx), |pre|, |name|;
      |b| == p + n + |idx| + 2 && b[p + n] == '[' && b[|b| - 1] == ']' &&
      b[p..p + n] == name && b[p + n + 1..|b| - 1] == idx &&
      WordsBetween(b, p, p + n) && WordsBetween(b, p + n + 1, |b| - 1) &&
      (p == 0 || !IsWordChar(b[p - 1]))
  {
    var b, p, n := pre + Bracketed(name, idx), |pre|, |name|;
    BracketedLayout(pre, name, idx);
    assert WordsBetween(b, p, p + n) by {
      forall i | p <= i < p + n ensures IsWordChar(b[i]) {
        BracketedAt(pre, name, idx, i);
      }
    }
    assert WordsBetween(b, p + n + 1, |b| - 1) by {
      forall i | p + n + 1 <= i < |b| - 1 ensures IsWordChar(b[i]) {
        BracketedAt(pre, name, idx, i);
      }
    }
    if p > 0 {
      BracketedAt(pre, name, idx, p - 1);
    }
  }

  /** MatchBeforeEnd finds `name` and the bracketed `idx` after it, when `b` is laid out so. */
  lemma MatchBeforeEndAt(b: string, p: nat, name: string, idx: string)
    requires |name| > 0 && |b| == p + |name| + |idx| + 2 && |idx| > 0
    requires b[p..p + |name|] == name && b[p + |name| + 1..|b| - 1] == idx
    requires b[p + |name|] == '[' && b[|b| - 1] == ']'
    requires WordsBetween(b, p, p + |name|) && WordsBetween(b, p + |name| + 1, |b| - 1)
    requires p == 0 || !IsWordChar(b[p - 1])
    ensures MatchBeforeEnd(b) == Some((name, idx))
  {
    RunStartExact(b, p + |name| + 1, |b| - 1);
    RunStartExact(b, p, p + |name|);
  }

  /** The matcher run on exactly `pre + name[idx]` reports `name` and `idx`. */
  lemma MatchBeforeEndOf(pre: string, name: string, idx: string)
    requires IsWordRun(name) && IsWordRun(idx)
    requires pre == [] || !IsWordChar(pre[|pre| - 1])
    ensures MatchBeforeEnd(pre + Bracketed(name, idx)) == Some((name, idx))
  {
    BracketedWords(pre, name, idx);
    MatchBeforeEndAt(pre + Bracketed(name, idx), |pre|, name, idx);
  }

  /** Whenever the regular expression matches, MatchBracketed finds that match. */
  lemma MatchComplete(s: string, pre: string, name: string, idx: string)
    requires MatchesAt(s, pre, name, idx)
    ensures MatchBracketed(s) == Some((name, idx))
  {
    var b := pre + Bracketed(name, idx);
    BracketedLayout(pre, name, idx);
    DollarSubjectOf(s, b);
    MatchBeforeEndOf(pre, name, idx);
  }

  /** Parsing a string key gives the pair exactly when the key ends in `name[idx]`. */
  lemma ScrubKeyParses(s: string, name: string, idx: string)
    ensures ScrubKey(Plain(s), false) == Pair(name, idx) <==> exists pre :: MatchesAt(s, pre, name, idx)
  {
    if ScrubKey(Plain(s), false) == Pair(name, idx) {
      MatchSound(s);
    }
    forall pre | MatchesAt(s, pre, name, idx) ensures ScrubKey(Plain(s), false) == Pair(name, idx) {
      MatchComplete(s, pre, name, idx);
    }
  }

  /** A string key without a `name[idx]` ending comes back unchanged. */
  lemma ScrubKeyKeepsPlain(s: string)
    ensures ScrubKey(Plain(s), false) == Plain(s) <==>
            forall pre, name, idx :: !MatchesAt(s, pre, name, idx)
  {
    if MatchBracketed(s).Some? {
      MatchSound(s);
    }
    forall pre, name, idx | MatchesAt(s, pre, name, idx) ensures MatchBracketed(s).Some? {
      MatchComplete(s, pre, name, idx);
    }
  }

  /** The pattern is not anchored on the left: only the word run right before the last `[` is the name. */
  lemma ScrubKeyTakesLastWordRun()
    ensures ScrubKey(Plain("x-y[z]"), false) == Pair("y", "z")
  {
    assert "x-y[z]" == "x-" + Bracketed("y", "z");
    MatchComplete("x-y[z]", "x-", "y", "z");
  }

  /** PCRE's `$` also matches just before a final newline. */
  lemma ScrubKeyFinalNewline()
    ensures ScrubKey(Plain("user[id]\n"), false) == Pair("user", "id")
  {
    assert "user[id]\n" == [] + Bracketed("user", "id") + "\n";
    MatchComplete("user[id]\n", [], "user", "id");
  }

  /** Text after the brackets, a second bracket pair, or no brackets at all: the key stays a string. */
  lemma ScrubKeyNoMatchExamples()
    ensures ScrubKey(Plain("a[b]c"), false) == Plain("a[b]c")
    ensures ScrubKey(Plain("a[b][c]"), false) == Plain("a[b][c]")
    ensures ScrubKey(Plain("plain"), false) == Plain("plain")
  {
    var b := "a[b][c]";
    assert RunStart(b, 6) == 5 by { RunStartExact(b, 5, 6); }
    assert RunStart(b, 4) == 4 by { RunStartExact(b, 4, 4); }
  }

  /**
   * An array key turned into its string form and parsed again is the same key,
   * when both parts are word runs; a string key is left alone by the string direction.
   */
  lemma RoundTrip(name: string, idx: string, s: string)
    requires IsWordRun(name) && IsWordRun(idx)
    ensures ScrubKey(Pair(name, idx), true) == Plain(Bracketed(name, idx))
    ensures ScrubKey(ScrubKey(Pair(name, idx), true), false) == Pair(name, idx)
    ensures ScrubKey(Plain(s), true) == Plain(s)
    ensures ScrubKey(Pair(name, idx), false) == Pair(name, idx)
  {
    assert Bracketed(name, idx) == [] + Bracketed(name, idx);
    MatchComplete(Bracketed(name, idx), [], name, idx);
  }

  /** Scrubbing towards the array form twice is scrubbing once. */
  lemma ScrubKeyIdempotent(key: Key)
    ensures ScrubKey(ScrubKey(key, false), false) == ScrubKey(key, false)
  {
  }
}
