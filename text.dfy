/**
 * The string primitives the application relies on, written out explicitly:
 * JavaScript's whitespace class (the `\s` of a regular expression, which is also
 * the set `String.prototype.trim` removes), ASCII case mapping, substring search
 * with and without a regular expression's `i` flag, `split` on a literal
 * separator or on runs of separators, and `Array.prototype.join`.
 */
module Text {
  import opened Options

  /** JavaScript's `\s`: WhiteSpace and LineTerminator code points. */
  predicate IsSpace(c: char) {
    || c == ' ' || c == '\t' || c == '\n' || c == '\r' || c == '\U{000B}' || c == '\U{000C}'
    || c == '\U{00A0}' || c == '\U{1680}' || ('\U{2000}' <= c <= '\U{200A}')
    || c == '\U{2028}' || c == '\U{2029}' || c == '\U{202F}' || c == '\U{205F}'
    || c == '\U{3000}' || c == '\U{FEFF}'
  }

  predicate AllSpace(s: string) {
    forall i :: 0 <= i < |s| ==> IsSpace(s[i])
  }

  /** Neither end of `s` is whitespace. */
  predicate IsTrimmed(s: string) {
    s == [] || (!IsSpace(s[0]) && !IsSpace(s[|s| - 1]))
  }

  function LowerChar(c: char): char {
    if 'A' <= c <= 'Z' then (c as int + 32) as char else c
  }

  function UpperChar(c: char): char {
    if 'a' <= c <= 'z' then (c as int - 32) as char else c
  }

  /** `s.toLowerCase()`, restricted to ASCII letters. */
  function Lower(s: string): string {
    seq(|s|, i requires 0 <= i < |s| => LowerChar(s[i]))
  }

  /** Character equality, or equality up to ASCII case when `ci` (a regex's `i` flag). */
  predicate Same(a: char, b: char, ci: bool) {
    if ci then LowerChar(a) == LowerChar(b) else a == b
  }

  /** `pat` occurs in `s` starting at index `i`. */
  predicate MatchesAt(s: string, pat: string, i: nat, ci: bool) {
    i + |pat| <= |s| && forall j :: 0 <= j < |pat| ==> Same(s[i + j], pat[j], ci)
  }

  /** The first index at or after `from` where `pat` occurs (`indexOf`, or a regex literal's leftmost match). */
  function Find(s: string, pat: string, from: nat, ci: bool): (r: Option<nat>)
    decreases |s| - from
    ensures r.Some? ==> from <= r.value && MatchesAt(s, pat, r.value, ci)
    ensures forall k :: from <= k && (r.None? || k < r.value) ==> !MatchesAt(s, pat, k, ci)
  {
    if from + |pat| > |s| then None
    else if MatchesAt(s, pat, from, ci) then Some(from)
    else Find(s, pat, from + 1, ci)
  }

  /** `s.includes(pat)`, or a regex literal's `test` when `ci`. */
  predicate Contains(s: string, pat: string, ci: bool) {
    Find(s, pat, 0, ci).Some?
  }

  /** The first index at or after `k` whose character fails `p`, or `|s|`. */
  function Span(s: string, k: nat, p: char -> bool): (r: nat)
    requires k <= |s|
    decreases |s| - k
    ensures k <= r <= |s|
    ensures forall j :: k <= j < r ==> p(s[j])
    ensures r < |s| ==> !p(s[r])
  {
    if k == |s| || !p(s[k]) then k else Span(s, k + 1, p)
  }

  /** The greedy `\s*` starting at `k`: the index of the first non-whitespace character. */
  function SkipSpace(s: string, k: nat): (r: nat)
    requires k <= |s|
    ensures k <= r <= |s|
    ensures forall j :: k <= j < r ==> IsSpace(s[j])
    ensures r < |s| ==> !IsSpace(s[r])
  {
    Span(s, k, IsSpace)
  }

  /** The end of `s[lo..hi]` once trailing whitespace is dropped. */
  function TrimRightIndex(s: string, lo: nat, hi: nat): (e: nat)
    requires lo <= hi <= |s|
    decreases hi
    ensures lo <= e <= hi
    ensures forall j :: e <= j < hi ==> IsSpace(s[j])
    ensures e > lo ==> !IsSpace(s[e - 1])
  {
    if hi == lo || !IsSpace(s[hi - 1]) then hi else TrimRightIndex(s, lo, hi - 1)
  }

  /** `s.trim()`: the result has no whitespace at either end, keeps only characters of `s`,
      is empty exactly when `s` is all whitespace, and leaves an already trimmed string alone. */
  function Trim(s: string): (r: string)
    ensures IsTrimmed(r)
    ensures |r| <= |s|
    ensures forall c :: c in r ==> c in s
    ensures r == [] <==> AllSpace(s)
    ensures IsTrimmed(s) ==> r == s
    ensures SkipSpace(s, 0) + |r| <= |s| && r == s[SkipSpace(s, 0)..SkipSpace(s, 0) + |r|]
  {
    var a := SkipSpace(s, 0);
    var e := TrimRightIndex(s, a, |s|);
    SliceKeepsChars(s, a, e);
    TrimBounds(s, a, e);
    s[a..e]
  }

  /** Every character of a slice is a character of the text. */
  lemma SliceKeepsChars(s: string, a: nat, e: nat)
    requires a <= e <= |s|
    ensures forall c :: c in s[a..e] ==> c in s
  {
    forall c | c in s[a..e] ensures c in s {
      var j :| 0 <= j < e - a && s[a..e][j] == c;
      assert s[a + j] == c;
    }
  }

  /** The bounds `Trim` cuts at: the slice between them is trimmed, empty exactly when the text
      is all whitespace, and the whole text when it was trimmed already. */
  lemma TrimBounds(s: string, a: nat, e: nat)
    requires a == SkipSpace(s, 0) && e == TrimRightIndex(s, a, |s|)
    ensures IsTrimmed(s[a..e])
    ensures s[a..e] == [] <==> AllSpace(s)
    ensures IsTrimmed(s) ==> s[a..e] == s
  {
    assert IsTrimmed(s) && s != [] ==> a == 0 && e == |s|;
  }

  /** `s.split(sep)` for a non-empty literal separator: leftmost, non-overlapping occurrences. */
  function SplitOn(s: string, sep: string): (parts: seq<string>)
    requires |sep| > 0
    decreases |s|
    ensures |parts| >= 1
  {
    match Find(s, sep, 0, false)
    case None => [s]
    case Some(k) => [s[..k]] + SplitOn(s[k + |sep|..], sep)
  }

  /** `parts.join(sep)`. */
  function JoinWith(parts: seq<string>, sep: string): string
    decreases |parts|
  {
    if |parts| == 0 then ""
    else if |parts| == 1 then parts[0]
    else parts[0] + sep + JoinWith(parts[1..], sep)
  }

  lemma ExactMatchIsSlice(s: string, pat: string, i: nat)
    requires MatchesAt(s, pat, i, false)
    ensures s[i..i + |pat|] == pat
  {
    assert forall j :: 0 <= j < |pat| ==> s[i..i + |pat|][j] == pat[j];
  }

  /** Joining the pieces of a split with the same separator gives back the original text. */
  lemma {:induction false} JoinSplit(s: string, sep: string)
    requires |sep| > 0
    ensures JoinWith(SplitOn(s, sep), sep) == s
    decreases |s|
  {
    match Find(s, sep, 0, false)
    case None =>
    case Some(k) =>
      var rest := s[k + |sep|..];
      var tail := SplitOn(rest, sep);
      assert SplitOn(s, sep) == [s[..k]] + tail;
      assert ([s[..k]] + tail)[1..] == tail;
      JoinSplit(rest, sep);
      ExactMatchIsSlice(s, sep, k);
      assert s == s[..k] + s[k..k + |sep|] + rest;
  }

  /** No piece of a split contains the separator. */
  lemma {:induction false} SplitPiecesAvoidSeparator(s: string, sep: string)
    requires |sep| > 0
    ensures forall p :: p in SplitOn(s, sep) ==> !Contains(p, sep, false)
    decreases |s|
  {
    match Find(s, sep, 0, false)
    case None =>
    case Some(k) =>
      var head := s[..k];
      forall i: nat | MatchesAt(head, sep, i, false) ensures false {
        forall j | 0 <= j < |sep| ensures Same(s[i + j], sep[j], false) {
          assert head[i + j] == s[i + j];
        }
        assert MatchesAt(s, sep, i, false);
      }
      SplitPiecesAvoidSeparator(s[k + |sep|..], sep);
  }

  /** A separator for `split(/[,\s]+/)`. */
  predicate IsListSep(c: char) {
    c == ',' || IsSpace(c)
  }

  /** A character a token may hold. */
  predicate IsWordChar(c: char) {
    !IsListSep(c)
  }

  /** `s.split(/[,\s]+/)`: the pieces between maximal runs of commas and whitespace
      (empty pieces where a run starts or ends the text). */
  function SplitRuns(s: string): (parts: seq<string>)
    decreases |s|
    ensures forall p, c :: p in parts && c in p ==> !IsListSep(c)
  {
    var k := Span(s, 0, IsWordChar);
    if k == |s| then
      assert forall c :: c in s ==> !IsListSep(c) by {
        forall c | c in s ensures !IsListSep(c) {
          var j :| 0 <= j < |s| && s[j] == c;
        }
      }
      [s]
    else
      var e := Span(s, k, IsListSep);
      var head := s[..k];
      assert forall c :: c in head ==> !IsListSep(c) by {
        forall c | c in head ensures !IsListSep(c) {
          var j :| 0 <= j < k && head[j] == c;
          assert s[j] == c;
        }
      }
      [head] + SplitRuns(s[e..])
  }

  /** `parts.map(p => p.trim())`. */
  function TrimEach(parts: seq<string>): (r: seq<string>)
    ensures |r| == |parts|
    ensures forall i :: 0 <= i < |parts| ==> r[i] == Trim(parts[i])
  {
    if parts == [] then [] else [Trim(parts[0])] + TrimEach(parts[1..])
  }

  /** `parts.filter(Boolean)`: the non-empty strings, in order. */
  function NonEmpty(parts: seq<string>): (r: seq<string>)
    ensures forall p :: p in r ==> p in parts && p != ""
    ensures forall p :: p in parts && p != "" ==> p in r
  {
    if parts == [] then []
    else if parts[0] == "" then NonEmpty(parts[1..])
    else [parts[0]] + NonEmpty(parts[1..])
  }

  /** The tokens `s.split(/[,\s]+/).map(trim).filter(Boolean)` yields: each is non-empty and
      holds neither a comma nor whitespace. */
  function Tokens(s: string): (r: seq<string>)
    ensures forall t :: t in r ==> t != "" && forall c :: c in t ==> !IsListSep(c)
  {
    var pieces := SplitRuns(s);
    var trimmed := TrimEach(pieces);
    assert forall t, c :: t in trimmed && c in t ==> !IsListSep(c) by {
      forall t, c | t in trimmed && c in t ensures !IsListSep(c) {
        var i :| 0 <= i < |trimmed| && trimmed[i] == t;
        assert c in pieces[i];
      }
    }
    NonEmpty(trimmed)
  }

  /** A token: non-empty, with neither a comma nor whitespace. */
  predicate IsToken(t: string) {
    t != "" && forall c :: c in t ==> !IsListSep(c)
  }

  /** The parts joined one after the other. */
  function Concat(parts: seq<string>): string {
    if parts == [] then "" else parts[0] + Concat(parts[1..])
  }

  /** The characters of `s` that are neither commas nor whitespace, in order. */
  function WordChars(s: string): string {
    if s == [] then "" else (if IsListSep(s[0]) then "" else [s[0]]) + WordChars(s[1..])
  }

  /** Pins `Span` down: `p` holds up to `r` and fails at `r`. */
  lemma SpanIs(s: string, k: nat, r: nat, p: char -> bool)
    requires k <= r <= |s|
    requires forall j :: k <= j < r ==> p(s[j])
    requires r < |s| ==> !p(s[r])
    ensures Span(s, k, p) == r
  {
  }

  /** A token, `", "` and a text starting with a word character split as the token, then the
      split of that text. */
  lemma SplitRunsAfterToken(t0: string, rest: string)
    requires IsToken(t0) && rest != [] && IsWordChar(rest[0])
    ensures SplitRuns(t0 + ", " + rest) == [t0] + SplitRuns(rest)
  {
    var s := t0 + ", " + rest;
    forall j | 0 <= j < |t0| ensures IsWordChar(s[j]) {
      assert s[j] == t0[j];
      assert t0[j] in t0;
    }
    SpanIs(s, 0, |t0|, IsWordChar);
    assert s[|t0| + 2] == rest[0];
    SpanIs(s, |t0|, |t0| + 2, IsListSep);
    ConcatSlices(t0, ", ", rest);
  }

  /** Joining a head and a non-empty tail puts the separator between them. */
  lemma JoinWithCons(head: string, tail: seq<string>, sep: string)
    requires |tail| >= 1
    ensures JoinWith([head] + tail, sep) == head + sep + JoinWith(tail, sep)
  {
    assert ([head] + tail)[1..] == tail;
  }

  /** Cutting `a + b + c` after `a` and after `b` gives `a` and `c` back. */
  lemma ConcatSlices(a: string, b: string, c: string)
    ensures (a + b + c)[..|a|] == a && (a + b + c)[|a| + |b|..] == c
  {
  }

  /** The first character of a list joined with `", "` is the first character of its first part. */
  lemma JoinStart(ts: seq<string>)
    requires |ts| >= 1 && ts[0] != ""
    ensures JoinWith(ts, ", ") != "" && JoinWith(ts, ", ")[0] == ts[0][0]
  {
    if |ts| > 1 {
      assert JoinWith(ts, ", ") == ts[0] + ", " + JoinWith(ts[1..], ", ");
    }
  }

  /** Splitting tokens joined with `", "` on runs of separators gives the tokens back. */
  lemma {:induction false} SplitRunsOfJoin(ts: seq<string>)
    requires |ts| >= 1 && forall t :: t in ts ==> IsToken(t)
    ensures SplitRuns(JoinWith(ts, ", ")) == ts
    decreases |ts|
  {
    var t0 := ts[0];
    var s := JoinWith(ts, ", ");
    assert IsToken(t0);
    if |ts| == 1 {
      assert s == t0;
      forall j | 0 <= j < |s| ensures IsWordChar(s[j]) {
        assert s[j] in t0;
      }
      SpanIs(s, 0, |s|, IsWordChar);
      assert SplitRuns(s) == [s];
    } else {
      var rest := JoinWith(ts[1..], ", ");
      assert s == t0 + ", " + rest;
      assert ts[1] in ts;
      JoinStart(ts[1..]);
      assert ts[1][0] in ts[1];
      SplitRunsAfterToken(t0, rest);
      assert forall t :: t in ts[1..] ==> t in ts;
      SplitRunsOfJoin(ts[1..]);
      assert ts == [t0] + ts[1..];
    }
  }

  /** Trimming pieces that hold no whitespace changes none of them. */
  lemma TrimEachSepFree(parts: seq<string>)
    requires forall p, c :: p in parts && c in p ==> !IsListSep(c)
    ensures TrimEach(parts) == parts
  {
    forall i | 0 <= i < |parts| ensures Trim(parts[i]) == parts[i] {
      var p := parts[i];
      if p != [] {
        assert p[0] in p && p[|p| - 1] in p;
      }
    }
  }

  /** Dropping empty strings from strings that are all non-empty drops nothing. */
  lemma {:induction false} NonEmptyKeepsAll(parts: seq<string>)
    requires forall p :: p in parts ==> p != ""
    ensures NonEmpty(parts) == parts
    decreases |parts|
  {
    if parts != [] {
      assert parts[0] in parts;
      assert forall p :: p in parts[1..] ==> p in parts;
      NonEmptyKeepsAll(parts[1..]);
      assert parts == [parts[0]] + parts[1..];
    }
  }

  /** `array` is a round trip for lists written with `", "`: the tokens of the joined list are
      the list. */
  lemma TokensOfJoin(ts: seq<string>)
    requires forall t :: t in ts ==> IsToken(t)
    ensures Tokens(JoinWith(ts, ", ")) == ts
  {
    if ts == [] {
      assert SplitRuns("") == [""];
      assert TrimEach([""]) == [""];
    } else {
      SplitRunsOfJoin(ts);
      TrimEachSepFree(ts);
      NonEmptyKeepsAll(ts);
    }
  }

  lemma {:induction false} WordCharsAppend(a: string, b: string)
    ensures WordChars(a + b) == WordChars(a) + WordChars(b)
    decreases |a|
  {
    if a != [] {
      assert (a + b)[1..] == a[1..] + b;
      WordCharsAppend(a[1..], b);
    } else {
      assert a + b == b;
    }
  }

  lemma {:induction false} WordCharsOf(s: string, word: bool)
    requires forall j :: 0 <= j < |s| ==> IsListSep(s[j]) != word
    ensures WordChars(s) == if word then s else ""
    decreases |s|
  {
    if s != [] {
      WordCharsOf(s[1..], word);
      assert s == [s[0]] + s[1..];
    }
  }

  /** A run of word characters, then a run of separators, then the rest. */
  lemma WordCharsOfRuns(a: string, b: string, c: string)
    requires forall j :: 0 <= j < |a| ==> IsWordChar(a[j])
    requires forall j :: 0 <= j < |b| ==> IsListSep(b[j])
    ensures WordChars(a + b + c) == a + WordChars(c)
  {
    WordCharsOf(a, true);
    WordCharsOf(b, false);
    WordCharsOfThree(a + b + c, a, b, c);
  }

  /** The same for a text cut at `k` and `e`. */
  lemma WordCharsAtRuns(s: string, k: nat, e: nat)
    requires k <= e <= |s|
    requires forall j :: 0 <= j < k ==> IsWordChar(s[j])
    requires forall j :: k <= j < e ==> IsListSep(s[j])
    ensures WordChars(s) == s[..k] + WordChars(s[e..])
  {
    var a, b, c := s[..k], s[k..e], s[e..];
    assert forall j :: 0 <= j < |a| ==> a[j] == s[j];
    assert forall j :: 0 <= j < |b| ==> b[j] == s[k + j];
    CutInThree(s, k, e);
    WordCharsOfRuns(a, b, c);
  }

  lemma CutInThree(s: string, k: nat, e: nat)
    requires k <= e <= |s|
    ensures s == s[..k] + s[k..e] + s[e..]
  {
  }

  lemma WordCharsOfThree(s: string, a: string, b: string, c: string)
    requires s == a + b + c && WordChars(a) == a && WordChars(b) == ""
    ensures WordChars(s) == a + WordChars(c)
  {
    calc {
      WordChars(s);
      { WordCharsAppend(a + b, c); }
      WordChars(a + b) + WordChars(c);
      { WordCharsAppend(a, b); }
      WordChars(a) + WordChars(b) + WordChars(c);
      { assert a + "" == a; }
      a + WordChars(c);
    }
  }

  /** One step of `SplitRuns`: the leading word, then the split of what follows the first run
      of separators. */
  lemma SplitRunsStep(s: string)
    requires Span(s, 0, IsWordChar) < |s|
    ensures var k := Span(s, 0, IsWordChar); var e := Span(s, k, IsListSep);
      k < e && SplitRuns(s) == [s[..k]] + SplitRuns(s[e..])
  {
  }

  lemma ConcatCons(x: string, xs: seq<string>)
    ensures Concat([x] + xs) == x + Concat(xs)
  {
    assert ([x] + xs)[1..] == xs;
  }

  /** The pieces of a split, concatenated, are the text without its separators. */
  lemma {:induction false} SplitRunsKeepWordChars(s: string)
    ensures Concat(SplitRuns(s)) == WordChars(s)
    decreases |s|
  {
    var k := Span(s, 0, IsWordChar);
    if k == |s| {
      WordCharsOf(s, true);
      assert SplitRuns(s) == [s];
      ConcatCons(s, []);
    } else {
      var e := Span(s, k, IsListSep);
      SplitRunsStep(s);
      WordCharsAtRuns(s, k, e);
      SplitRunsKeepWordChars(s[e..]);
      ConcatCons(s[..k], SplitRuns(s[e..]));
    }
  }

  /** Dropping empty strings does not change the concatenation. */
  lemma {:induction false} ConcatNonEmpty(parts: seq<string>)
    ensures Concat(NonEmpty(parts)) == Concat(parts)
    decreases |parts|
  {
    if parts != [] {
      ConcatNonEmpty(parts[1..]);
      if parts[0] != "" {
        assert ([parts[0]] + NonEmpty(parts[1..]))[1..] == NonEmpty(parts[1..]);
      }
    }
  }

  /** The tokens keep every character of the text that is neither a comma nor whitespace, in
      order, and nothing else. */
  lemma TokensKeepWordChars(s: string)
    ensures Concat(Tokens(s)) == WordChars(s)
  {
    var pieces := SplitRuns(s);
    TrimEachSepFree(pieces);
    ConcatNonEmpty(pieces);
    SplitRunsKeepWordChars(s);
  }

  /** Lower-casing a lower-case needle then searching exactly is searching with the `i` flag. */
  lemma LowerMatchesIffCaseless(s: string, pat: string, i: nat)
    requires Lower(pat) == pat
    ensures MatchesAt(Lower(s), pat, i, false) <==> MatchesAt(s, pat, i, true)
  {
    if i + |pat| <= |s| {
      forall j | 0 <= j < |pat| ensures LowerChar(pat[j]) == pat[j] {
        assert Lower(pat)[j] == LowerChar(pat[j]);
      }
    }
  }

  /** `Lower(s).includes(pat)` decides the same as `/pat/i.test(s)` for a lower-case `pat`. */
  lemma LowerContainsIffCaseless(s: string, pat: string)
    requires Lower(pat) == pat
    ensures Contains(Lower(s), pat, false) <==> Contains(s, pat, true)
  {
    forall i: nat ensures MatchesAt(Lower(s), pat, i, false) <==> MatchesAt(s, pat, i, true) {
      LowerMatchesIffCaseless(s, pat, i);
    }
    var a := Find(Lower(s), pat, 0, false);
    var b := Find(s, pat, 0, true);
    if a.Some? { assert MatchesAt(s, pat, a.value, true); }
    if b.Some? { assert MatchesAt(Lower(s), pat, b.value, false); }
  }

  /** Pins `Find` down: a match at `k` and none between `from` and `k`. */
  lemma FindIs(s: string, pat: string, from: nat, k: nat, ci: bool)
    requires from <= k && MatchesAt(s, pat, k, ci)
    requires forall j :: from <= j < k ==> !MatchesAt(s, pat, j, ci)
    ensures Find(s, pat, from, ci) == Some(k)
  {
  }

  /** Pins `SkipSpace` down: whitespace up to `r` and none at `r`. */
  lemma SkipSpaceIs(s: string, k: nat, r: nat)
    requires k <= r <= |s|
    requires forall j :: k <= j < r ==> IsSpace(s[j])
    requires r < |s| ==> !IsSpace(s[r])
    ensures SkipSpace(s, k) == r
  {
  }

  /** A match in a suffix is a match in the whole text, shifted by where the suffix starts. */
  lemma SuffixMatches(s: string, a: nat, pat: string, k: nat, ci: bool)
    requires a <= |s|
    ensures MatchesAt(s[a..], pat, k, ci) <==> MatchesAt(s, pat, a + k, ci)
  {
    if k + |pat| <= |s| - a {
      forall j | 0 <= j < |pat| ensures Same(s[a..][k + j], pat[j], ci) == Same(s[a + k + j], pat[j], ci) {
        assert s[a..][k + j] == s[a + k + j];
      }
    }
  }

  /** Lower-casing a prefix is taking the prefix of the lower-cased text. */
  lemma LowerPrefix(s: string, j: nat)
    requires j <= |s|
    ensures Lower(s[..j]) == Lower(s)[..j]
  {
  }

  /** A match lying wholly inside a prefix is a match in the whole text, and back. */
  lemma PrefixMatches(s: string, b: nat, pat: string, k: nat, ci: bool)
    requires b <= |s| && k + |pat| <= b
    ensures MatchesAt(s[..b], pat, k, ci) <==> MatchesAt(s, pat, k, ci)
  {
    forall j | 0 <= j < |pat| ensures Same(s[..b][k + j], pat[j], ci) == Same(s[k + j], pat[j], ci) {
      assert s[..b][k + j] == s[k + j];
    }
  }

  /** The first part of a split is the text before the first separator, or all of it. */
  lemma SplitOnHead(s: string, sep: string, j: nat)
    requires |sep| > 0 && j <= |s|
    requires j == |s| ==> Find(s, sep, 0, false).None?
    requires j < |s| ==> Find(s, sep, 0, false) == Some(j)
    ensures SplitOn(s, sep)[0] == s[..j]
  {
  }

  /** The split of what follows `a` starts with the text up to the next separator. */
  lemma SplitOnAfter(s: string, sep: string, a: nat, j: nat)
    requires |sep| > 0 && a <= j <= |s|
    requires j == |s| ==> Find(s, sep, a, false).None?
    requires j < |s| ==> Find(s, sep, a, false) == Some(j)
    ensures SplitOn(s[a..], sep)[0] == s[a..j]
  {
    FindInRest(s, sep, a, j);
    SplitOnHead(s[a..], sep, j - a);
    SliceOfRest(s, a, j);
  }

  lemma SliceOfRest(s: string, a: nat, j: nat)
    requires a <= j <= |s|
    ensures s[a..][..j - a] == s[a..j]
  {
  }

  lemma SliceOfPrefix(s: string, j: nat, a: nat, b: nat)
    requires a <= b <= j <= |s|
    ensures s[..j][a..b] == s[a..b]
  {
  }

  /** The first two elements of a head followed by a tail that starts with `second`. */
  lemma FirstTwoOfCons(parts: seq<string>, head: string, tail: seq<string>, second: string)
    requires parts == [head] + tail && |tail| >= 1 && tail[0] == second
    ensures |parts| > 1 && parts[0] == head && parts[1] == second
  {
  }

  /** Searching what follows `a` is searching the whole text from `a`, shifted. */
  lemma FindInRest(s: string, sep: string, a: nat, j: nat)
    requires a <= j <= |s|
    requires j == |s| ==> Find(s, sep, a, false).None?
    requires j < |s| ==> Find(s, sep, a, false) == Some(j)
    ensures j == |s| ==> Find(s[a..], sep, 0, false).None?
    ensures j < |s| ==> Find(s[a..], sep, 0, false) == Some(j - a)
  {
    forall k: nat | k < j - a || j == |s| ensures !MatchesAt(s[a..], sep, k, false) {
      SuffixMatches(s, a, sep, k, false);
    }
    if j < |s| {
      SuffixMatches(s, a, sep, j - a, false);
      FindIs(s[a..], sep, 0, j - a, false);
    }
  }

  /** A split with a first separator is the text before it, then the split of the rest. */
  lemma SplitOnStep(s: string, sep: string)
    requires |sep| > 0 && Find(s, sep, 0, false).Some?
    ensures var i := Find(s, sep, 0, false).value;
      SplitOn(s, sep) == [s[..i]] + SplitOn(s[i + |sep|..], sep)
  {
  }

  lemma SplitOnStepAt(s: string, sep: string, i: nat)
    requires |sep| > 0 && Find(s, sep, 0, false) == Some(i)
    ensures SplitOn(s, sep) == [s[..i]] + SplitOn(s[i + |sep|..], sep)
  {
    var f := Find(s, sep, 0, false).value;
    assert f == i;
    SplitOnStep(s, sep);
  }

  /** Cutting the text at the second separator keeps the first and leaves no second. */
  lemma FindBeforeSecond(s: string, sep: string, i: nat, j: nat)
    requires |sep| > 0
    requires Find(s, sep, 0, false) == Some(i)
    requires Find(s, sep, i + |sep|, false) == Some(j)
    ensures Find(s[..j], sep, 0, false) == Some(i) && Find(s[..j], sep, i + |sep|, false).None?
  {
    forall k: nat | k + |sep| <= j ensures MatchesAt(s[..j], sep, k, false) <==> MatchesAt(s, sep, k, false) {
      PrefixMatches(s, j, sep, k, false);
    }
    FindIs(s[..j], sep, 0, i, false);
    assert forall k: nat :: i + |sep| <= k ==> !MatchesAt(s[..j], sep, k, false);
  }

  /** A match inside a slice is a match in the whole text. */
  lemma MatchInSlice(s: string, a: nat, b: nat, pat: string, i: nat, ci: bool)
    requires a <= b <= |s| && MatchesAt(s[a..b], pat, i, ci)
    ensures MatchesAt(s, pat, a + i, ci) && a + i + |pat| <= b
  {
    forall j | 0 <= j < |pat| ensures Same(s[a + i + j], pat[j], ci) {
      assert s[a..b][i + j] == s[a + i + j];
    }
  }

  /** Appending one more part to a join adds the separator and the part. */
  lemma {:induction false} JoinAppend(parts: seq<string>, x: string, sep: string)
    requires parts != []
    ensures JoinWith(parts + [x], sep) == JoinWith(parts, sep) + sep + x
    decreases |parts|
  {
    if |parts| == 1 {
      assert (parts + [x])[1..] == [x];
    } else {
      assert (parts + [x])[1..] == parts[1..] + [x];
      JoinAppend(parts[1..], x, sep);
    }
  }

  /** Where a one-character separator first occurs. */
  lemma FindSingle(s: string, sep: string, k: nat)
    requires |sep| == 1 && k <= |s|
    requires forall j :: 0 <= j < k ==> s[j] != sep[0]
    requires k < |s| ==> s[k] == sep[0]
    ensures Find(s, sep, 0, false) == if k < |s| then Some(k) else None
  {
    assert forall j :: 0 <= j < k ==> !MatchesAt(s, sep, j, false);
    if k < |s| {
      FindIs(s, sep, 0, k, false);
    }
  }

  /** Splitting on a one-character separator that no part contains gives the parts back. */
  lemma {:induction false} SplitJoin(parts: seq<string>, sep: string)
    requires |parts| >= 1 && |sep| == 1
    requires forall p :: p in parts ==> sep[0] !in p
    ensures SplitOn(JoinWith(parts, sep), sep) == parts
    decreases |parts|
  {
    var s := JoinWith(parts, sep);
    var p0 := parts[0];
    assert sep[0] !in p0;
    if |parts| == 1 {
      assert s == p0;
      FindSingle(s, sep, |s|);
    } else {
      var rest := JoinWith(parts[1..], sep);
      assert s == p0 + sep + rest;
      forall j | 0 <= j < |p0| ensures s[j] != sep[0] {
        assert s[j] == p0[j];
      }
      FindSingle(s, sep, |p0|);
      ConcatSlices(p0, sep, rest);
      SplitOnStepAt(s, sep, |p0|);
      forall p | p in parts[1..] ensures sep[0] !in p {
        assert p in parts;
      }
      SplitJoin(parts[1..], sep);
      assert parts == [p0] + parts[1..];
    }
  }

  /** A slice equal to the pattern is a match, with or without the `i` flag. */
  lemma SliceMatches(s: string, pat: string, i: nat, ci: bool)
    requires i + |pat| <= |s| && s[i..i + |pat|] == pat
    ensures MatchesAt(s, pat, i, ci)
  {
    forall j | 0 <= j < |pat| ensures Same(s[i + j], pat[j], ci) {
      assert s[i..i + |pat|][j] == s[i + j];
    }
  }

  /** A text without the pattern has no match lying wholly inside it. */
  lemma NoMatchInside(s: string, lo: nat, hi: nat, pat: string, ci: bool)
    requires lo <= hi <= |s| && !Contains(s[lo..hi], pat, ci)
    ensures forall k :: lo <= k && k + |pat| <= hi ==> !MatchesAt(s, pat, k, ci)
  {
    forall k | lo <= k && k + |pat| <= hi && MatchesAt(s, pat, k, ci) ensures false {
      forall j | 0 <= j < |pat| ensures Same(s[lo..hi][k - lo + j], pat[j], ci) {
        assert s[lo..hi][k - lo + j] == s[k + j];
      }
      assert MatchesAt(s[lo..hi], pat, k - lo, ci);
    }
  }
}
