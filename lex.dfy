/**
 * Character classes and the small scanning steps shared by the usage
 * recognisers and by key normalisation. Each helper is what one regular
 * expression atom does in JavaScript: `\w`, `\s`, a greedy run of a
 * negated character class, a literal.
 */
module Lex {
  import opened Wrappers

  /** `\w` of a JavaScript regular expression without the `u` flag. */
  predicate IsWord(c: char) {
    ('a' <= c <= 'z') || ('A' <= c <= 'Z') || ('0' <= c <= '9') || c == '_'
  }

  /** `\s` of a JavaScript regular expression: WhiteSpace and LineTerminator. */
  predicate IsSpace(c: char) {
    c == ' ' || c == '\t' || c == '\n' || c == '\r' || c == '\U{000B}' || c == '\U{000C}'
    || c == '\U{00A0}' || c == '\U{1680}' || ('\U{2000}' <= c <= '\U{200A}')
    || c == '\U{2028}' || c == '\U{2029}' || c == '\U{202F}' || c == '\U{205F}'
    || c == '\U{3000}' || c == '\U{FEFF}'
  }

  /** The three delimiter classes the patterns use: `['"]`, a backtick, and `['"`]`. */
  datatype Delims = Quotes | Backticks | AllQuotes

  predicate IsDelim(d: Delims, c: char) {
    match d
    case Quotes => c == '\'' || c == '"'
    case Backticks => c == '`'
    case AllQuotes => c == '\'' || c == '"' || c == '`'
  }

  predicate IsQuote(c: char) { IsDelim(Quotes, c) }

  /** No character of `s` is a delimiter of class `d`. */
  predicate DelimFree(d: Delims, s: string) {
    forall k :: 0 <= k < |s| ==> !IsDelim(d, s[k])
  }

  /** End of the longest run from `i` of characters outside `d` (a greedy `[^...]*`). */
  function RunEnd(s: string, i: nat, d: Delims): (j: nat)
    requires i <= |s|
    ensures i <= j <= |s|
    ensures j < |s| ==> IsDelim(d, s[j])
    decreases |s| - i
  {
    if i == |s| || IsDelim(d, s[i]) then i else RunEnd(s, i + 1, d)
  }

  /** End of the longest run of whitespace from `i` (a greedy `\s*`). */
  function SkipSpace(s: string, i: nat): (j: nat)
    requires i <= |s|
    ensures i <= j <= |s|
    ensures j < |s| ==> !IsSpace(s[j])
    decreases |s| - i
  {
    if i == |s| || !IsSpace(s[i]) then i else SkipSpace(s, i + 1)
  }

  /** End of the longest run of word characters from `i` (a greedy `\w*`). */
  function WordEnd(s: string, i: nat): (j: nat)
    requires i <= |s|
    ensures i <= j <= |s|
    ensures j < |s| ==> !IsWord(s[j])
    decreases |s| - i
  {
    if i == |s| || !IsWord(s[i]) then i else WordEnd(s, i + 1)
  }

  /** The literal `w` occurs in `s` at position `i`. */
  predicate HasAt(s: string, i: nat, w: string) {
    i + |w| <= |s| && forall k {:trigger w[k]} :: 0 <= k < |w| ==> s[i + k] == w[k]
  }

  /** The first position at or after `i` holding `c` (what a lazy `[\s\S]*?c` stops at). */
  function IndexFrom(s: string, i: nat, c: char): (r: Option<nat>)
    requires i <= |s|
    ensures r.Some? ==> i <= r.value < |s| && s[r.value] == c
    decreases |s| - i
  {
    if i == |s| then None else if s[i] == c then Some(i) else IndexFrom(s, i + 1, c)
  }

  /** `String.prototype.lastIndexOf` for one character: -1 when absent. */
  function LastIndexOf(s: string, c: char): (r: int)
    ensures -1 <= r < |s|
    ensures r >= 0 ==> s[r] == c
    ensures forall k :: r < k < |s| ==> s[k] != c
  {
    if |s| == 0 then -1
    else if s[|s| - 1] == c then |s| - 1
    else LastIndexOf(s[..|s| - 1], c)
  }

  /**
   * One match of the segment pattern `/\[['"]([^'"]+)['"]\]/` at `i`: the position after `]` and
   * the bracketed name. The two quotes are matched independently.
   */
  function BracketSegmentAt(s: string, i: nat): (r: Option<(nat, string)>)
    requires i <= |s|
    ensures r.Some? ==> i + 5 <= r.value.0 <= |s| && |r.value.1| == r.value.0 - i - 4
  {
    if i + 1 < |s| && s[i] == '[' && IsQuote(s[i + 1]) then
      var j := RunEnd(s, i + 2, Quotes);
      RunEndFree(s, i + 2, Quotes);
      if j > i + 2 && j + 1 < |s| && s[j + 1] == ']' then Some((j + 2, s[i + 2..j])) else None
    else None
  }

  /** A recognised segment is `[`, a quote, its quote-free name, a quote and `]`. */
  lemma BracketSegmentShape(s: string, i: nat)
    requires i <= |s| && BracketSegmentAt(s, i).Some?
    ensures var (e, n) := BracketSegmentAt(s, i).value;
      && n == s[i + 2..e - 2] && DelimFree(Quotes, n)
      && s[i] == '[' && IsQuote(s[i + 1]) && IsQuote(s[e - 2]) && s[e - 1] == ']'
  {
    RunEndFree(s, i + 2, Quotes);
  }

  /** Every character of `sp` is whitespace. */
  predicate AllSpace(sp: string) {
    forall k :: 0 <= k < |sp| ==> IsSpace(sp[k])
  }

  /** A run of characters outside `d` that stops at a delimiter of `d` is what `RunEnd` finds. */
  lemma {:induction false} RunEndFrom(t: string, i: nat, n: nat, d: Delims)
    requires i <= n < |t| && IsDelim(d, t[n])
    requires forall k :: i <= k < n ==> !IsDelim(d, t[k])
    ensures RunEnd(t, i, d) == n
    decreases n - i
  {
    if i < n {
      RunEndFrom(t, i + 1, n, d);
    }
  }

  /** Whitespace that stops at a non-space character is what `SkipSpace` skips. */
  lemma {:induction false} SkipSpaceFrom(t: string, i: nat, n: nat)
    requires i <= n < |t| && !IsSpace(t[n])
    requires forall k :: i <= k < n ==> IsSpace(t[k])
    ensures SkipSpace(t, i) == n
    decreases n - i
  {
    if i < n {
      SkipSpaceFrom(t, i + 1, n);
    }
  }

  /** A literal `u + v` at `i` is `u` at `i` followed by `v`. */
  lemma HasAtSplit(s: string, i: nat, u: string, v: string)
    requires HasAt(s, i, u + v)
    ensures HasAt(s, i, u) && HasAt(s, i + |u|, v)
  {
    forall k | 0 <= k < |u| ensures s[i + k] == u[k] {
      assert (u + v)[k] == u[k];
    }
    forall k | 0 <= k < |v| ensures s[i + |u| + k] == v[k] {
      assert (u + v)[|u| + k] == v[k];
    }
  }

  /** The first `c` at or after `i` is at `n` when `s[i..n]` holds none. */
  lemma {:induction false} IndexFromFound(s: string, i: nat, n: nat, c: char)
    requires i <= n < |s| && s[n] == c
    requires forall k :: i <= k < n ==> s[k] != c
    ensures IndexFrom(s, i, c) == Some(n)
    decreases n - i
  {
    if i < n {
      IndexFromFound(s, i + 1, n, c);
    }
  }

  lemma HasAtJoin(s: string, i: nat, u: string, v: string)
    requires HasAt(s, i, u) && HasAt(s, i + |u|, v)
    ensures HasAt(s, i, u + v)
  {
    forall k | 0 <= k < |u + v| ensures s[i + k] == (u + v)[k] {
      if k >= |u| {
        assert s[i + |u| + (k - |u|)] == v[k - |u|];
      }
    }
  }

  /** A text holds each of its slices where the slice was taken. */
  lemma HasAtSlices(s: string, i: nat, j: nat)
    requires i <= j <= |s|
    ensures HasAt(s, i, s[i..j])
  {
  }

  /** A text holds its second part right after its first. */
  lemma HasAtAfter(u: string, v: string)
    ensures HasAt(u + v, |u|, v)
  {
    forall k | 0 <= k < |v| ensures (u + v)[|u| + k] == v[k] {
    }
  }

  lemma HasAtChar(s: string, i: nat, c: char)
    requires HasAt(s, i, [c])
    ensures i < |s| && s[i] == c
  {
    assert s[i + 0] == [c][0];
  }

  /** A delimiter-free literal followed by a delimiter is exactly the run `RunEnd` finds. */
  lemma RunOver(s: string, i: nat, k: string, d: Delims)
    requires HasAt(s, i, k) && DelimFree(d, k)
    requires i + |k| < |s| && IsDelim(d, s[i + |k|])
    ensures RunEnd(s, i, d) == i + |k|
  {
    forall m | i <= m < i + |k| ensures !IsDelim(d, s[m]) {
      assert s[i + (m - i)] == k[m - i];
    }
    RunEndFrom(s, i, i + |k|, d);
  }

  /** A whitespace literal followed by a non-space character is exactly what `SkipSpace` skips. */
  lemma SpacesOver(s: string, i: nat, sp: string)
    requires HasAt(s, i, sp) && AllSpace(sp)
    requires i + |sp| < |s| && !IsSpace(s[i + |sp|])
    ensures SkipSpace(s, i) == i + |sp|
  {
    forall m | i <= m < i + |sp| ensures IsSpace(s[m]) {
      assert s[i + (m - i)] == sp[m - i];
    }
    SkipSpaceFrom(s, i, i + |sp|);
  }

  /** Word characters that stop at a non-word character are what `WordEnd` takes. */
  lemma {:induction false} WordEndFrom(t: string, i: nat, n: nat)
    requires i <= n < |t| && !IsWord(t[n])
    requires forall k :: i <= k < n ==> IsWord(t[k])
    ensures WordEnd(t, i) == n
    decreases n - i
  {
    if i < n {
      WordEndFrom(t, i + 1, n);
    }
  }

  /** Every character of `w` is a word character. */
  predicate AllWord(w: string) {
    forall k :: 0 <= k < |w| ==> IsWord(w[k])
  }

  /** A word literal followed by a non-word character is exactly what `WordEnd` takes. */
  lemma WordOver(s: string, i: nat, w: string)
    requires HasAt(s, i, w) && AllWord(w)
    requires i + |w| < |s| && !IsWord(s[i + |w|])
    ensures WordEnd(s, i) == i + |w|
  {
    forall m | i <= m < i + |w| ensures IsWord(s[m]) {
      assert s[i + (m - i)] == w[m - i];
    }
    WordEndFrom(s, i, i + |w|);
  }

  /** The run `RunEnd` finds holds no delimiter of `d`. */
  lemma {:induction false} RunEndFree(s: string, i: nat, d: Delims)
    requires i <= |s|
    ensures forall k :: i <= k < RunEnd(s, i, d) ==> !IsDelim(d, s[k])
    decreases |s| - i
  {
    if i < |s| && !IsDelim(d, s[i]) {
      RunEndFree(s, i + 1, d);
    }
  }

  /** What `SkipSpace` skips is whitespace. */
  lemma {:induction false} SkipSpaceAll(s: string, i: nat)
    requires i <= |s|
    ensures forall k :: i <= k < SkipSpace(s, i) ==> IsSpace(s[k])
    decreases |s| - i
  {
    if i < |s| && IsSpace(s[i]) {
      SkipSpaceAll(s, i + 1);
    }
  }

  /** What `WordEnd` takes is word characters. */
  lemma {:induction false} WordEndAll(s: string, i: nat)
    requires i <= |s|
    ensures forall k :: i <= k < WordEnd(s, i) ==> IsWord(s[k])
    decreases |s| - i
  {
    if i < |s| && IsWord(s[i]) {
      WordEndAll(s, i + 1);
    }
  }

  /** `IndexFrom` finds the first `c`: none stands before it, and none at all when it finds nothing. */
  lemma {:induction false} IndexFromFirst(s: string, i: nat, c: char)
    requires i <= |s|
    ensures IndexFrom(s, i, c).Some? ==> forall k :: i <= k < IndexFrom(s, i, c).value ==> s[k] != c
    ensures IndexFrom(s, i, c).None? ==> forall k :: i <= k < |s| ==> s[k] != c
    decreases |s| - i
  {
    if i < |s| && s[i] != c {
      IndexFromFirst(s, i + 1, c);
    }
  }
}
