/**
 * src/translations-cleanup/patterns.ts: the ten usage patterns, and the two
 * extraction patterns of src/translations-cleanup/fileScanner.ts, each as a
 * hand-written recogniser that gives what JavaScript's backtracking matcher
 * gives: whether a match starts at a position, where it ends, and capture
 * group 1.
 *
 * Backtracking is resolved once, by reading each pattern:
 *  - `(?:^|\W)` tries `^` first (only at position 0), then one non-word
 *    character; `(?:\$)?` tries the `$` first and falls back to none;
 *  - a greedy `[^'"]+` followed by a quote class can only end at a quote;
 *  - `\s*` followed by a non-space token can only be maximal;
 *  - `\s*(?:,[\s\S]*?)?\)` therefore is: after the spaces, either `,` and
 *    everything up to the first `)`, or `)` at once;
 *  - in the bracket pattern the base `[^'"]+` is retried from its longest
 *    run downwards, and the segments after it are taken as many as possible.
 */
module Patterns {
  import opened Wrappers
  import opened Lex

  /** A match: the position just after it, and capture group 1. */
  datatype Hit = Hit(end: nat, capture: string)

  /** The recognisers. */
  datatype Pattern =
    | Tight                           // (?:^|\W)(?:\$)?t\(['"]([^'"]+)['"]\)
    | Loose(name: string, d: Delims)  // (?:^|\W)(?:\$)?NAME\(\s*Q([^Q]+)Q\s*(?:,[\s\S]*?)?\)
    | Composition                     // (?:^|\W)useI18n\(\)\.[tr]t\(\s*Q([^Q]+)Q\s*(?:,[\s\S]*?)?\)
    | Shorthand                       // \$t\s*:\s*['"`]([^'"`]+)['"`]
    | Bracket                         // (?:^|\W)(?:\$)?t\(['"]([^'"]+(?:\[['"][^'"]+['"]\])*)['"]\)
    | ConstArray                      // const\s+\w+\s*=\s*\[([\s\S]*?)]
    | StringLiteral                   // ['"]([^'"]+)['"]

  /** `translationPatterns`, in order. */
  const TranslationPatterns: seq<Pattern> := [
    Tight,
    Loose("t", Quotes), Loose("t", Backticks),
    Loose("rt", Quotes), Loose("rt", Backticks),
    Loose("tc", Quotes), Loose("tc", Backticks),
    Composition,
    Shorthand,
    Bracket
  ]

  /** Patterns that begin with `(?:^|\W)`. */
  predicate Anchored(P: Pattern) {
    P.Tight? || P.Loose? || P.Composition? || P.Bracket?
  }

  /** Patterns that continue with `(?:\$)?` after the anchor. */
  predicate Dollar(P: Pattern) {
    P.Tight? || P.Loose? || P.Bracket?
  }

  /** The call token an anchored pattern needs at a word boundary. */
  function Token(P: Pattern): (t: string)
    ensures |t| >= 1
  {
    match P
    case Loose(name, _) => name + "("
    case Composition => "useI18n()."
    case _ => "t("
  }

  // ---------------------------------------------------------------------
  // Argument parts
  // ---------------------------------------------------------------------

  /** `['"]([^'"]+)['"]\)` at `i`: one quoted argument closed at once. */
  function TightArg(s: string, i: nat): (r: Option<Hit>)
    requires i <= |s|
    ensures r.Some? ==> i < r.value.end <= |s|
    ensures r.Some? ==> r.value.capture != [] && DelimFree(Quotes, r.value.capture)
  {
    if i < |s| && IsQuote(s[i]) then
      var e := RunEnd(s, i + 1, Quotes);
      RunEndFree(s, i + 1, Quotes);
      if e > i + 1 && e + 1 < |s| && s[e + 1] == ')' then Some(Hit(e + 2, s[i + 1..e])) else None
    else None
  }

  /** `\s*(?:,[\s\S]*?)?\)` at `i`: the position after the closing `)`. */
  function ArgsTail(s: string, i: nat): (r: Option<nat>)
    requires i <= |s|
    ensures r.Some? ==> i < r.value <= |s| && s[r.value - 1] == ')'
  {
    var f := SkipSpace(s, i);
    if f < |s| && s[f] == ',' && IndexFrom(s, f + 1, ')').Some? then Some(IndexFrom(s, f + 1, ')').value + 1)
    else if f < |s| && s[f] == ')' then Some(f + 1)
    else None
  }

  /** `\s*Q([^Q]+)Q\s*(?:,[\s\S]*?)?\)` at `i`, where `Q` is the class `d`. */
  function LooseArgs(s: string, i: nat, d: Delims): (r: Option<Hit>)
    requires i <= |s|
    ensures r.Some? ==> i < r.value.end <= |s|
    ensures r.Some? ==> r.value.capture != [] && DelimFree(d, r.value.capture)
  {
    var q := SkipSpace(s, i);
    if q < |s| && IsDelim(d, s[q]) then
      var e := RunEnd(s, q + 1, d);
      RunEndFree(s, q + 1, d);
      if e > q + 1 && e < |s| then
        match ArgsTail(s, e + 1)
        case Some(end) => Some(Hit(end, s[q + 1..e]))
        case None => None
      else None
    else None
  }

  /** End of the longest chain of `\[['"][^'"]+['"]\]` segments from `b`. */
  function SegmentsEnd(s: string, b: nat): (e: nat)
    requires b <= |s|
    ensures b <= e <= |s|
    ensures BracketSegmentAt(s, e).None?
    decreases |s| - b
  {
    match BracketSegmentAt(s, b)
    case Some((j, _)) => SegmentsEnd(s, j)
    case None => b
  }

  /**
   * The capture of the bracket pattern when its base run is cut at `b`, or
   * at a shorter cut if that one does not lead to a closing quote and `)`.
   */
  function BracketFrom(s: string, i: nat, b: nat): (r: Option<Hit>)
    requires i < b <= |s|
    ensures r.Some? ==> i + 3 <= r.value.end <= |s|
    ensures r.Some? ==> IsQuote(s[r.value.end - 2]) && s[r.value.end - 1] == ')'
    ensures r.Some? ==> r.value.capture == s[i + 1..r.value.end - 2]
    decreases b
  {
    if b == i + 1 then None
    else
      var e := SegmentsEnd(s, b);
      if e + 1 < |s| && IsQuote(s[e]) && s[e + 1] == ')' then Some(Hit(e + 2, s[i + 1..e]))
      else BracketFrom(s, i, b - 1)
  }

  /** `['"]([^'"]+(?:\[['"][^'"]+['"]\])*)['"]\)` at `i`. */
  function BracketArg(s: string, i: nat): (r: Option<Hit>)
    requires i <= |s|
    ensures r.Some? ==> i < r.value.end <= |s|
    ensures r.Some? ==> BracketShape(r.value.capture)
  {
    if i < |s| && IsQuote(s[i]) then
      var b := RunEnd(s, i + 1, Quotes);
      RunEndFree(s, i + 1, Quotes);
      BracketFromShape(s, i, b);
      BracketFrom(s, i, b)
    else None
  }

  // ---------------------------------------------------------------------
  // Whole patterns
  // ---------------------------------------------------------------------

  /** `t\(['"]([^'"]+)['"]\)` at `q`. */
  function TightAt(s: string, q: nat): (r: Option<Hit>)
    requires q <= |s|
    ensures r.Some? ==> q < r.value.end <= |s| && HasAt(s, q, "t(")
    ensures r.Some? ==> r.value.capture != [] && DelimFree(Quotes, r.value.capture)
  {
    if HasAt(s, q, "t(") then TightArg(s, q + 2) else None
  }

  /** `NAME\(\s*Q([^Q]+)Q\s*(?:,[\s\S]*?)?\)` at `q`. */
  function LooseAt(s: string, q: nat, name: string, d: Delims): (r: Option<Hit>)
    requires q <= |s|
    ensures r.Some? ==> q < r.value.end <= |s| && HasAt(s, q, name + "(")
    ensures r.Some? ==> r.value.capture != [] && DelimFree(d, r.value.capture)
  {
    if HasAt(s, q, name + "(") then LooseArgs(s, q + |name| + 1, d) else None
  }

  /** `useI18n\(\)\.[tr]t\(\s*['"`]([^'"`]+)['"`]\s*(?:,[\s\S]*?)?\)` at `q`. */
  function CompositionAt(s: string, q: nat): (r: Option<Hit>)
    requires q <= |s|
    ensures r.Some? ==> q < r.value.end <= |s| && HasAt(s, q, "useI18n().")
    ensures r.Some? ==> HasAt(s, q, "useI18n().rt(") || HasAt(s, q, "useI18n().tt(")
    ensures r.Some? ==> r.value.capture != [] && DelimFree(AllQuotes, r.value.capture)
  {
    if HasAt(s, q, "useI18n().") && q + 10 < |s| && (s[q + 10] == 't' || s[q + 10] == 'r') && HasAt(s, q + 11, "t(") then
      assert HasAt(s, q + 10, [s[q + 10]]);
      HasAtJoin(s, q, "useI18n().", [s[q + 10]]);
      HasAtJoin(s, q, "useI18n()." + [s[q + 10]], "t(");
      assert "useI18n()." + [s[q + 10]] + "t(" == if s[q + 10] == 'r' then "useI18n().rt(" else "useI18n().tt(";
      LooseArgs(s, q + 13, AllQuotes)
    else None
  }

  /** `t\(['"]([^'"]+(?:\[['"][^'"]+['"]\])*)['"]\)` at `q`. */
  function BracketAt(s: string, q: nat): (r: Option<Hit>)
    requires q <= |s|
    ensures r.Some? ==> q < r.value.end <= |s| && HasAt(s, q, "t(")
    ensures r.Some? ==> BracketShape(r.value.capture)
  {
    if HasAt(s, q, "t(") then BracketArg(s, q + 2) else None
  }

  /** `\$t\s*:\s*['"`]([^'"`]+)['"`]` at `q`. */
  function ShorthandAt(s: string, q: nat): (r: Option<Hit>)
    requires q <= |s|
    ensures r.Some? ==> q < r.value.end <= |s| && HasAt(s, q, "$t")
    ensures r.Some? ==> r.value.capture != [] && DelimFree(AllQuotes, r.value.capture)
  {
    if HasAt(s, q, "$t") then
      var c := SkipSpace(s, q + 2);
      if c < |s| && s[c] == ':' then
        var o := SkipSpace(s, c + 1);
        if o < |s| && IsDelim(AllQuotes, s[o]) then
          var e := RunEnd(s, o + 1, AllQuotes);
          RunEndFree(s, o + 1, AllQuotes);
          if e > o + 1 && e < |s| then Some(Hit(e + 1, s[o + 1..e])) else None
        else None
      else None
    else None
  }

  /** `const\s+\w+\s*=\s*\[([\s\S]*?)]` at `q`: the array body up to the first `]`. */
  function ConstArrayAt(s: string, q: nat): (r: Option<Hit>)
    requires q <= |s|
    ensures r.Some? ==> q < r.value.end <= |s| && HasAt(s, q, "const")
    ensures r.Some? ==> ']' !in r.value.capture
  {
    if HasAt(s, q, "const") then ConstDecl(s, q + 5) else None
  }

  /** `\s+\w+` at `i`, then the rest of the declaration. */
  function ConstDecl(s: string, i: nat): (r: Option<Hit>)
    requires i <= |s|
    ensures r.Some? ==> i < r.value.end <= |s| && ']' !in r.value.capture
  {
    var w := SkipSpace(s, i);
    var n := WordEnd(s, w);
    if w > i && n > w then ArrayInit(s, n) else None
  }

  /** `\s*=\s*` at `n`, then the array. */
  function ArrayInit(s: string, n: nat): (r: Option<Hit>)
    requires n <= |s|
    ensures r.Some? ==> n < r.value.end <= |s| && ']' !in r.value.capture
  {
    var eq := SkipSpace(s, n);
    if eq < |s| && s[eq] == '=' then ArrayBody(s, SkipSpace(s, eq + 1)) else None
  }

  /** `\[([\s\S]*?)]` at `o`: the lazy body stops at the first `]`. */
  function ArrayBody(s: string, o: nat): (r: Option<Hit>)
    requires o <= |s|
    ensures r.Some? ==> o < r.value.end <= |s| && ']' !in r.value.capture
  {
    if o < |s| && s[o] == '[' then
      IndexFromFirst(s, o + 1, ']');
      match IndexFrom(s, o + 1, ']')
      case Some(c) => Some(Hit(c + 1, s[o + 1..c]))
      case None => None
    else None
  }

  /** `['"]([^'"]+)['"]` at `q`. */
  function StringLiteralAt(s: string, q: nat): (r: Option<Hit>)
    requires q <= |s|
    ensures r.Some? ==> q < r.value.end <= |s|
    ensures r.Some? ==> r.value.capture != [] && DelimFree(Quotes, r.value.capture)
  {
    if q < |s| && IsQuote(s[q]) then
      var e := RunEnd(s, q + 1, Quotes);
      RunEndFree(s, q + 1, Quotes);
      if e > q + 1 && e < |s| then Some(Hit(e + 1, s[q + 1..e])) else None
    else None
  }

  /** The pattern after its anchor and optional `$`, tried at `q`. */
  function Body(P: Pattern, s: string, q: nat): (r: Option<Hit>)
    requires q <= |s|
    ensures r.Some? ==> q < r.value.end <= |s|
    ensures r.Some? && Anchored(P) ==> HasAt(s, q, Token(P))
  {
    match P
    case Tight => TightAt(s, q)
    case Loose(name, d) => LooseAt(s, q, name, d)
    case Composition => CompositionAt(s, q)
    case Bracket => BracketAt(s, q)
    case Shorthand => ShorthandAt(s, q)
    case ConstArray => ConstArrayAt(s, q)
    case StringLiteral => StringLiteralAt(s, q)
  }

  /** The pattern after its anchor: `(?:\$)?` first tries to take a `$`. */
  function Head(P: Pattern, s: string, q: nat): (r: Option<Hit>)
    requires q <= |s|
    ensures r.Some? ==> q < r.value.end <= |s|
  {
    if Dollar(P) && q < |s| && s[q] == '$' && Body(P, s, q + 1).Some? then Body(P, s, q + 1)
    else Body(P, s, q)
  }

  /**
   * A match of `P` starting at `p`. An anchored pattern tries `^` (only at
   * position 0) and then one non-word character.
   */
  function MatchAt(P: Pattern, s: string, p: nat): (r: Option<Hit>)
    requires p <= |s|
    ensures r.Some? ==> p < r.value.end <= |s|
  {
    if !Anchored(P) then Body(P, s, p)
    else if p == 0 && Head(P, s, 0).Some? then Head(P, s, 0)
    else if p < |s| && !IsWord(s[p]) then Head(P, s, p + 1)
    else None
  }

  /**
   * `s.matchAll(P)` from position `i`, as the list of captures: the leftmost
   * match, then the search goes on where it ended.
   */
  function MatchAll(P: Pattern, s: string, i: nat): (r: seq<string>)
    requires i <= |s|
    decreases |s| - i
  {
    if i == |s| then []
    else match MatchAt(P, s, i)
      case Some(h) => [h.capture] + MatchAll(P, s, h.end)
      case None => MatchAll(P, s, i + 1)
  }

  // ---------------------------------------------------------------------
  // What a capture looks like
  // ---------------------------------------------------------------------

  /** A chain of zero or more `['x']` segments, each with either quote kind. */
  predicate Chain(x: string)
    decreases |x|
  {
    x == [] || (BracketSegmentAt(x, 0).Some? && Chain(x[BracketSegmentAt(x, 0).value.0..]))
  }

  /** A non-empty quote-free base followed by a chain of segments. */
  predicate BracketShape(c: string) {
    exists k :: 0 < k <= |c| && DelimFree(Quotes, c[..k]) && Chain(c[k..])
  }

  /** The form capture group 1 of each pattern takes. */
  predicate CaptureShape(P: Pattern, c: string) {
    match P
    case Tight => c != [] && DelimFree(Quotes, c)
    case Loose(_, d) => c != [] && DelimFree(d, c)
    case Composition => c != [] && DelimFree(AllQuotes, c)
    case Shorthand => c != [] && DelimFree(AllQuotes, c)
    case Bracket => BracketShape(c)
    case ConstArray => ']' !in c
    case StringLiteral => c != [] && DelimFree(Quotes, c)
  }

  /** A segment recognised in `s` is recognised the same in a slice that holds it. */
  lemma BracketSlice(s: string, b: nat, e: nat)
    requires b <= e <= |s|
    requires BracketSegmentAt(s, b).Some? && BracketSegmentAt(s, b).value.0 <= e
    ensures BracketSegmentAt(s[b..e], 0) == Some((BracketSegmentAt(s, b).value.0 - b, BracketSegmentAt(s, b).value.1))
  {
    var j := BracketSegmentAt(s, b).value.0;
    BracketSegmentShape(s, b);
    var x := s[b..e];
    assert x[0] == s[b] && x[1] == s[b + 1];
    assert forall k :: 2 <= k < j - 2 - b ==> x[k] == s[b + k];
    assert x[j - 2 - b] == s[j - 2];
    RunEndFrom(x, 2, j - 2 - b, Quotes);
    assert x[j - 1 - b] == s[j - 1];
    assert x[2..j - 2 - b] == s[b + 2..j - 2];
  }

  lemma {:induction false} SegmentsChain(s: string, b: nat)
    requires b <= |s|
    ensures Chain(s[b..SegmentsEnd(s, b)])
    decreases |s| - b
  {
    var e := SegmentsEnd(s, b);
    match BracketSegmentAt(s, b)
    case None =>
      assert s[b..e] == [];
    case Some((j, _)) =>
      SegmentsChain(s, j);
      BracketSlice(s, b, e);
      assert s[b..e][j - b..] == s[j..e];
  }

  lemma CaptureSplit(s: string, a: nat, b: nat, e: nat)
    requires a < b <= e <= |s|
    requires forall k :: a <= k < b ==> !IsQuote(s[k])
    requires Chain(s[b..e])
    ensures BracketShape(s[a..e])
  {
    var c := s[a..e];
    var k := b - a;
    assert c[..k] == s[a..b];
    assert c[k..] == s[b..e];
    assert DelimFree(Quotes, c[..k]);
  }

  lemma {:induction false} BracketFromShape(s: string, i: nat, b: nat)
    requires i < b <= |s|
    requires forall k :: i < k < b ==> !IsQuote(s[k])
    ensures BracketFrom(s, i, b).Some? ==> BracketShape(BracketFrom(s, i, b).value.capture)
    decreases b
  {
    if b > i + 1 {
      var e := SegmentsEnd(s, b);
      if e + 1 < |s| && IsQuote(s[e]) && s[e + 1] == ')' {
        SegmentsChain(s, b);
        CaptureSplit(s, i + 1, b, e);
      } else {
        BracketFromShape(s, i, b - 1);
      }
    }
  }

  /** A match's capture has the form of the pattern's group. */
  lemma MatchAtShape(P: Pattern, s: string, p: nat)
    requires p <= |s| && MatchAt(P, s, p).Some?
    ensures CaptureShape(P, MatchAt(P, s, p).value.capture)
  {
    if Anchored(P) {
      if p == 0 && Head(P, s, 0).Some? {
        HeadShape(P, s, 0);
      } else {
        HeadShape(P, s, p + 1);
      }
    } else {
      BodyShape(P, s, p);
    }
  }

  lemma HeadShape(P: Pattern, s: string, q: nat)
    requires q <= |s| && Head(P, s, q).Some?
    ensures CaptureShape(P, Head(P, s, q).value.capture)
  {
    if Dollar(P) && q < |s| && s[q] == '$' && Body(P, s, q + 1).Some? {
      BodyShape(P, s, q + 1);
    } else {
      BodyShape(P, s, q);
    }
  }

  lemma BodyShape(P: Pattern, s: string, q: nat)
    requires q <= |s| && Body(P, s, q).Some?
    ensures CaptureShape(P, Body(P, s, q).value.capture)
  {
  }

  /** Every capture `matchAll` yields has the pattern's form. */
  lemma {:induction false} MatchAllShape(P: Pattern, s: string, i: nat)
    requires i <= |s|
    ensures forall c :: c in MatchAll(P, s, i) ==> CaptureShape(P, c)
    decreases |s| - i
  {
    if i < |s| {
      match MatchAt(P, s, i)
      case Some(h) =>
        MatchAtShape(P, s, i);
        MatchAllShape(P, s, h.end);
      case None => MatchAllShape(P, s, i + 1);
    }
  }

  // ---------------------------------------------------------------------
  // Word boundaries
  // ---------------------------------------------------------------------

  /** `q` is the start of the input or follows a non-word character. */
  predicate Boundary(s: string, q: nat)
    requires q <= |s|
  {
    q == 0 || !IsWord(s[q - 1])
  }


  /**
   * An anchored pattern matches only where its call token stands at a word
   * boundary: a match starting at `p` has the token at `p`, `p + 1` or
   * `p + 2` (after the non-word character and an optional `$`).
   */
  lemma MatchBoundary(P: Pattern, s: string, p: nat)
    requires Anchored(P) && p <= |s|
    ensures MatchAt(P, s, p).Some? ==>
      exists q :: p <= q <= p + 2 && q <= |s| && HasAt(s, q, Token(P)) && Boundary(s, q)
  {
    if MatchAt(P, s, p).Some? {
      if p == 0 && Head(P, s, 0).Some? {
        if Dollar(P) && 0 < |s| && s[0] == '$' && Body(P, s, 1).Some? {
          assert HasAt(s, 1, Token(P)) && Boundary(s, 1);
        } else {
          assert HasAt(s, 0, Token(P)) && Boundary(s, 0);
        }
      } else {
        if Dollar(P) && p + 1 < |s| && s[p + 1] == '$' && Body(P, s, p + 2).Some? {
          assert HasAt(s, p + 2, Token(P)) && Boundary(s, p + 2);
        } else {
          assert HasAt(s, p + 1, Token(P)) && Boundary(s, p + 1);
        }
      }
    }
  }

  /**
   * The composition pattern matches only `useI18n().rt(` and
   * `useI18n().tt(`; `useI18n().t(` is left to the plain `t` patterns.
   */
  lemma CompositionForms(s: string, p: nat)
    requires p <= |s|
    ensures MatchAt(Composition, s, p).Some? ==>
      exists q :: p <= q <= p + 1 && Boundary(s, q) && (HasAt(s, q, "useI18n().rt(") || HasAt(s, q, "useI18n().tt("))
  {
    if MatchAt(Composition, s, p).Some? {
      var q := if p == 0 && CompositionAt(s, 0).Some? then 0 else p + 1;
      assert CompositionAt(s, q).Some?;
      assert Boundary(s, q);
    }
  }

  /** No match can start at or after `i`. */
  lemma {:induction false} MatchAllNone(P: Pattern, s: string, i: nat)
    requires i <= |s|
    requires forall p :: i <= p <= |s| ==> MatchAt(P, s, p).None?
    ensures MatchAll(P, s, i) == []
    decreases |s| - i
  {
    if i < |s| {
      MatchAllNone(P, s, i + 1);
    }
  }

  /**
   * Where the call token never stands at a word boundary (as in
   * `getParent('test')` or `init('something')` for `t(`), an anchored
   * pattern yields nothing.
   */
  lemma NoBoundaryNoMatch(P: Pattern, s: string, i: nat)
    requires Anchored(P) && i <= |s|
    requires forall q :: i <= q <= |s| && HasAt(s, q, Token(P)) ==> !Boundary(s, q)
    ensures MatchAll(P, s, i) == []
  {
    forall p | i <= p <= |s| ensures MatchAt(P, s, p).None? {
      MatchBoundary(P, s, p);
    }
    MatchAllNone(P, s, i);
  }

  /** `matchAll` yields the leftmost match first and resumes where it ended. */
  lemma MatchAllFirst(P: Pattern, s: string, i: nat, j: nat)
    requires i <= j < |s|
    requires forall p :: i <= p < j ==> MatchAt(P, s, p).None?
    requires MatchAt(P, s, j).Some?
    ensures MatchAll(P, s, i) == [MatchAt(P, s, j).value.capture] + MatchAll(P, s, MatchAt(P, s, j).value.end)
  {
    MatchAllSkipRun(P, s, i, j);
    MatchAllHit(P, s, j);
  }

  /** Over a stretch where no match starts, `matchAll` yields what it yields after it. */
  lemma {:induction false} MatchAllSkipRun(P: Pattern, s: string, i: nat, j: nat)
    requires i <= j <= |s|
    requires forall p :: i <= p < j ==> MatchAt(P, s, p).None?
    ensures MatchAll(P, s, i) == MatchAll(P, s, j)
    decreases j - i
  {
    if i < j {
      assert MatchAt(P, s, i).None?;
      MatchAllSkip(P, s, i);
      MatchAllSkipRun(P, s, i + 1, j);
    }
  }

  /** Where no match starts, `matchAll` moves on by one position. */
  lemma MatchAllSkip(P: Pattern, s: string, i: nat)
    requires i < |s| && MatchAt(P, s, i).None?
    ensures MatchAll(P, s, i) == MatchAll(P, s, i + 1)
  {
  }

  /** Where a match starts, `matchAll` yields its capture and resumes at its end. */
  lemma MatchAllHit(P: Pattern, s: string, i: nat)
    requires i < |s| && MatchAt(P, s, i).Some?
    ensures MatchAll(P, s, i) == [MatchAt(P, s, i).value.capture] + MatchAll(P, s, MatchAt(P, s, i).value.end)
  {
  }

  /** Every capture `matchAll` yields is that of a match starting at or after `i`. */
  lemma {:induction false} MatchAllFrom(P: Pattern, s: string, i: nat)
    requires i <= |s|
    ensures forall c :: c in MatchAll(P, s, i) ==>
      exists p :: i <= p < |s| && MatchAt(P, s, p).Some? && MatchAt(P, s, p).value.capture == c
    decreases |s| - i
  {
    if i < |s| {
      match MatchAt(P, s, i)
      case Some(h) =>
        MatchAllFrom(P, s, h.end);
        MatchAllHit(P, s, i);
        forall c | c in MatchAll(P, s, i)
          ensures exists p :: i <= p < |s| && MatchAt(P, s, p).Some? && MatchAt(P, s, p).value.capture == c
        {
          if c != h.capture {
            assert c in MatchAll(P, s, h.end);
            var p :| h.end <= p < |s| && MatchAt(P, s, p).Some? && MatchAt(P, s, p).value.capture == c;
          }
        }
      case None =>
        MatchAllFrom(P, s, i + 1);
        MatchAllSkip(P, s, i);
    }
  }

  // ---------------------------------------------------------------------
  // Recognising well-formed calls
  // ---------------------------------------------------------------------

  /** A quoted key closed at once, `t('k')`, is recognised with the key as capture. */
  lemma TightRecognised(s: string, q: nat, o: char, k: string, c: char)
    requires IsQuote(o) && IsQuote(c) && k != [] && DelimFree(Quotes, k)
    requires HasAt(s, q, "t(" + [o] + k + [c] + ")")
    ensures TightAt(s, q) == Some(Hit(q + |k| + 5, k))
  {
    HasAtSplit(s, q, "t(" + [o] + k + [c], ")");
    HasAtSplit(s, q, "t(" + [o] + k, [c]);
    HasAtSplit(s, q, "t(" + [o], k);
    HasAtSplit(s, q, "t(", [o]);
    HasAtChar(s, q + 2, o);
    HasAtChar(s, q + 3 + |k|, c);
    HasAtChar(s, q + 4 + |k|, ')');
    RunOver(s, q + 3, k, Quotes);
    HasAtSlice(s, q + 3, k);
  }

  /** What may follow the first argument: `)` at once, or `,` and then anything up to the first `)`. */
  predicate CallClose(close: string) {
    close == ")" || (|close| >= 2 && close[0] == ',' && close[|close| - 1] == ')' && ')' !in close[1..|close| - 1])
  }

  lemma ArgsTailRecognised(s: string, i: nat, sp: string, close: string)
    requires AllSpace(sp) && CallClose(close)
    requires HasAt(s, i, sp + close)
    ensures ArgsTail(s, i) == Some(i + |sp| + |close|)
  {
    HasAtSplit(s, i, sp, close);
    var f := i + |sp|;
    assert s[f + 0] == close[0];
    SpacesOver(s, i, sp);
    if close != ")" {
      var n := f + |close| - 1;
      assert s[f + (|close| - 1)] == close[|close| - 1];
      forall m | f + 1 <= m < n ensures s[m] != ')' {
        assert s[f + (m - f)] == close[m - f];
        assert close[m - f] == close[1..|close| - 1][m - f - 1];
      }
      IndexFromFound(s, f + 1, n, ')');
    }
  }

  /**
   * `\s*Q k Q` followed by a well-formed close: only the first argument is
   * captured, and the match ends at the close's `)`.
   */
  lemma LooseArgsRecognised(s: string, i: nat, d: Delims, sp1: string, o: char, k: string, c: char, sp2: string, close: string)
    requires AllSpace(sp1) && AllSpace(sp2) && CallClose(close)
    requires IsDelim(d, o) && IsDelim(d, c) && k != [] && DelimFree(d, k)
    requires HasAt(s, i, sp1 + [o] + k + [c] + (sp2 + close))
    ensures LooseArgs(s, i, d) == Some(Hit(i + |sp1| + |k| + |sp2| + |close| + 2, k))
  {
    HasAtSplit(s, i, sp1 + [o] + k + [c], sp2 + close);
    QuotedRecognised(s, i, d, sp1, o, k, c);
    ArgsTailRecognised(s, i + |sp1| + |k| + 2, sp2, close);
  }

  /** `\s*Q k Q` at `i`: the spaces are skipped and the run ends at the closing delimiter. */
  lemma QuotedRecognised(s: string, i: nat, d: Delims, sp1: string, o: char, k: string, c: char)
    requires AllSpace(sp1)
    requires IsDelim(d, o) && IsDelim(d, c) && DelimFree(d, k)
    requires HasAt(s, i, sp1 + [o] + k + [c])
    ensures SkipSpace(s, i) == i + |sp1|
    ensures RunEnd(s, i + |sp1| + 1, d) == i + |sp1| + 1 + |k|
    ensures s[i + |sp1|] == o && s[i + |sp1| + 1..i + |sp1| + 1 + |k|] == k
  {
    HasAtSplit(s, i, sp1 + [o] + k, [c]);
    HasAtSplit(s, i, sp1 + [o], k);
    QuotedSpaces(s, i, d, sp1, o);
    QuotedRun(s, i + |sp1| + 1, d, k, c);
  }

  lemma QuotedSpaces(s: string, i: nat, d: Delims, sp1: string, o: char)
    requires AllSpace(sp1) && IsDelim(d, o)
    requires HasAt(s, i, sp1 + [o])
    ensures SkipSpace(s, i) == i + |sp1| && s[i + |sp1|] == o
  {
    HasAtSplit(s, i, sp1, [o]);
    HasAtChar(s, i + |sp1|, o);
    SpacesOver(s, i, sp1);
  }

  lemma QuotedRun(s: string, i: nat, d: Delims, k: string, c: char)
    requires IsDelim(d, c) && DelimFree(d, k)
    requires HasAt(s, i, k) && HasAt(s, i + |k|, [c])
    ensures RunEnd(s, i, d) == i + |k| && s[i..i + |k|] == k
  {
    HasAtChar(s, i + |k|, c);
    RunOver(s, i, k, d);
    HasAtSlice(s, i, k);
  }

  lemma HasAtSlice(s: string, i: nat, k: string)
    requires HasAt(s, i, k)
    ensures s[i..i + |k|] == k
  {
    forall m | 0 <= m < |k| ensures s[i..i + |k|][m] == k[m] {
      assert s[i + m] == k[m];
    }
  }

  /** `NAME(`, then a well-formed first argument and close, is recognised by `Loose(NAME, d)`. */
  lemma LooseRecognised(s: string, q: nat, name: string, d: Delims,
                        sp1: string, o: char, k: string, c: char, sp2: string, close: string)
    requires AllSpace(sp1) && AllSpace(sp2) && CallClose(close)
    requires IsDelim(d, o) && IsDelim(d, c) && k != [] && DelimFree(d, k)
    requires HasAt(s, q, name + "(" + (sp1 + [o] + k + [c] + (sp2 + close)))
    ensures LooseAt(s, q, name, d) == Some(Hit(q + |name| + |sp1| + |k| + |sp2| + |close| + 3, k))
  {
    HasAtSplit(s, q, name + "(", sp1 + [o] + k + [c] + (sp2 + close));
    LooseArgsRecognised(s, q + |name| + 1, d, sp1, o, k, c, sp2, close);
  }

  /** `useI18n().rt(` or `useI18n().tt(`, then a well-formed first argument and close. */
  lemma CompositionRecognised(s: string, q: nat, m: char,
                              sp1: string, o: char, k: string, c: char, sp2: string, close: string)
    requires m == 'r' || m == 't'
    requires AllSpace(sp1) && AllSpace(sp2) && CallClose(close)
    requires IsDelim(AllQuotes, o) && IsDelim(AllQuotes, c) && k != [] && DelimFree(AllQuotes, k)
    requires HasAt(s, q, "useI18n()." + [m] + "t(" + (sp1 + [o] + k + [c] + (sp2 + close)))
    ensures CompositionAt(s, q) == Some(Hit(q + |sp1| + |k| + |sp2| + |close| + 15, k))
  {
    HasAtSplit(s, q, "useI18n()." + [m] + "t(", sp1 + [o] + k + [c] + (sp2 + close));
    HasAtSplit(s, q, "useI18n()." + [m], "t(");
    HasAtSplit(s, q, "useI18n().", [m]);
    HasAtChar(s, q + 10, m);
    LooseArgsRecognised(s, q + 13, AllQuotes, sp1, o, k, c, sp2, close);
  }

  /** `$t`, optional spaces, `:`, optional spaces and a quoted key, with no anchor before it. */
  lemma ShorthandRecognised(s: string, q: nat, sp1: string, sp2: string, o: char, k: string, c: char)
    requires AllSpace(sp1) && AllSpace(sp2)
    requires IsDelim(AllQuotes, o) && IsDelim(AllQuotes, c) && k != [] && DelimFree(AllQuotes, k)
    requires HasAt(s, q, "$t" + sp1 + ":" + (sp2 + [o] + k + [c]))
    ensures ShorthandAt(s, q) == Some(Hit(q + |sp1| + |sp2| + |k| + 5, k))
  {
    HasAtSplit(s, q, "$t" + sp1 + ":", sp2 + [o] + k + [c]);
    HasAtSplit(s, q, "$t" + sp1, ":");
    HasAtSplit(s, q, "$t", sp1);
    var cq := q + 2 + |sp1|;
    HasAtChar(s, cq, ':');
    SpacesOver(s, q + 2, sp1);
    QuotedRecognised(s, cq + 1, AllQuotes, sp2, o, k, c);
  }

  /**
   * `t('base[...]')` where the text after the base is a chain of one or more
   * `['x']` segments whose first name does not start with `)`: the base run
   * first swallows the `[`, finds no closing quote and `)` after it, and is
   * cut back by one; the segments are then all taken, and the capture is
   * the base with the whole chain.
   */
  lemma BracketRecognised(s: string, q: nat, o: char, base: string, chain: string, c: char)
    requires IsQuote(o) && IsQuote(c) && base != [] && DelimFree(Quotes, base)
    requires chain != [] && Chain(chain) && BracketSegmentAt(chain, 0).value.1[0] != ')'
    requires HasAt(s, q, "t(" + [o] + base + chain + ([c] + ")"))
    ensures BracketAt(s, q) == Some(Hit(q + |base| + |chain| + 5, base + chain))
  {
    var b := q + 4 + |base|;
    var e := b - 1 + |chain|;
    BracketLayout(s, q, o, base, chain, c, b, e);
    BracketChainFinish(s, q, b, e, chain);
    assert e + 2 == q + |base| + |chain| + 5;
    assert Hit(e + 2, s[q + 3..e]) == Hit(q + |base| + |chain| + 5, base + chain);
  }

  /**
   * The base run ends at the quote `b`, which begins no close; cut back by
   * one, its segments reach the close at `e`.
   */
  lemma BracketFinish(s: string, q: nat, b: nat, e: nat)
    requires b + 1 < e + 1 < |s| && q + 4 < b
    requires HasAt(s, q, "t(") && IsQuote(s[q + 2]) && RunEnd(s, q + 3, Quotes) == b
    requires IsQuote(s[b]) && s[b + 1] != ')'
    requires SegmentsEnd(s, b - 1) == e && IsQuote(s[e]) && s[e + 1] == ')'
    ensures BracketAt(s, q) == Some(Hit(e + 2, s[q + 3..e]))
  {
    assert SegmentsEnd(s, b) == b;
    assert BracketFrom(s, q + 2, b) == BracketFrom(s, q + 2, b - 1);
    assert BracketFrom(s, q + 2, b - 1) == Some(Hit(e + 2, s[q + 3..e]));
  }

  /** A base run ending at `b` and a chain from `b - 1` to the close at `e` make the match. */
  lemma BracketChainFinish(s: string, q: nat, b: nat, e: nat, chain: string)
    requires b + 1 < e + 1 < |s| && q + 4 < b
    requires HasAt(s, q, "t(") && IsQuote(s[q + 2]) && RunEnd(s, q + 3, Quotes) == b
    requires IsQuote(s[b]) && s[b + 1] != ')'
    requires Chain(chain) && HasAt(s, b - 1, chain) && e == b - 1 + |chain|
    requires IsQuote(s[e]) && s[e + 1] == ')'
    ensures BracketAt(s, q) == Some(Hit(e + 2, s[q + 3..e]))
  {
    ChainEndsAt(s, b - 1, chain, e);
    BracketFinish(s, q, b, e);
  }

  /** Where the base run, the chain and the close of `t('base[...]')` stand. */
  lemma BracketLayout(s: string, q: nat, o: char, base: string, chain: string, c: char, b: nat, e: nat)
    requires IsQuote(o) && IsQuote(c) && base != [] && DelimFree(Quotes, base)
    requires chain != [] && Chain(chain) && BracketSegmentAt(chain, 0).value.1[0] != ')'
    requires HasAt(s, q, "t(" + [o] + base + chain + ([c] + ")"))
    requires b == q + 4 + |base| && e == b - 1 + |chain|
    ensures b + 1 < e + 1 < |s|
    ensures HasAt(s, q, "t(") && IsQuote(s[q + 2]) && RunEnd(s, q + 3, Quotes) == b
    ensures IsQuote(s[b]) && s[b + 1] != ')'
    ensures HasAt(s, b - 1, chain) && IsQuote(s[e]) && s[e + 1] == ')'
    ensures s[q + 3..e] == base + chain
  {
    BracketPieces(s, q, o, base, chain, c);
    BracketClose(s, e, c);
    HasAtChar(s, q + 2, o);
    BaseRunEnd(s, q, base, chain, b);
    HasAtJoin(s, q + 3, base, chain);
    HasAtSlice(s, q + 3, base + chain);
  }

  /** The literal `t('base[...]')` cut into the places of its pieces. */
  lemma BracketPieces(s: string, q: nat, o: char, base: string, chain: string, c: char)
    requires HasAt(s, q, "t(" + [o] + base + chain + ([c] + ")"))
    ensures HasAt(s, q, "t(") && HasAt(s, q + 2, [o]) && HasAt(s, q + 3, base)
    ensures HasAt(s, q + 3 + |base|, chain) && HasAt(s, q + 3 + |base| + |chain|, [c] + ")")
  {
    HasAtSplit(s, q, "t(" + [o] + base + chain, [c] + ")");
    HasAtSplit(s, q, "t(" + [o] + base, chain);
    HasAtSplit(s, q, "t(" + [o], base);
    HasAtSplit(s, q, "t(", [o]);
  }

  /**
   * The quote-free base followed by a chain runs up to the chain's first
   * quote, at `b`, which a `)` does not follow.
   */
  lemma BaseRunEnd(s: string, q: nat, base: string, chain: string, b: nat)
    requires DelimFree(Quotes, base) && HasAt(s, q + 3, base)
    requires chain != [] && Chain(chain) && BracketSegmentAt(chain, 0).value.1[0] != ')'
    requires b == q + 4 + |base| && HasAt(s, b - 1, chain)
    ensures b + 1 < |s| && RunEnd(s, q + 3, Quotes) == b && IsQuote(s[b]) && s[b + 1] != ')'
  {
    BracketSegmentShape(chain, 0);
    assert s[b - 1 + 0] == chain[0] && s[b - 1 + 1] == chain[1] && s[b - 1 + 2] == chain[2];
    assert BracketSegmentAt(chain, 0).value.1[0] == chain[2];
    forall m | q + 3 <= m < b - 1 ensures !IsQuote(s[m]) {
      assert s[q + 3 + (m - q - 3)] == base[m - q - 3];
    }
    RunEndFrom(s, q + 3, b, Quotes);
  }

  /** A segment literal at `p` is recognised there as it is at the literal's start. */
  lemma SegmentTransfer(s: string, p: nat, x: string)
    requires HasAt(s, p, x) && BracketSegmentAt(x, 0).Some?
    ensures BracketSegmentAt(s, p) == Some((p + BracketSegmentAt(x, 0).value.0, BracketSegmentAt(x, 0).value.1))
  {
    var j := BracketSegmentAt(x, 0).value.0;
    var n := BracketSegmentAt(x, 0).value.1;
    BracketSegmentShape(x, 0);
    RunEndFree(x, 2, Quotes);
    assert s[p + 0] == x[0] && s[p + 1] == x[1];
    forall m | p + 2 <= m < p + j - 2 ensures !IsQuote(s[m]) {
      assert s[p + (m - p)] == x[m - p];
    }
    assert s[p + (j - 2)] == x[j - 2] && s[p + (j - 1)] == x[j - 1];
    RunEndFrom(s, p + 2, p + j - 2, Quotes);
    forall m | 0 <= m < |n| ensures s[p + 2..p + j - 2][m] == n[m] {
      assert s[p + (2 + m)] == x[2 + m];
    }
    assert s[p + 2..p + j - 2] == n;
  }

  /** The segments loop from `p` over a chain literal stops at `e`, where the literal ends. */
  lemma ChainEndsAt(s: string, p: nat, x: string, e: nat)
    requires Chain(x) && HasAt(s, p, x) && e == p + |x|
    requires e < |s| && s[e] != '['
    ensures SegmentsEnd(s, p) == e
  {
    ChainSegmentsEnd(s, p, x);
  }

  /** A chain literal at `p` that no `[` follows is taken whole by the segments loop. */
  lemma {:induction false} ChainSegmentsEnd(s: string, p: nat, x: string)
    requires Chain(x) && HasAt(s, p, x)
    requires p + |x| < |s| && s[p + |x|] != '['
    ensures SegmentsEnd(s, p) == p + |x|
    decreases |x|
  {
    if x != [] {
      var j := BracketSegmentAt(x, 0).value.0;
      SegmentTransfer(s, p, x);
      assert x == x[..j] + x[j..];
      HasAtSplit(s, p, x[..j], x[j..]);
      ChainSegmentsEnd(s, p + j, x[j..]);
    }
  }

  /** A closing quote and `)` at `e`: no segment starts there. */
  lemma BracketClose(s: string, e: nat, c: char)
    requires IsQuote(c) && HasAt(s, e, [c] + ")")
    ensures e + 1 < |s| && IsQuote(s[e]) && s[e + 1] == ')' && BracketSegmentAt(s, e).None?
  {
    HasAtSplit(s, e, [c], ")");
    HasAtChar(s, e, c);
    HasAtChar(s, e + 1, ')');
  }

  /** `["seg"]` at `i` is one bracket segment. */
  lemma BracketSegment(s: string, i: nat, o1: char, seg: string, c1: char)
    requires IsQuote(o1) && IsQuote(c1) && seg != [] && DelimFree(Quotes, seg)
    requires i < |s| && s[i] == '['
    requires HasAt(s, i + 1, [o1] + seg + [c1] + "]")
    ensures BracketSegmentAt(s, i) == Some((i + |seg| + 4, seg))
  {
    HasAtSplit(s, i + 1, [o1] + seg + [c1], "]");
    HasAtSplit(s, i + 1, [o1] + seg, [c1]);
    HasAtSplit(s, i + 1, [o1], seg);
    HasAtChar(s, i + 1, o1);
    HasAtChar(s, i + 2 + |seg|, c1);
    HasAtChar(s, i + 3 + |seg|, ']');
    RunOver(s, i + 2, seg, Quotes);
    HasAtSlice(s, i + 2, seg);
  }

  /**
   * `const NAME = [BODY]` with a body holding no `]`: the capture is the
   * whole body, and the match ends after its `]`.
   */
  lemma ConstArrayRecognised(s: string, q: nat, sp1: string, name: string, sp2: string, sp3: string, body: string)
    requires sp1 != [] && AllSpace(sp1) && name != [] && AllWord(name) && AllSpace(sp2) && AllSpace(sp3)
    requires ']' !in body
    requires HasAt(s, q, "const" + (sp1 + name) + (sp2 + "=" + sp3) + ("[" + body + "]"))
    ensures ConstArrayAt(s, q) == Some(Hit(q + |sp1| + |name| + |sp2| + |sp3| + |body| + 8, body))
  {
    var n := q + 5 + |sp1| + |name|;
    var o := n + |sp2| + 1 + |sp3|;
    HasAtSplit(s, q, "const" + (sp1 + name) + (sp2 + "=" + sp3), "[" + body + "]");
    HasAtSplit(s, q, "const" + (sp1 + name), sp2 + "=" + sp3);
    HasAtSplit(s, q, "const", sp1 + name);
    ArrayBodyRecognised(s, o, body);
    ArrayInitRecognised(s, n, sp2, sp3);
    ConstDeclRecognised(s, q + 5, sp1, name, sp2, sp3);
    assert ConstArrayAt(s, q) == ConstDecl(s, q + 5);
  }

  /** `[BODY]` at `o` with no `]` in the body. */
  lemma ArrayBodyRecognised(s: string, o: nat, body: string)
    requires ']' !in body && HasAt(s, o, "[" + body + "]")
    ensures ArrayBody(s, o) == Some(Hit(o + |body| + 2, body))
  {
    HasAtSplit(s, o, "[" + body, "]");
    HasAtSplit(s, o, "[", body);
    HasAtChar(s, o, '[');
    HasAtChar(s, o + 1 + |body|, ']');
    forall m | o + 1 <= m < o + 1 + |body| ensures s[m] != ']' {
      assert s[o + 1 + (m - o - 1)] == body[m - o - 1];
    }
    IndexFromFound(s, o + 1, o + 1 + |body|, ']');
    HasAtSlice(s, o + 1, body);
  }

  /** Spaces, `=` and spaces at `n`, followed by the `[` at `o`. */
  lemma ArrayInitRecognised(s: string, n: nat, sp2: string, sp3: string)
    requires AllSpace(sp2) && AllSpace(sp3)
    requires HasAt(s, n, sp2 + "=" + sp3) && n + |sp2| + 1 + |sp3| < |s| && s[n + |sp2| + 1 + |sp3|] == '['
    ensures ArrayInit(s, n) == ArrayBody(s, n + |sp2| + 1 + |sp3|)
  {
    HasAtSplit(s, n, sp2 + "=", sp3);
    HasAtSplit(s, n, sp2, "=");
    HasAtChar(s, n + |sp2|, '=');
    SpacesOver(s, n, sp2);
    SpacesOver(s, n + |sp2| + 1, sp3);
  }

  /** The spaces after `const` and the name, followed by something that is not a word character. */
  lemma ConstDeclRecognised(s: string, i: nat, sp1: string, name: string, sp2: string, sp3: string)
    requires sp1 != [] && AllSpace(sp1) && name != [] && AllWord(name) && AllSpace(sp2)
    requires HasAt(s, i, sp1 + name) && HasAt(s, i + |sp1| + |name|, sp2 + "=" + sp3)
    ensures ConstDecl(s, i) == ArrayInit(s, i + |sp1| + |name|)
  {
    HasAtSplit(s, i, sp1, name);
    ConstNameSpaces(s, i, sp1, name);
    ConstNameWord(s, i + |sp1|, name, sp2, sp3);
  }

  lemma ConstNameSpaces(s: string, i: nat, sp1: string, name: string)
    requires AllSpace(sp1) && name != [] && AllWord(name)
    requires HasAt(s, i, sp1) && HasAt(s, i + |sp1|, name)
    ensures SkipSpace(s, i) == i + |sp1|
  {
    assert s[i + |sp1| + 0] == name[0];
    SpacesOver(s, i, sp1);
  }

  lemma ConstNameWord(s: string, i: nat, name: string, sp2: string, sp3: string)
    requires AllWord(name) && AllSpace(sp2)
    requires HasAt(s, i, name) && HasAt(s, i + |name|, sp2 + "=" + sp3)
    ensures WordEnd(s, i) == i + |name|
  {
    assert s[i + |name| + 0] == (sp2 + "=" + sp3)[0];
    assert !IsWord((sp2 + "=" + sp3)[0]) by {
      if sp2 != [] {
        assert (sp2 + "=" + sp3)[0] == sp2[0] && IsSpace(sp2[0]);
      }
    }
    WordOver(s, i, name);
  }

  /**
   * After a non-word character (or at the start of the input), a recognised
   * body is a match of the whole pattern. The `$` alternative gives the same
   * match, since every call token starts with a word character.
   */
  lemma MatchAfterBoundary(P: Pattern, s: string, p: nat)
    requires Anchored(P) && IsWord(Token(P)[0])
    requires p < |s| && !IsWord(s[p]) && Body(P, s, p + 1).Some?
    ensures MatchAt(P, s, p) == Body(P, s, p + 1)
  {
    TokenStart(P, s, p + 1);
    assert Head(P, s, p + 1) == Body(P, s, p + 1);
    if p == 0 {
      TokenStart(P, s, 0);
      assert Body(P, s, 0).None?;
    }
  }

  lemma MatchAtStart(P: Pattern, s: string)
    requires Anchored(P) && IsWord(Token(P)[0])
    requires Body(P, s, 0).Some?
    ensures MatchAt(P, s, 0) == Body(P, s, 0)
  {
    TokenStart(P, s, 0);
  }

  /** A body can match only where the token's first character stands. */
  lemma TokenStart(P: Pattern, s: string, q: nat)
    requires Anchored(P) && q <= |s|
    ensures Body(P, s, q).Some? ==> q < |s| && s[q] == Token(P)[0]
  {
    if Body(P, s, q).Some? {
      assert s[q..q + |Token(P)|][0] == s[q];
    }
  }

  /** The call tokens of the anchored patterns in `translationPatterns` start with a word character. */
  lemma TokensStartWithWord(P: Pattern)
    requires P in TranslationPatterns && Anchored(P)
    ensures IsWord(Token(P)[0])
  {
  }

  /** Every match of the basic pattern is also a match of the bracket pattern, with the same capture. */
  lemma TightIsBracket(s: string, p: nat)
    requires p <= |s|
    ensures MatchAt(Tight, s, p).Some? ==> MatchAt(Bracket, s, p) == MatchAt(Tight, s, p)
  {
    TightBracketHead(s, 0);
    if p < |s| {
      TightBracketHead(s, p + 1);
    }
    if 0 < |s| {
      TightBracketHead(s, 1);
    }
  }

  /** The same after the anchor, where both patterns may first take a `$`. */
  lemma TightBracketHead(s: string, q: nat)
    requires q <= |s|
    ensures Head(Tight, s, q).Some? ==> Head(Bracket, s, q) == Head(Tight, s, q)
    ensures Head(Bracket, s, q).Some? ==> q < |s| && (s[q] == 't' || s[q] == '$')
    ensures Head(Tight, s, q).Some? ==> q < |s| && (s[q] == 't' || s[q] == '$')
    ensures q < |s| && s[q] == '$' && Body(Tight, s, q + 1).Some? ==> Head(Tight, s, q).Some?
  {
    TightBracketBody(s, q);
    if q < |s| {
      TightBracketBody(s, q + 1);
    }
  }

  /** With no bracket segment the bracket pattern's base run is the basic pattern's key. */
  lemma TightBracketBody(s: string, q: nat)
    requires q <= |s|
    ensures TightAt(s, q).Some? ==> BracketAt(s, q) == TightAt(s, q)
    ensures BracketAt(s, q).Some? ==> q < |s| && s[q] == 't'
    ensures TightAt(s, q).Some? ==> q < |s| && s[q] == 't'
  {
    if TightAt(s, q).Some? {
      var e := RunEnd(s, q + 3, Quotes);
      assert BracketSegmentAt(s, e).None?;
      assert SegmentsEnd(s, e) == e;
    }
    if BracketAt(s, q).Some? {
      assert s[q + 0] == "t("[0];
    }
  }

  // ---------------------------------------------------------------------
  // What a match stands on
  // ---------------------------------------------------------------------

  /** A tail that closes the call is spaces and a well-formed close, right where it was tried. */
  lemma ArgsTailSound(s: string, i: nat)
    requires i <= |s| && ArgsTail(s, i).Some?
    ensures exists sp, close :: (AllSpace(sp) && CallClose(close) && HasAt(s, i, sp + close)
      && ArgsTail(s, i).value == i + |sp| + |close|)
  {
    var f := SkipSpace(s, i);
    var end := ArgsTail(s, i).value;
    SkipSpaceAll(s, i);
    var sp := s[i..f];
    var close := s[f..end];
    if s[f] == ',' && IndexFrom(s, f + 1, ')').Some? {
      IndexFromFirst(s, f + 1, ')');
      CommaCloseSound(s, f, end - 1);
    } else {
      assert close == [s[f]];
    }
    HasAtSlices(s, i, f);
    HasAtSlices(s, f, end);
    HasAtJoin(s, i, sp, close);
    assert AllSpace(sp) && CallClose(close);
  }

  /** A comma, text without `)`, and the `)` at `e` form a well-formed close. */
  lemma CommaCloseSound(s: string, f: nat, e: nat)
    requires f < e < |s| && s[f] == ',' && s[e] == ')'
    requires forall k :: f + 1 <= k < e ==> s[k] != ')'
    ensures CallClose(s[f..e + 1])
  {
    var close := s[f..e + 1];
    var inner := close[1..|close| - 1];
    forall m | 0 <= m < |inner| ensures inner[m] != ')' {
      assert inner[m] == s[f + 1 + m];
    }
  }

  /** Spaces, an opening delimiter at `q`, the run after it and the closing delimiter at `e`. */
  lemma QuotedSound(s: string, i: nat, q: nat, e: nat)
    requires i <= q < e < |s|
    ensures HasAt(s, i, s[i..q] + [s[q]] + s[q + 1..e] + [s[e]])
  {
    HasAtSlices(s, i, q);
    HasAtSlices(s, q + 1, e);
    assert HasAt(s, q, [s[q]]);
    assert HasAt(s, e, [s[e]]);
    HasAtJoin(s, i, s[i..q], [s[q]]);
    HasAtJoin(s, i, s[i..q] + [s[q]], s[q + 1..e]);
    HasAtJoin(s, i, s[i..q] + [s[q]] + s[q + 1..e], [s[e]]);
  }

  /**
   * `s` holds at `q` the call head `head`, then spaces, the first argument
   * `k` between delimiters of class `d`, spaces and a well-formed close.
   */
  predicate CallAt(s: string, q: nat, head: string, d: Delims,
                   sp1: string, o: char, k: string, c: char, sp2: string, close: string) {
    && AllSpace(sp1) && AllSpace(sp2) && CallClose(close) && IsDelim(d, o) && IsDelim(d, c)
    && HasAt(s, q, head + (sp1 + [o] + k + [c] + (sp2 + close)))
  }

  /**
   * Loose arguments are found only where spaces, a delimited first
   * argument, spaces and a well-formed close stand, and the match ends at the
   * close's `)`: the converse of `LooseArgsRecognised`.
   */
  lemma LooseArgsSound(s: string, i: nat, d: Delims)
    requires i <= |s| && LooseArgs(s, i, d).Some?
    ensures var h := LooseArgs(s, i, d).value;
      exists sp1, o, c, sp2, close ::
        CallAt(s, i, "", d, sp1, o, h.capture, c, sp2, close)
        && h.end == i + |sp1| + |h.capture| + |sp2| + |close| + 2
  {
    var h := LooseArgs(s, i, d).value;
    var q := SkipSpace(s, i);
    var e := RunEnd(s, q + 1, d);
    assert h.capture == s[q + 1..e];
    SkipSpaceAll(s, i);
    ArgsTailSound(s, e + 1);
    var sp2, close :| AllSpace(sp2) && CallClose(close) && HasAt(s, e + 1, sp2 + close)
      && ArgsTail(s, e + 1).value == e + 1 + |sp2| + |close|;
    QuotedSound(s, i, q, e);
    ArgsAssemble(s, i, d, s[i..q], s[q], h.capture, s[e], sp2, close);
  }

  /** A delimited argument after spaces, followed by spaces and a close, is a call's arguments. */
  lemma ArgsAssemble(s: string, i: nat, d: Delims,
                     sp1: string, o: char, k: string, c: char, sp2: string, close: string)
    requires AllSpace(sp1) && IsDelim(d, o) && IsDelim(d, c) && HasAt(s, i, sp1 + [o] + k + [c])
    requires AllSpace(sp2) && CallClose(close) && HasAt(s, i + |sp1| + |k| + 2, sp2 + close)
    ensures CallAt(s, i, "", d, sp1, o, k, c, sp2, close)
  {
    var w := sp1 + [o] + k + [c];
    HasAtJoin(s, i, w, sp2 + close);
    assert "" + (w + (sp2 + close)) == w + (sp2 + close);
  }

  /** The converse of `LooseRecognised`: a loose match is `NAME(` and well-formed arguments. */
  lemma LooseSound(s: string, q: nat, name: string, d: Delims)
    requires q <= |s| && LooseAt(s, q, name, d).Some?
    ensures var h := LooseAt(s, q, name, d).value;
      exists sp1, o, c, sp2, close ::
        CallAt(s, q, name + "(", d, sp1, o, h.capture, c, sp2, close)
        && h.end == q + |name| + |sp1| + |h.capture| + |sp2| + |close| + 3
  {
    var h := LooseAt(s, q, name, d).value;
    var i := q + |name| + 1;
    LooseArgsSound(s, i, d);
    var sp1, o, c, sp2, close :| CallAt(s, i, "", d, sp1, o, h.capture, c, sp2, close)
      && h.end == i + |sp1| + |h.capture| + |sp2| + |close| + 2;
    ArgsMove(s, q, name + "(", d, sp1, o, h.capture, c, sp2, close);
  }

  /** Arguments standing right after a call head make the whole call. */
  lemma ArgsMove(s: string, q: nat, head: string, d: Delims,
                 sp1: string, o: char, k: string, c: char, sp2: string, close: string)
    requires HasAt(s, q, head) && CallAt(s, q + |head|, "", d, sp1, o, k, c, sp2, close)
    ensures CallAt(s, q, head, d, sp1, o, k, c, sp2, close)
  {
    var w := sp1 + [o] + k + [c] + (sp2 + close);
    assert "" + w == w;
    HasAtJoin(s, q, head, w);
  }

  /** The converse of `TightRecognised`: a basic match is `t(`, a quote, the key, a quote and `)`. */
  lemma TightSound(s: string, q: nat)
    requires q <= |s| && TightAt(s, q).Some?
    ensures var h := TightAt(s, q).value;
      exists o, c :: (IsQuote(o) && IsQuote(c) && HasAt(s, q, "t(" + [o] + h.capture + [c] + ")")
        && h.end == q + |h.capture| + 5)
  {
    var h := TightAt(s, q).value;
    var e := RunEnd(s, q + 3, Quotes);
    QuotedSound(s, q + 2, q + 2, e);
    assert s[q + 2..q + 2] == [];
    assert [] + [s[q + 2]] + h.capture + [s[e]] == [s[q + 2]] + h.capture + [s[e]];
    assert HasAt(s, e + 1, ")");
    HasAtJoin(s, q, "t(", [s[q + 2]] + h.capture + [s[e]]);
    HasAtJoin(s, q, "t(" + ([s[q + 2]] + h.capture + [s[e]]), ")");
    assert "t(" + ([s[q + 2]] + h.capture + [s[e]]) + ")" == "t(" + [s[q + 2]] + h.capture + [s[e]] + ")";
    assert IsQuote(s[q + 2]) && IsQuote(s[e]);
  }

  /**
   * The converse of `CompositionRecognised`: a composition match is
   * `useI18n().rt(` or `useI18n().tt(` and well-formed arguments.
   */
  lemma CompositionSound(s: string, q: nat)
    requires q <= |s| && CompositionAt(s, q).Some?
    ensures var h := CompositionAt(s, q).value;
      exists m, sp1, o, c, sp2, close ::
        (m == 'r' || m == 't')
        && CallAt(s, q, "useI18n()." + [m] + "t(", AllQuotes, sp1, o, h.capture, c, sp2, close)
        && h.end == q + |sp1| + |h.capture| + |sp2| + |close| + 15
  {
    var h := CompositionAt(s, q).value;
    var m := s[q + 10];
    assert HasAt(s, q + 10, [m]);
    HasAtJoin(s, q, "useI18n().", [m]);
    HasAtJoin(s, q, "useI18n()." + [m], "t(");
    var head := "useI18n()." + [m] + "t(";
    LooseArgsSound(s, q + 13, AllQuotes);
    var sp1, o, c, sp2, close :| CallAt(s, q + 13, "", AllQuotes, sp1, o, h.capture, c, sp2, close)
      && h.end == q + 13 + |sp1| + |h.capture| + |sp2| + |close| + 2;
    ArgsMove(s, q, head, AllQuotes, sp1, o, h.capture, c, sp2, close);
    assert m == 'r' || m == 't';
  }

  /** `s` holds at `q` the shorthand `$t`, spaces, `:`, spaces and the key `k` between delimiters. */
  predicate ShorthandForm(s: string, q: nat, sp1: string, sp2: string, o: char, k: string, c: char) {
    && AllSpace(sp1) && AllSpace(sp2) && IsDelim(AllQuotes, o) && IsDelim(AllQuotes, c)
    && HasAt(s, q, "$t" + sp1 + ":" + (sp2 + [o] + k + [c]))
  }

  /**
   * The converse of `ShorthandRecognised`: a shorthand match is `$t`,
   * spaces, `:`, spaces and a delimited key.
   */
  lemma ShorthandSound(s: string, q: nat)
    requires q <= |s| && ShorthandAt(s, q).Some?
    ensures var h := ShorthandAt(s, q).value;
      exists sp1, sp2, o, c ::
        ShorthandForm(s, q, sp1, sp2, o, h.capture, c) && h.end == q + |sp1| + |sp2| + |h.capture| + 5
  {
    var h := ShorthandAt(s, q).value;
    var colon := SkipSpace(s, q + 2);
    var o := SkipSpace(s, colon + 1);
    var e := RunEnd(s, o + 1, AllQuotes);
    assert h.capture == s[o + 1..e];
    SkipSpaceAll(s, q + 2);
    SkipSpaceAll(s, colon + 1);
    var sp1 := s[q + 2..colon];
    var sp2 := s[colon + 1..o];
    QuotedSound(s, colon + 1, o, e);
    HasAtSlices(s, q + 2, colon);
    assert HasAt(s, colon, ":");
    HasAtJoin(s, q, "$t", sp1);
    HasAtJoin(s, q, "$t" + sp1, ":");
    HasAtJoin(s, q, "$t" + sp1 + ":", sp2 + [s[o]] + h.capture + [s[e]]);
    assert ShorthandForm(s, q, sp1, sp2, s[o], h.capture, s[e]);
  }

  /**
   * The converse of `BracketRecognised`: a bracket match is `t(`, a quote,
   * a capture of the bracket form, a quote and `)`.
   */
  lemma BracketSound(s: string, q: nat)
    requires q <= |s| && BracketAt(s, q).Some?
    ensures var h := BracketAt(s, q).value;
      && BracketShape(h.capture)
      && exists o, c :: (IsQuote(o) && IsQuote(c) && HasAt(s, q, "t(" + [o] + h.capture + [c] + ")")
        && h.end == q + |h.capture| + 5)
  {
    var h := BracketAt(s, q).value;
    var e := h.end - 2;
    QuotedSound(s, q + 2, q + 2, e);
    assert s[q + 2..q + 2] == [];
    assert [] + [s[q + 2]] + h.capture + [s[e]] == [s[q + 2]] + h.capture + [s[e]];
    assert HasAt(s, e + 1, ")");
    HasAtJoin(s, q, "t(", [s[q + 2]] + h.capture + [s[e]]);
    HasAtJoin(s, q, "t(" + ([s[q + 2]] + h.capture + [s[e]]), ")");
    assert "t(" + ([s[q + 2]] + h.capture + [s[e]]) + ")" == "t(" + [s[q + 2]] + h.capture + [s[e]] + ")";
    assert IsQuote(s[q + 2]) && IsQuote(s[e]);
  }

  /** A string literal match is a quote, the capture and a quote. */
  lemma StringLiteralSound(s: string, q: nat)
    requires q <= |s| && StringLiteralAt(s, q).Some?
    ensures var h := StringLiteralAt(s, q).value;
      exists o, c :: IsQuote(o) && IsQuote(c) && HasAt(s, q, [o] + h.capture + [c]) && h.end == q + |h.capture| + 2
  {
    var h := StringLiteralAt(s, q).value;
    var e := RunEnd(s, q + 1, Quotes);
    QuotedSound(s, q, q, e);
    assert s[q..q] == [];
    assert [] + [s[q]] + h.capture + [s[e]] == [s[q]] + h.capture + [s[e]];
    assert IsQuote(s[q]) && IsQuote(s[e]);
  }

  /** `s` holds at `q` the declaration `const`, spaces, a name, `=` between spaces and `[body]`. */
  predicate ConstForm(s: string, q: nat, sp1: string, name: string, sp2: string, sp3: string, body: string) {
    && sp1 != [] && AllSpace(sp1) && name != [] && AllWord(name) && AllSpace(sp2) && AllSpace(sp3)
    && HasAt(s, q, "const" + (sp1 + name) + (sp2 + "=" + sp3) + ("[" + body + "]"))
  }

  /**
   * The converse of `ConstArrayRecognised`: an array match is `const`,
   * spaces, a name, `=` between spaces, and the body up to the first `]`.
   */
  lemma ConstArraySound(s: string, q: nat)
    requires q <= |s| && ConstArrayAt(s, q).Some?
    ensures var h := ConstArrayAt(s, q).value;
      exists sp1, name, sp2, sp3 ::
        ConstForm(s, q, sp1, name, sp2, sp3, h.capture)
        && h.end == q + |sp1| + |name| + |sp2| + |sp3| + |h.capture| + 8
  {
    var h := ConstArrayAt(s, q).value;
    var w := SkipSpace(s, q + 5);
    var n := WordEnd(s, w);
    var eq := SkipSpace(s, n);
    var o := SkipSpace(s, eq + 1);
    var cl := h.end - 1;
    assert h.capture == s[o + 1..cl];
    SkipSpaceAll(s, q + 5);
    WordEndAll(s, w);
    SkipSpaceAll(s, n);
    SkipSpaceAll(s, eq + 1);
    var sp1, name, sp2, sp3 := s[q + 5..w], s[w..n], s[n..eq], s[eq + 1..o];
    ConstArrayPieces(s, q, w, n, eq, o, cl);
    assert ConstForm(s, q, sp1, name, sp2, sp3, h.capture);
  }

  lemma ConstArrayPieces(s: string, q: nat, w: nat, n: nat, eq: nat, o: nat, cl: nat)
    requires q + 5 <= w <= n <= eq < o < cl < |s|
    requires HasAt(s, q, "const") && s[eq] == '=' && s[o] == '[' && s[cl] == ']'
    ensures HasAt(s, q, "const" + (s[q + 5..w] + s[w..n]) + (s[n..eq] + "=" + s[eq + 1..o]) + ("[" + s[o + 1..cl] + "]"))
  {
    HasAtSlices(s, q + 5, w);
    HasAtSlices(s, w, n);
    HasAtJoin(s, q + 5, s[q + 5..w], s[w..n]);
    HasAtSlices(s, n, eq);
    assert HasAt(s, eq, "=");
    HasAtJoin(s, n, s[n..eq], "=");
    HasAtSlices(s, eq + 1, o);
    HasAtJoin(s, n, s[n..eq] + "=", s[eq + 1..o]);
    assert HasAt(s, o, "[");
    HasAtSlices(s, o + 1, cl);
    HasAtJoin(s, o, "[", s[o + 1..cl]);
    assert HasAt(s, cl, "]");
    HasAtJoin(s, o, "[" + s[o + 1..cl], "]");
    HasAtJoin(s, q, "const", s[q + 5..w] + s[w..n]);
    HasAtJoin(s, q, "const" + (s[q + 5..w] + s[w..n]), s[n..eq] + "=" + s[eq + 1..o]);
    HasAtJoin(s, q, "const" + (s[q + 5..w] + s[w..n]) + (s[n..eq] + "=" + s[eq + 1..o]), "[" + s[o + 1..cl] + "]");
  }
}
