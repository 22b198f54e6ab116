/**
 * What `matchAll` with the recognisers of `translationPatterns` yields on
 * small inputs: leftmost non-overlapping matches, the word-boundary anchor,
 * and the bracket form.
 */
module PatternExamples {
  import opened Wrappers
  import opened Lex
  import opened Patterns

  /** `t('a')t('b')`: the second call follows a word character, so only `a` is found. */
  lemma AdjacentCalls()
    ensures MatchAll(Tight, "t('a')t('b')", 0) == ["a"]
  {
    var s := "t('a')t('b')";
    assert HasAt(s, 0, "t(" + ['\''] + "a" + ['\''] + ")");
    TightRecognised(s, 0, '\'', "a", '\'');
    MatchAtStart(Tight, s);
    forall p | 6 <= p <= |s| ensures MatchAt(Tight, s, p).None? {
      MatchBoundary(Tight, s, p);
    }
    MatchAllNone(Tight, s, 6);
  }

  /** `getParent('test')`: `t(` stands after a word character, so nothing is found. */
  lemma NotACall()
    ensures MatchAll(Tight, "getParent('test')", 0) == []
  {
    var s := "getParent('test')";
    assert IndexFrom(s, 0, '(') == Some(9);
    assert IndexFrom(s, 10, '(') == None;
    IndexFromFirst(s, 0, '(');
    IndexFromFirst(s, 10, '(');
    forall q | 0 <= q <= |s| && HasAt(s, q, Token(Tight)) ensures !Boundary(s, q) {
      assert s[q + 1] == Token(Tight)[1] == '(';
      assert q == 8;
      assert IsWord(s[7]);
    }
    NoBoundaryNoMatch(Tight, s, 0);
  }

  /**
   * `t('a', t('b'))`: the loose pattern takes the outer call's first
   * argument and resumes after the first `)`, so it finds only `a`.
   */
  lemma NestedLoose()
    ensures MatchAll(Loose("t", Quotes), "t('a', t('b'))", 0) == ["a"]
  {
    var s := "t('a', t('b'))";
    var P := Loose("t", Quotes);
    assert HasAt(s, 0, "t(");
    assert SkipSpace(s, 2) == 2;
    assert RunEnd(s, 3, Quotes) == 4;
    assert SkipSpace(s, 5) == 5;
    assert IndexFrom(s, 6, ')') == Some(12);
    assert ArgsTail(s, 5) == Some(13);
    assert s[3..4] == "a";
    assert LooseArgs(s, 2, Quotes) == Some(Hit(13, "a"));
    assert MatchAt(P, s, 0) == Some(Hit(13, "a"));
    assert MatchAt(P, s, 13).None?;
  }

  /**
   * On the same text the basic pattern fails on the outer call, whose
   * argument is not closed at once, and finds the inner `b`: the patterns
   * are run independently.
   */
  lemma NestedTight()
    ensures MatchAll(Tight, "t('a', t('b'))", 0) == ["b"]
  {
    var s := "t('a', t('b'))";
    assert HasAt(s, 7, "t(" + ['\''] + "b" + ['\''] + ")");
    TightRecognised(s, 7, '\'', "b", '\'');
    MatchAfterBoundary(Tight, s, 6);
    assert RunEnd(s, 3, Quotes) == 4;
    assert TightAt(s, 0).None?;
    forall p | 0 <= p < 6 ensures MatchAt(Tight, s, p).None? {
      if p == 5 {
        assert !HasAt(s, 6, "t(");
      } else {
        MatchBoundary(Tight, s, p);
      }
    }
    MatchAllFirst(Tight, s, 0, 6);
    assert MatchAt(Tight, s, 13).None?;
  }

  /**
   * A call whose key is a base and one bracket segment, such as
   * `t('parent.child["sub-child"]')`, yields the base with the segment.
   */
  lemma BracketKey(o: char, base: string, o1: char, seg: string, c1: char, c: char)
    requires IsQuote(o) && IsQuote(o1) && IsQuote(c1) && IsQuote(c)
    requires base != [] && DelimFree(Quotes, base) && seg != [] && DelimFree(Quotes, seg) && seg[0] != ')'
    ensures var chain := "[" + ([o1] + seg + [c1] + "]");
      MatchAll(Bracket, "t(" + [o] + base + chain + ([c] + ")"), 0) == [base + chain]
  {
    var chain := "[" + ([o1] + seg + [c1] + "]");
    SingleSegmentChain(chain, o1, seg, c1);
    WholeBracketCall("t(" + [o] + base + chain + ([c] + ")"), o, base, chain, c);
  }

  /** `['seg']` on its own is a chain of one segment. */
  lemma SingleSegmentChain(chain: string, o1: char, seg: string, c1: char)
    requires IsQuote(o1) && IsQuote(c1) && seg != [] && DelimFree(Quotes, seg)
    requires chain == "[" + ([o1] + seg + [c1] + "]")
    ensures Chain(chain) && BracketSegmentAt(chain, 0) == Some((|chain|, seg))
  {
    HasAtAfter("[", [o1] + seg + [c1] + "]");
    BracketSegment(chain, 0, o1, seg, c1);
    assert chain[|chain|..] == [];
  }

  /** `t('a['b']['c']')`: both segments are taken, and the key is `a['b']['c']`. */
  lemma TwoSegments()
    ensures MatchAll(Bracket, "t('a['b']['c']')", 0) == ["a['b']['c']"]
  {
    var chain := "['b']['c']";
    TwoSegmentChain(chain);
    assert "t('a['b']['c']')" == "t(" + ['\''] + "a" + chain + (['\''] + ")");
    assert "a" + chain == "a['b']['c']";
    WholeBracketCall("t('a['b']['c']')", '\'', "a", chain, '\'');
  }

  lemma TwoSegmentChain(chain: string)
    requires chain == "['b']['c']"
    ensures Chain(chain) && BracketSegmentAt(chain, 0) == Some((5, "b"))
  {
    assert chain[..5] == "['b']";
    OneSegment(chain, 'b');
    assert chain[5..][..5] == "['c']";
    OneSegment(chain[5..], 'c');
    assert chain[5..][5..] == [];
  }

  /** A text that starts with `['x']`, for a one-letter name `x`, starts with one segment. */
  lemma OneSegment(w: string, x: char)
    requires x != '\'' && x != '"' && |w| >= 5 && w[..5] == ['[', '\'', x, '\'', ']']
    ensures BracketSegmentAt(w, 0) == Some((5, [x]))
  {
    assert w[0] == '[' && w[1] == '\'' && w[2] == x && w[3] == '\'' && w[4] == ']';
    assert RunEnd(w, 3, Quotes) == 3;
    assert RunEnd(w, 2, Quotes) == 3;
    assert w[2..3] == [x];
  }

  /** A bracket call that is the whole input yields exactly its key. */
  lemma WholeBracketCall(s: string, o: char, base: string, chain: string, c: char)
    requires IsQuote(o) && IsQuote(c) && base != [] && DelimFree(Quotes, base)
    requires chain != [] && Chain(chain) && BracketSegmentAt(chain, 0).value.1[0] != ')'
    requires s == "t(" + [o] + base + chain + ([c] + ")")
    ensures MatchAll(Bracket, s, 0) == [base + chain]
  {
    assert HasAt(s, 0, s);
    BracketRecognised(s, 0, o, base, chain, c);
    MatchAtStart(Bracket, s);
    assert |s| == |base| + |chain| + 5;
  }

  /**
   * The object shorthand has no word-boundary anchor: `$t: 'k'` is found
   * after any character, a word character included.
   */
  lemma ShorthandAfterAnyChar(w: char, k: string)
    requires k != [] && DelimFree(AllQuotes, k)
    ensures MatchAll(Shorthand, [w] + ("$t" + "" + ":" + (" " + ['\''] + k + ['\''])), 0) == [k]
  {
    var s := [w] + ("$t" + "" + ":" + (" " + ['\''] + k + ['\'']));
    ShorthandSecond(w, k);
    MatchAllFirst(Shorthand, s, 0, 1);
  }

  lemma ShorthandSecond(w: char, k: string)
    requires k != [] && DelimFree(AllQuotes, k)
    ensures var s := [w] + ("$t" + "" + ":" + (" " + ['\''] + k + ['\'']));
      MatchAt(Shorthand, s, 0).None? && MatchAt(Shorthand, s, 1) == Some(Hit(|s|, k))
  {
    var m := "$t" + "" + ":" + (" " + ['\''] + k + ['\'']);
    var s := [w] + m;
    HasAtAfter([w], m);
    assert s[1 + 0] == m[0];
    ShorthandNotAt(s);
    ShorthandAtOne(s, k);
    assert |s| == |k| + 7;
  }

  /** `$t: 'k'` at position 1 is a shorthand match there. */
  lemma ShorthandAtOne(s: string, k: string)
    requires k != [] && DelimFree(AllQuotes, k)
    requires HasAt(s, 1, "$t" + "" + ":" + (" " + ['\''] + k + ['\'']))
    ensures MatchAt(Shorthand, s, 1) == Some(Hit(|k| + 7, k))
  {
    assert AllSpace(" ") && AllSpace("");
    ShorthandRecognised(s, 1, "", " ", '\'', k, '\'');
    assert MatchAt(Shorthand, s, 1) == ShorthandAt(s, 1);
  }

  /** No shorthand starts just before a `$`. */
  lemma ShorthandNotAt(s: string)
    requires |s| >= 2 && s[1] == '$'
    ensures MatchAt(Shorthand, s, 0).None?
  {
    assert !HasAt(s, 0, "$t") by {
      assert s[0 + 1] != "$t"[1];
    }
  }
}
