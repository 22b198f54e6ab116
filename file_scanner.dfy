/**
 * src/translations-cleanup/fileScanner.ts: the set of used keys found in
 * the source files. Every pattern of `translationPatterns` is run over the
 * whole content of every file, and so is the `const NAME = [ ... ]`
 * heuristic; each non-empty capture is normalised and added to one set.
 * The file list (the result of the glob) and the file contents are inputs.
 */
module FileScanner {
  import opened Lex
  import opened Patterns
  import opened TranslationUtils
  import PatternExamples

  // ---------------------------------------------------------------------
  // Specification
  // ---------------------------------------------------------------------

  /** The keys added for a list of captures: each non-empty one, normalised. */
  function CaptureKeys(caps: seq<string>): set<string>
    decreases |caps|
  {
    if caps == [] then {}
    else
      var c := caps[|caps| - 1];
      CaptureKeys(caps[..|caps| - 1]) + (if c != [] then {NormalizeTranslationKey(c)} else {})
  }

  /** The keys the patterns `ps`, in turn, find in `content`. */
  function PatternKeys(ps: seq<Pattern>, content: string): set<string>
    decreases |ps|
  {
    if ps == [] then {}
    else PatternKeys(ps[..|ps| - 1], content) + CaptureKeys(MatchAll(ps[|ps| - 1], content, 0))
  }

  /** The keys found in array bodies: the quoted strings of each non-empty body. */
  function ArrayKeys(bodies: seq<string>): set<string>
    decreases |bodies|
  {
    if bodies == [] then {}
    else
      var b := bodies[|bodies| - 1];
      ArrayKeys(bodies[..|bodies| - 1]) + (if b != [] then CaptureKeys(MatchAll(StringLiteral, b, 0)) else {})
  }

  /** The keys one file contributes when the usage patterns are `ps` (`translationPatterns` in the tool). */
  function FileKeys(ps: seq<Pattern>, content: string): set<string> {
    PatternKeys(ps, content) + ArrayKeys(MatchAll(ConstArray, content, 0))
  }

  /** The keys all files contribute: with `TranslationPatterns`, the set `scanFiles` resolves to. */
  function UsedKeys(ps: seq<Pattern>, files: seq<string>): set<string>
    decreases |files|
  {
    if files == [] then {} else UsedKeys(ps, files[..|files| - 1]) + FileKeys(ps, files[|files| - 1])
  }

  // ---------------------------------------------------------------------
  // The scanning loops
  // ---------------------------------------------------------------------

  /** scanFiles over the contents of the globbed files, in glob order. */
  method ScanFiles(files: seq<string>) returns (usedKeys: set<string>)
    ensures usedKeys == UsedKeys(TranslationPatterns, files)
  {
    usedKeys := {};
    for f := 0 to |files|
      invariant usedKeys == UsedKeys(TranslationPatterns, files[..f])
    {
      usedKeys := ScanContent(usedKeys, files[f]);
      assert files[..f + 1][..f] == files[..f];
    }
    assert files[..|files|] == files;
  }

  /** The body of the loop over files: every pattern, then the array heuristic, on one content. */
  method ScanContent(before: set<string>, content: string) returns (usedKeys: set<string>)
    ensures usedKeys == before + FileKeys(TranslationPatterns, content)
  {
    usedKeys := before;
    for j := 0 to |TranslationPatterns|
      invariant usedKeys == before + PatternKeys(TranslationPatterns[..j], content)
    {
      var matches := MatchAll(TranslationPatterns[j], content, 0);
      usedKeys := AddCaptures(usedKeys, matches);
      assert TranslationPatterns[..j + 1][..j] == TranslationPatterns[..j];
    }
    assert TranslationPatterns[..|TranslationPatterns|] == TranslationPatterns;
    var constArrays := MatchAll(ConstArray, content, 0);
    ghost var mid := usedKeys;
    for a := 0 to |constArrays|
      invariant usedKeys == mid + ArrayKeys(constArrays[..a])
    {
      var body := constArrays[a];
      if body != [] {
        var stringMatches := MatchAll(StringLiteral, body, 0);
        usedKeys := AddCaptures(usedKeys, stringMatches);
      }
      assert constArrays[..a + 1][..a] == constArrays[..a];
    }
    assert constArrays[..|constArrays|] == constArrays;
  }

  /** The innermost loops: each non-empty capture, normalised, is added. */
  method AddCaptures(before: set<string>, matches: seq<string>) returns (usedKeys: set<string>)
    ensures usedKeys == before + CaptureKeys(matches)
  {
    usedKeys := before;
    for m := 0 to |matches|
      invariant usedKeys == before + CaptureKeys(matches[..m])
    {
      if matches[m] != [] {
        usedKeys := usedKeys + {NormalizeTranslationKey(matches[m])};
      }
      assert matches[..m + 1][..m] == matches[..m];
    }
    assert matches[..|matches|] == matches;
  }

  // ---------------------------------------------------------------------
  // What the set holds
  // ---------------------------------------------------------------------

  /** A key comes from a list of captures iff it normalises some non-empty capture. */
  lemma {:induction false} CaptureKeysMember(caps: seq<string>, k: string)
    ensures k in CaptureKeys(caps) <==> exists c :: c in caps && c != [] && NormalizeTranslationKey(c) == k
    decreases |caps|
  {
    if caps != [] {
      var init := caps[..|caps| - 1];
      CaptureKeysMember(init, k);
      assert caps == init + [caps[|caps| - 1]];
    }
  }

  /** A key comes from the patterns `ps` iff one of them captures something that normalises to it. */
  lemma PatternKeysMember(ps: seq<Pattern>, content: string, k: string)
    ensures k in PatternKeys(ps, content) <==>
      exists P, c :: P in ps && c in MatchAll(P, content, 0) && c != [] && NormalizeTranslationKey(c) == k
  {
    if k in PatternKeys(ps, content) {
      PatternKeysSound(ps, content, k);
    }
    if exists P, c :: P in ps && c in MatchAll(P, content, 0) && c != [] && NormalizeTranslationKey(c) == k {
      var P, c :| P in ps && c in MatchAll(P, content, 0) && c != [] && NormalizeTranslationKey(c) == k;
      PatternKeysComplete(ps, content, P, c);
    }
  }

  lemma {:induction false} PatternKeysSound(ps: seq<Pattern>, content: string, k: string)
    requires k in PatternKeys(ps, content)
    ensures exists P, c :: P in ps && c in MatchAll(P, content, 0) && c != [] && NormalizeTranslationKey(c) == k
    decreases |ps|
  {
    var init := ps[..|ps| - 1];
    var last := ps[|ps| - 1];
    var caps := MatchAll(last, content, 0);
    assert ps == init + [last];
    if k in PatternKeys(init, content) {
      PatternKeysSound(init, content, k);
      var P, c :| P in init && c in MatchAll(P, content, 0) && c != [] && NormalizeTranslationKey(c) == k;
      assert P in ps;
    } else {
      CaptureKeysMember(caps, k);
      var c :| c in caps && c != [] && NormalizeTranslationKey(c) == k;
      assert last in ps;
    }
  }

  lemma {:induction false} PatternKeysComplete(ps: seq<Pattern>, content: string, P: Pattern, c: string)
    requires P in ps && c in MatchAll(P, content, 0) && c != []
    ensures NormalizeTranslationKey(c) in PatternKeys(ps, content)
    decreases |ps|
  {
    var init := ps[..|ps| - 1];
    var last := ps[|ps| - 1];
    assert ps == init + [last];
    if P == last {
      CaptureKeysMember(MatchAll(last, content, 0), NormalizeTranslationKey(c));
    } else {
      assert P in init;
      PatternKeysComplete(init, content, P, c);
    }
  }

  /** A key comes from the array bodies iff a non-empty body holds a quoted string that normalises to it. */
  lemma ArrayKeysMember(bodies: seq<string>, k: string)
    ensures k in ArrayKeys(bodies) <==>
      exists b, c :: b in bodies && b != [] && c in MatchAll(StringLiteral, b, 0) && c != [] && NormalizeTranslationKey(c) == k
  {
    if k in ArrayKeys(bodies) {
      ArrayKeysSound(bodies, k);
    }
    if exists b, c :: b in bodies && b != [] && c in MatchAll(StringLiteral, b, 0) && c != [] && NormalizeTranslationKey(c) == k {
      var b, c :| b in bodies && b != [] && c in MatchAll(StringLiteral, b, 0) && c != [] && NormalizeTranslationKey(c) == k;
      ArrayKeysComplete(bodies, b, c);
    }
  }

  lemma {:induction false} ArrayKeysSound(bodies: seq<string>, k: string)
    requires k in ArrayKeys(bodies)
    ensures exists b, c :: b in bodies && b != [] && c in MatchAll(StringLiteral, b, 0) && c != [] && NormalizeTranslationKey(c) == k
    decreases |bodies|
  {
    var init := bodies[..|bodies| - 1];
    var last := bodies[|bodies| - 1];
    assert bodies == init + [last];
    if k in ArrayKeys(init) {
      ArrayKeysSound(init, k);
      var b, c :| b in init && b != [] && c in MatchAll(StringLiteral, b, 0) && c != [] && NormalizeTranslationKey(c) == k;
      assert b in bodies;
    } else {
      assert last != [];
      CaptureKeysMember(MatchAll(StringLiteral, last, 0), k);
      var c :| c in MatchAll(StringLiteral, last, 0) && c != [] && NormalizeTranslationKey(c) == k;
      assert last in bodies;
    }
  }

  lemma {:induction false} ArrayKeysComplete(bodies: seq<string>, b: string, c: string)
    requires b in bodies && b != [] && c in MatchAll(StringLiteral, b, 0) && c != []
    ensures NormalizeTranslationKey(c) in ArrayKeys(bodies)
    decreases |bodies|
  {
    var init := bodies[..|bodies| - 1];
    var last := bodies[|bodies| - 1];
    assert bodies == init + [last];
    if b == last {
      CaptureKeysMember(MatchAll(StringLiteral, last, 0), NormalizeTranslationKey(c));
    } else {
      assert b in init;
      ArrayKeysComplete(init, b, c);
    }
  }

  /** Every key a file contributes is a normalised non-empty capture of a pattern or of an array body. */
  lemma FileKeysMember(ps: seq<Pattern>, content: string, k: string)
    ensures k in FileKeys(ps, content) <==>
      (exists P, c :: P in ps && c in MatchAll(P, content, 0) && c != [] && NormalizeTranslationKey(c) == k)
      || (exists b, c :: b in MatchAll(ConstArray, content, 0) && b != [] && c in MatchAll(StringLiteral, b, 0) && c != []
            && NormalizeTranslationKey(c) == k)
  {
    PatternKeysMember(ps, content, k);
    ArrayKeysMember(MatchAll(ConstArray, content, 0), k);
  }

  /** The used set is the union of the per-file sets. */
  lemma UsedKeysMember(ps: seq<Pattern>, files: seq<string>, k: string)
    ensures k in UsedKeys(ps, files) <==> exists i :: 0 <= i < |files| && k in FileKeys(ps, files[i])
  {
    if k in UsedKeys(ps, files) {
      var i := UsedKeysSound(ps, files, k);
    }
    if exists i :: 0 <= i < |files| && k in FileKeys(ps, files[i]) {
      var i :| 0 <= i < |files| && k in FileKeys(ps, files[i]);
      UsedKeysComplete(ps, files, i, k);
    }
  }

  /** A used key comes from some file. */
  lemma {:induction false} UsedKeysSound(ps: seq<Pattern>, files: seq<string>, k: string) returns (i: nat)
    requires k in UsedKeys(ps, files)
    ensures i < |files| && k in FileKeys(ps, files[i])
    decreases |files|
  {
    var init := files[..|files| - 1];
    if k in UsedKeys(ps, init) {
      i := UsedKeysSound(ps, init, k);
      assert files[i] == init[i];
    } else {
      i := |files| - 1;
    }
  }

  /** Every key of every file is used. */
  lemma {:induction false} UsedKeysComplete(ps: seq<Pattern>, files: seq<string>, i: nat, k: string)
    requires i < |files| && k in FileKeys(ps, files[i])
    ensures k in UsedKeys(ps, files)
    decreases |files|
  {
    var init := files[..|files| - 1];
    var rest := UsedKeys(ps, init);
    var last := FileKeys(ps, files[|files| - 1]);
    assert UsedKeys(ps, files) == rest + last;
    if i < |init| {
      assert init[i] == files[i];
      UsedKeysComplete(ps, init, i, k);
      assert k in rest;
    } else {
      assert k in last;
    }
  }

  /** The order of the files and repeated files do not change the used set. */
  lemma FileOrderIrrelevant(ps: seq<Pattern>, files: seq<string>, files': seq<string>)
    requires forall f :: f in files <==> f in files'
    ensures UsedKeys(ps, files) == UsedKeys(ps, files')
  {
    forall k ensures k in UsedKeys(ps, files) <==> k in UsedKeys(ps, files') {
      UsedKeysMember(ps, files, k);
      UsedKeysMember(ps, files', k);
      if k in UsedKeys(ps, files) {
        var i :| 0 <= i < |files| && k in FileKeys(ps, files[i]);
        assert files[i] in files';
      }
      if k in UsedKeys(ps, files') {
        var i :| 0 <= i < |files'| && k in FileKeys(ps, files'[i]);
        assert files'[i] in files;
      }
    }
  }

  /** More files can only add keys. */
  lemma UsedKeysGrow(ps: seq<Pattern>, files: seq<string>, more: seq<string>)
    ensures UsedKeys(ps, files) <= UsedKeys(ps, files + more)
  {
    forall k | k in UsedKeys(ps, files) ensures k in UsedKeys(ps, files + more) {
      UsedKeysMember(ps, files, k);
      UsedKeysMember(ps, files + more, k);
      var i :| 0 <= i < |files| && k in FileKeys(ps, files[i]);
      assert (files + more)[i] == files[i];
    }
  }

  /** Every used key is the normalised form of a non-empty capture found in one of the files. */
  lemma UsedKeysFound(ps: seq<Pattern>, files: seq<string>, k: string)
    requires k in UsedKeys(ps, files)
    ensures exists i, c ::
      && 0 <= i < |files| && c != [] && NormalizeTranslationKey(c) == k
      && ((exists P :: P in ps && c in MatchAll(P, files[i], 0))
          || (exists b :: b in MatchAll(ConstArray, files[i], 0) && b != [] && c in MatchAll(StringLiteral, b, 0)))
  {
    UsedKeysMember(ps, files, k);
    var i :| 0 <= i < |files| && k in FileKeys(ps, files[i]);
    FileKeysMember(ps, files[i], k);
  }

  /**
   * Patterns are not first-match-wins: in `t('a', t('b'))` the loose `t`
   * pattern finds the outer key and the basic pattern the inner one, and
   * both are used.
   */
  lemma NestedCallKeys()
    ensures {"a", "b"} <= FileKeys(TranslationPatterns, "t('a', t('b'))")
  {
    var s := "t('a', t('b'))";
    PatternExamples.NestedLoose();
    PatternExamples.NestedTight();
    NormalizeFixedPoint("a");
    NormalizeFixedPoint("b");
    PatternKeysComplete(TranslationPatterns, s, Loose("t", Quotes), "a");
    PatternKeysComplete(TranslationPatterns, s, Tight, "b");
  }
}
