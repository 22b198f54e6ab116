/**
 * src/translations-cleanup/index.ts, lines 36-58: which flattened keys
 * count as used. A leaf is effectively used when its own dotted key, or a
 * prefix reached by cutting the key at its last `.` again and again, is in
 * the used set; the unused list is the flattened keys that are not.
 */
module EffectiveUse {
  import opened Lex

  /**
   * What the cursor loop decides for one leaf: the cursor is used, or a `.`
   * remains and the part before the last one is effectively used.
   */
  predicate EffectivelyUsed(leaf: string, used: set<string>)
    decreases |leaf|
  {
    leaf in used || (LastIndexOf(leaf, '.') != -1 && EffectivelyUsed(leaf[..LastIndexOf(leaf, '.')], used))
  }

  /** `leaf[..n]` is the whole key or the part before one of its dots. */
  predicate DotPrefix(leaf: string, n: nat) {
    n == |leaf| || (n < |leaf| && leaf[n] == '.')
  }

  /** Some dot-delimited prefix of `leaf`, the whole key included, is used. */
  predicate CoveredByPrefix(leaf: string, used: set<string>) {
    exists n :: 0 <= n <= |leaf| && DotPrefix(leaf, n) && leaf[..n] in used
  }

  /**
   * Cutting at the last `.` again and again visits exactly the prefixes
   * that end before a dot, so a leaf is effectively used iff one of them,
   * or the leaf itself, is used.
   */
  lemma {:induction false} EffectivelyUsedIff(leaf: string, used: set<string>)
    ensures EffectivelyUsed(leaf, used) <==> CoveredByPrefix(leaf, used)
    decreases |leaf|
  {
    var idx := LastIndexOf(leaf, '.');
    if leaf in used {
      assert leaf[..|leaf|] == leaf;
      assert DotPrefix(leaf, |leaf|);
    } else if idx == -1 {
      forall n | 0 <= n <= |leaf| && DotPrefix(leaf, n) ensures leaf[..n] !in used {
        assert n == |leaf|;
        assert leaf[..n] == leaf;
      }
    } else {
      var cut := leaf[..idx];
      EffectivelyUsedIff(cut, used);
      if CoveredByPrefix(cut, used) {
        var n :| 0 <= n <= |cut| && DotPrefix(cut, n) && cut[..n] in used;
        assert leaf[..n] == cut[..n];
        assert DotPrefix(leaf, n);
      }
      assert leaf[..|leaf|] == leaf;
      if CoveredByPrefix(leaf, used) {
        var n :| 0 <= n <= |leaf| && DotPrefix(leaf, n) && leaf[..n] in used;
        assert n < |leaf|;
        assert n <= idx;
        assert cut[..n] == leaf[..n];
        assert DotPrefix(cut, n);
      }
    }
  }

  /** A used group key covers every leaf below it. */
  lemma PrefixCovers(group: string, rest: string, used: set<string>)
    requires group in used
    ensures EffectivelyUsed(group + "." + rest, used)
  {
    var leaf := group + "." + rest;
    assert leaf[..|group|] == group;
    assert DotPrefix(leaf, |group|);
    EffectivelyUsedIff(leaf, used);
  }

  /** Effective use is monotone in the used set. */
  lemma EffectivelyUsedMonotone(leaf: string, used: set<string>, more: set<string>)
    requires used <= more && EffectivelyUsed(leaf, used)
    ensures EffectivelyUsed(leaf, more)
  {
    EffectivelyUsedIff(leaf, used);
    EffectivelyUsedIff(leaf, more);
  }

  /** The body of the loop over leaves: walk the cursor up until it is used or has no `.` left. */
  method LeafIsUsed(leaf: string, used: set<string>) returns (matched: bool)
    ensures matched == EffectivelyUsed(leaf, used)
  {
    var cursor := leaf;
    matched := false;
    while true
      invariant !matched
      invariant EffectivelyUsed(cursor, used) == EffectivelyUsed(leaf, used)
      decreases |cursor|
    {
      if cursor in used {
        matched := true;
        break;
      }
      var idx := LastIndexOf(cursor, '.');
      if idx == -1 {
        break;
      }
      cursor := cursor[..idx];
    }
  }

  /** The keys of `keys` that are effectively used. */
  function EffectiveSet(keys: seq<string>, used: set<string>): set<string> {
    set k | k in keys && EffectivelyUsed(k, used)
  }

  /** effectiveUsedLeaves: the flattened keys that are effectively used. */
  method EffectiveUsedLeaves(allTranslationKeys: seq<string>, usedKeys: set<string>) returns (effective: set<string>)
    ensures effective == EffectiveSet(allTranslationKeys, usedKeys)
  {
    effective := {};
    for i := 0 to |allTranslationKeys|
      invariant effective == set k | k in allTranslationKeys[..i] && EffectivelyUsed(k, usedKeys)
    {
      var leaf := allTranslationKeys[i];
      var matched := LeafIsUsed(leaf, usedKeys);
      if matched {
        effective := effective + {leaf};
      }
      assert allTranslationKeys[..i + 1] == allTranslationKeys[..i] + [leaf];
    }
    assert allTranslationKeys[..|allTranslationKeys|] == allTranslationKeys;
  }

  /** `allTranslationKeys.filter(key => !effectiveUsedLeaves.has(key))`. */
  function Unused(keys: seq<string>, effective: set<string>): (r: seq<string>)
    ensures |r| <= |keys|
    ensures forall k :: k in r <==> k in keys && k !in effective
  {
    if keys == [] then []
    else (if keys[0] in effective then [] else [keys[0]]) + Unused(keys[1..], effective)
  }

  /** The filter keeps flatten order: it distributes over concatenation. */
  lemma {:induction false} UnusedAppend(a: seq<string>, b: seq<string>, effective: set<string>)
    ensures Unused(a + b, effective) == Unused(a, effective) + Unused(b, effective)
    decreases |a|
  {
    if a != [] {
      assert (a + b)[0] == a[0] && (a + b)[1..] == a[1..] + b;
      UnusedAppend(a[1..], b, effective);
      var head := if a[0] in effective then [] else [a[0]];
      assert Unused(a + b, effective) == head + (Unused(a[1..], effective) + Unused(b, effective));
    } else {
      assert a + b == b;
    }
  }

  /** Distinct keys give a list of distinct unused keys. */
  lemma {:induction false} UnusedDistinct(keys: seq<string>, effective: set<string>)
    requires forall i, j :: 0 <= i < j < |keys| ==> keys[i] != keys[j]
    ensures forall i, j :: 0 <= i < j < |Unused(keys, effective)| ==> Unused(keys, effective)[i] != Unused(keys, effective)[j]
    decreases |keys|
  {
    if keys != [] {
      UnusedDistinct(keys[1..], effective);
      assert keys[0] !in keys[1..];
    }
  }
}
