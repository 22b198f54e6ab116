/**
 * src/translations-cleanup/translationUtils.ts: flattening the translation
 * tree into an ordered table of dotted paths, and rewriting bracket segments
 * of a captured key into dot notation.
 */
module TranslationUtils {
  import opened Wrappers
  import opened Lex
  import opened Tree

  // ---------------------------------------------------------------------
  // The ordered table (a JavaScript Map<string, string>)
  // ---------------------------------------------------------------------

  /** A `Map<string, string>`: its keys in insertion order and the value of each. */
  datatype Table = Table(keys: seq<string>, vals: map<string, string>) {
    ghost predicate Valid() {
      && (forall i, j :: 0 <= i < j < |keys| ==> keys[i] != keys[j])
      && (forall k :: k in vals <==> k in keys)
    }
  }

  const EmptyTable := Table([], map[])

  /** `map.set(k, v)`: a new key goes last; a key already present keeps its place and takes `v`. */
  function Put(t: Table, k: string, v: string): (r: Table)
    requires t.Valid()
    ensures r.Valid()
    ensures k in r.vals && r.vals[k] == v
    ensures forall k' :: k' != k ==> (k' in r.vals <==> k' in t.vals)
  {
    Table(if k in t.vals then t.keys else t.keys + [k], t.vals[k := v])
  }

  /** `set` applied to each pair of `ps` in turn. */
  function PutAll(t: Table, ps: seq<(string, string)>): (r: Table)
    requires t.Valid()
    ensures r.Valid()
    decreases |ps|
  {
    if ps == [] then t else PutAll(Put(t, ps[0].0, ps[0].1), ps[1..])
  }

  /** `set(k, m[k])` for each key of `ks` in turn: the body of a `forEach` over a table. */
  function PutEach(t: Table, ks: seq<string>, m: map<string, string>): (r: Table)
    requires t.Valid()
    requires forall k :: k in ks ==> k in m
    ensures r.Valid()
    decreases |ks|
  {
    if ks == [] then t else PutEach(Put(t, ks[0], m[ks[0]]), ks[1..], m)
  }

  // ---------------------------------------------------------------------
  // Flattening
  // ---------------------------------------------------------------------

  /** `prefix ? `${prefix}.${key}` : key`: an empty prefix adds no dot. */
  function Join(prefix: string, key: string): string {
    if prefix == "" then key else prefix + "." + key
  }

  /** The dotted path of the key path `ps` below a node whose own path is `prefix`. */
  function JoinFrom(prefix: string, ps: seq<string>): string
    decreases |ps|
  {
    if ps == [] then prefix else JoinFrom(Join(prefix, ps[0]), ps[1..])
  }

  /** With non-empty segments, the dotted path of `ps` is its segments joined by `.`. */
  lemma {:induction false} JoinFromDots(prefix: string, ps: seq<string>)
    requires ps != [] && forall i :: 0 <= i < |ps| ==> ps[i] != ""
    ensures JoinFrom(prefix, ps) == Join(prefix, JoinDots(ps))
    decreases |ps|
  {
    if |ps| > 1 {
      JoinFromDots(Join(prefix, ps[0]), ps[1..]);
      if prefix != "" {
        assert prefix + "." + ps[0] + "." + JoinDots(ps[1..]) == prefix + "." + (ps[0] + "." + JoinDots(ps[1..]));
      }
    }
  }

  /**
   * Every string leaf below `es` as (dotted path, text), depth first and in
   * key order, without merging repeated paths: the reference enumeration the
   * flattened table is built from.
   */
  function Leaves(es: seq<Entry>, prefix: string): seq<(string, string)> {
    if es == [] then [] else EntryLeaves(es[0], prefix) + Leaves(es[1..], prefix)
  }

  function EntryLeaves(e: Entry, prefix: string): seq<(string, string)> {
    match e.value
    case Leaf(s) => [(Join(prefix, e.key), s)]
    case Group(children) => Leaves(children, Join(prefix, e.key))
    case Null => []
    case Scalar => []
  }

  /** What `flattenTranslations(obj, prefix)` returns: the leaves, `set` one after another. */
  function Flatten(es: seq<Entry>, prefix: string): (t: Table)
    ensures t.Valid()
  {
    PutAll(EmptyTable, Leaves(es, prefix))
  }

  /**
   * flattenTranslations: one pass over the entries; a string is `set`
   * under its path, an object is flattened recursively and its table merged
   * in with `forEach`, anything else is skipped.
   */
  method FlattenTranslations(obj: seq<Entry>, prefix: string) returns (flattened: Table)
    ensures flattened == Flatten(obj, prefix)
    decreases obj
  {
    flattened := EmptyTable;
    for i := 0 to |obj|
      invariant flattened.Valid()
      invariant flattened == PutAll(EmptyTable, Leaves(obj[..i], prefix))
    {
      var key, value := obj[i].key, obj[i].value;
      var newKey := Join(prefix, key);
      ghost var before := flattened;
      LeavesAppend(obj[..i], [obj[i]], prefix);
      assert obj[..i + 1] == obj[..i] + [obj[i]];
      assert Leaves([obj[i]], prefix) == EntryLeaves(obj[i], prefix);
      PutAllAppend(EmptyTable, Leaves(obj[..i], prefix), EntryLeaves(obj[i], prefix));
      match value {
        case Leaf(s) =>
          flattened := Put(flattened, newKey, s);
        case Group(children) =>
          var nested := FlattenTranslations(children, newKey);
          flattened := SetEach(flattened, nested);
          MergeFlattened(before, Leaves(children, newKey));
        case Null =>
        case Scalar =>
      }
    }
    assert obj[..|obj|] == obj;
  }

  /** `nested.forEach((v, k) => flattened.set(k, v))`: the entries of `nested` set in its key order. */
  method SetEach(flattened: Table, nested: Table) returns (r: Table)
    requires flattened.Valid() && nested.Valid()
    ensures r == PutEach(flattened, nested.keys, nested.vals)
  {
    r := flattened;
    var j := 0;
    while j < |nested.keys|
      invariant 0 <= j <= |nested.keys|
      invariant r.Valid()
      invariant PutEach(r, nested.keys[j..], nested.vals) == PutEach(flattened, nested.keys, nested.vals)
    {
      var k := nested.keys[j];
      assert nested.keys[j..][1..] == nested.keys[j + 1..];
      r := Put(r, k, nested.vals[k]);
      j := j + 1;
    }
  }

  // ---------------------------------------------------------------------
  // Facts about the table
  // ---------------------------------------------------------------------

  lemma {:induction false} PutAllAppend(t: Table, a: seq<(string, string)>, b: seq<(string, string)>)
    requires t.Valid()
    ensures PutAll(t, a + b) == PutAll(PutAll(t, a), b)
    decreases |a|
  {
    if a != [] {
      var t' := Put(t, a[0].0, a[0].1);
      assert (a + b)[0] == a[0];
      assert (a + b)[1..] == a[1..] + b;
      assert PutAll(t, a + b) == PutAll(t', a[1..] + b);
      assert PutAll(t, a) == PutAll(t', a[1..]);
      PutAllAppend(t', a[1..], b);
    } else {
      assert a + b == b;
    }
  }

  lemma {:induction false} PutEachAppend(t: Table, ks: seq<string>, k: string, m: map<string, string>)
    requires t.Valid()
    requires forall x :: x in ks ==> x in m
    requires k in m
    ensures PutEach(t, ks + [k], m) == Put(PutEach(t, ks, m), k, m[k])
    decreases |ks|
  {
    if ks != [] {
      assert (ks + [k])[1..] == ks[1..] + [k];
      PutEachAppend(Put(t, ks[0], m[ks[0]]), ks[1..], k, m);
    }
  }

  /** Values of `m` outside `ks` do not matter to `PutEach`. */
  lemma {:induction false} PutEachAgree(t: Table, ks: seq<string>, m: map<string, string>, k: string, v: string)
    requires t.Valid()
    requires forall x :: x in ks ==> x in m
    requires k !in ks
    ensures PutEach(t, ks, m[k := v]) == PutEach(t, ks, m)
    decreases |ks|
  {
    if ks != [] {
      PutEachAgree(Put(t, ks[0], m[ks[0]]), ks[1..], m, k, v);
    }
  }

  /** Setting a key that is already present twice keeps only the second value. */
  lemma PutPut(t: Table, k: string, w: string, v: string)
    requires t.Valid()
    ensures Put(Put(t, k, w), k, v) == Put(t, k, v)
  {
    assert t.vals[k := w][k := v] == t.vals[k := v];
  }

  /** Re-setting a present key commutes with setting another key. */
  lemma PutCommute(t: Table, k: string, v: string, k0: string, w: string)
    requires t.Valid()
    requires k in t.vals && k != k0
    ensures Put(Put(t, k, v), k0, w) == Put(Put(t, k0, w), k, v)
  {
    assert t.vals[k := v][k0 := w] == t.vals[k0 := w][k := v];
  }

  lemma {:induction false} PutEachPresent(t: Table, ks: seq<string>, m: map<string, string>, k: string, v: string)
    requires t.Valid()
    requires forall x :: x in ks ==> x in m
    requires k in t.vals && k !in ks
    ensures PutEach(Put(t, k, v), ks, m) == Put(PutEach(t, ks, m), k, v)
    decreases |ks|
  {
    if ks != [] {
      var k0 := ks[0];
      PutCommute(t, k, v, k0, m[k0]);
      PutEachPresent(Put(t, k0, m[k0]), ks[1..], m, k, v);
    }
  }

  lemma {:induction false} PutEachOverride(t: Table, ks: seq<string>, m: map<string, string>, k: string, v: string)
    requires t.Valid()
    requires forall x :: x in ks ==> x in m
    requires forall i, j :: 0 <= i < j < |ks| ==> ks[i] != ks[j]
    requires k in ks
    ensures PutEach(t, ks, m[k := v]) == Put(PutEach(t, ks, m), k, v)
    decreases |ks|
  {
    var k0 := ks[0];
    if k0 == k {
      assert k !in ks[1..] by {
        forall i | 0 <= i < |ks[1..]| ensures ks[1..][i] != k {
          assert ks[1..][i] == ks[i + 1];
        }
      }
      PutEachAgree(Put(t, k, v), ks[1..], m, k, v);
      PutPut(t, k, m[k], v);
      PutEachPresent(Put(t, k, m[k]), ks[1..], m, k, v);
    } else {
      PutEachOverride(Put(t, k0, m[k0]), ks[1..], m, k, v);
    }
  }

  /** Merging a table into `t` after one more `set` on it is the merge followed by that `set`. */
  lemma MergePut(t: Table, u: Table, k: string, v: string)
    requires t.Valid() && u.Valid()
    ensures PutEach(t, Put(u, k, v).keys, Put(u, k, v).vals) == Put(PutEach(t, u.keys, u.vals), k, v)
  {
    if k in u.vals {
      PutEachOverride(t, u.keys, u.vals, k, v);
    } else {
      PutEachAppend(t, u.keys, k, u.vals[k := v]);
      PutEachAgree(t, u.keys, u.vals, k, v);
    }
  }

  lemma {:induction false} MergePutAll(t: Table, u: Table, ps: seq<(string, string)>)
    requires t.Valid() && u.Valid()
    ensures PutEach(t, PutAll(u, ps).keys, PutAll(u, ps).vals) == PutAll(PutEach(t, u.keys, u.vals), ps)
    decreases |ps|
  {
    if ps != [] {
      MergePutAll(t, Put(u, ps[0].0, ps[0].1), ps[1..]);
      MergePut(t, u, ps[0].0, ps[0].1);
    }
  }

  /**
   * Merging the table built from `ps` into `t` with `forEach`/`set` gives the
   * same table as setting the pairs of `ps` into `t` directly: the recursive
   * merge of flattenTranslations loses and reorders nothing.
   */
  lemma MergeFlattened(t: Table, ps: seq<(string, string)>)
    requires t.Valid()
    ensures PutEach(t, PutAll(EmptyTable, ps).keys, PutAll(EmptyTable, ps).vals) == PutAll(t, ps)
  {
    MergePutAll(t, EmptyTable, ps);
  }

  lemma {:induction false} LeavesAppend(a: seq<Entry>, b: seq<Entry>, prefix: string)
    ensures Leaves(a + b, prefix) == Leaves(a, prefix) + Leaves(b, prefix)
    decreases |a|
  {
    if a != [] {
      assert (a + b)[0] == a[0];
      assert (a + b)[1..] == a[1..] + b;
      assert Leaves(a + b, prefix) == EntryLeaves(a[0], prefix) + Leaves(a[1..] + b, prefix);
      LeavesAppend(a[1..], b, prefix);
    } else {
      assert a + b == b;
    }
  }

  /** A key is in the table built from `ps` iff some pair of `ps` names it, and its value is one of theirs. */
  lemma {:induction false} PutAllContents(t: Table, ps: seq<(string, string)>, k: string)
    requires t.Valid()
    ensures k in PutAll(t, ps).vals <==> k in t.vals || exists i :: 0 <= i < |ps| && ps[i].0 == k
    ensures k in PutAll(t, ps).vals ==>
      (k in t.vals && PutAll(t, ps).vals[k] == t.vals[k]) || (k, PutAll(t, ps).vals[k]) in ps
    decreases |ps|
  {
    if ps != [] {
      var t' := Put(t, ps[0].0, ps[0].1);
      PutAllContents(t', ps[1..], k);
      if exists i :: 0 <= i < |ps[1..]| && ps[1..][i].0 == k {
        var i :| 0 <= i < |ps[1..]| && ps[1..][i].0 == k;
        assert ps[i + 1].0 == k;
      }
      if exists i :: 0 <= i < |ps| && ps[i].0 == k {
        var i :| 0 <= i < |ps| && ps[i].0 == k;
        if i > 0 { assert ps[1..][i - 1].0 == k; }
      }
    }
  }

  lemma {:induction false} PutAllSize(t: Table, ps: seq<(string, string)>)
    requires t.Valid()
    ensures |PutAll(t, ps).keys| <= |t.keys| + |ps|
    decreases |ps|
  {
    if ps != [] {
      PutAllSize(Put(t, ps[0].0, ps[0].1), ps[1..]);
    }
  }

  // ---------------------------------------------------------------------
  // What the flattened table holds
  // ---------------------------------------------------------------------

  /** Each enumerated leaf is a string leaf of the tree at a path that joins to its dotted key. */
  lemma {:induction false} LeavesSound(es: seq<Entry>, prefix: string, x: (string, string))
    requires WellFormed(Group(es))
    requires x in Leaves(es, prefix)
    ensures exists ps :: LeafAt(es, ps, x.1) && JoinFrom(prefix, ps) == x.0
    decreases es, 1
  {
    if x in EntryLeaves(es[0], prefix) {
      EntryLeavesSound(es, prefix, x);
    } else {
      assert x in Leaves(es[1..], prefix);
      WellFormedTail(es);
      LeavesSound(es[1..], prefix, x);
      var ps :| LeafAt(es[1..], ps, x.1) && JoinFrom(prefix, ps) == x.0;
      LeafAtTail(es, ps, x.1);
    }
  }

  /** The first entry's leaves are sound. */
  lemma {:induction false} EntryLeavesSound(es: seq<Entry>, prefix: string, x: (string, string))
    requires WellFormed(Group(es)) && es != []
    requires x in EntryLeaves(es[0], prefix)
    ensures exists ps :: LeafAt(es, ps, x.1) && JoinFrom(prefix, ps) == x.0
    decreases es, 0
  {
    var e := es[0];
    match e.value
      case Leaf(s) =>
        LeafAtHead(es, []);
        assert [e.key] + [] == [e.key];
        assert x == (Join(prefix, e.key), s);
        assert LeafAt(es, [e.key], x.1);
        assert JoinFrom(prefix, [e.key]) == JoinFrom(Join(prefix, e.key), []);
      case Group(children) =>
        assert WellFormed(e.value);
        LeavesSound(children, Join(prefix, e.key), x);
        var qs :| LeafAt(children, qs, x.1) && JoinFrom(Join(prefix, e.key), qs) == x.0;
        LeafAtHead(es, qs);
        assert JoinFrom(prefix, [e.key] + qs) == JoinFrom(Join(prefix, e.key), qs) by {
          assert ([e.key] + qs)[1..] == qs;
        }
  }

  /** Below the first entry, a path is that entry's key followed by the path within its value. */
  lemma LeafAtHead(es: seq<Entry>, qs: seq<string>)
    requires UniqueKeys(es) && es != []
    ensures NodeAt(Group(es), [es[0].key] + qs) == NodeAt(es[0].value, qs)
  {
    LookupUnique(es, 0);
    assert ([es[0].key] + qs)[1..] == qs;
  }

  /** A leaf below a later entry is a leaf of the whole object at the same path. */
  lemma LeafAtTail(es: seq<Entry>, ps: seq<string>, v: string)
    requires UniqueKeys(es) && es != [] && LeafAt(es[1..], ps, v)
    ensures LeafAt(es, ps, v)
  {
    var i :| 0 <= i < |es[1..]| && es[1..][i] == Entry(ps[0], Lookup(es[1..], ps[0]).value);
    assert es[i + 1].key == ps[0];
    LookupTail(es, ps[0]);
  }

  /** Every string leaf of the tree is enumerated under the dotted join of its path. */
  lemma {:induction false} LeavesComplete(es: seq<Entry>, prefix: string, ps: seq<string>, v: string)
    requires WellFormed(Group(es))
    requires LeafAt(es, ps, v)
    ensures (JoinFrom(prefix, ps), v) in Leaves(es, prefix)
    decreases es
  {
    var k := ps[0];
    var c := Lookup(es, k).value;
    var i :| 0 <= i < |es| && es[i] == Entry(k, c);
    assert NodeAt(Group(es), ps) == NodeAt(c, ps[1..]);
    assert JoinFrom(prefix, ps) == JoinFrom(Join(prefix, k), ps[1..]);
    match c
    case Leaf(s) =>
      assert ps[1..] == [];
      LeavesHoldEntry(es, i, prefix, (Join(prefix, k), v));
    case Group(children) =>
      assert WellFormed(es[i].value);
      LeavesComplete(children, Join(prefix, k), ps[1..], v);
      LeavesHoldEntry(es, i, prefix, (JoinFrom(prefix, ps), v));
  }

  /** The leaves of one entry are among the leaves of its object. */
  lemma LeavesHoldEntry(es: seq<Entry>, i: nat, prefix: string, x: (string, string))
    requires i < |es| && x in EntryLeaves(es[i], prefix)
    ensures x in Leaves(es, prefix)
  {
    LeavesAppend(es[..i], es[i..], prefix);
    assert es == es[..i] + es[i..];
    assert es[i..][1..] == es[i + 1..];
  }

  lemma LookupUnique(es: seq<Entry>, i: nat)
    requires UniqueKeys(es) && i < |es|
    ensures Lookup(es, es[i].key) == Some(es[i].value)
  {
    var r := Lookup(es, es[i].key);
    var j :| 0 <= j < |es| && es[j] == Entry(es[i].key, r.value);
    assert j == i;
  }

  lemma LookupTail(es: seq<Entry>, k: string)
    requires UniqueKeys(es) && es != [] && es[0].key != k
    ensures Lookup(es, k) == Lookup(es[1..], k)
  {
  }

  /**
   * A dotted path is a key of `flattenTranslations(obj)` iff it is the
   * `.`-join of the key path to a string leaf (an empty prefix adds no dot),
   * and the value it maps to is the text of such a leaf; null, numbers and
   * booleans give no key.
   */
  lemma FlattenKeys(es: seq<Entry>, prefix: string, k: string)
    requires WellFormed(Group(es))
    ensures k in Flatten(es, prefix).vals <==> exists ps, v :: LeafAt(es, ps, v) && JoinFrom(prefix, ps) == k
    ensures k in Flatten(es, prefix).vals ==>
      exists ps :: LeafAt(es, ps, Flatten(es, prefix).vals[k]) && JoinFrom(prefix, ps) == k
  {
    var ls := Leaves(es, prefix);
    PutAllContents(EmptyTable, ls, k);
    if k in Flatten(es, prefix).vals {
      var x := (k, Flatten(es, prefix).vals[k]);
      LeavesSound(es, prefix, x);
    }
    if exists ps, v :: LeafAt(es, ps, v) && JoinFrom(prefix, ps) == k {
      var ps, v :| LeafAt(es, ps, v) && JoinFrom(prefix, ps) == k;
      LeavesComplete(es, prefix, ps, v);
      var i :| 0 <= i < |ls| && ls[i] == (k, v);
    }
  }

  /** The table has at most one key per string leaf: a repeated dotted path overwrites. */
  lemma FlattenSize(es: seq<Entry>, prefix: string)
    ensures |Flatten(es, prefix).keys| <= |Leaves(es, prefix)|
  {
    PutAllSize(EmptyTable, Leaves(es, prefix));
  }

  /** When two routes give the same dotted path, the later leaf's text is kept. */
  lemma {:induction false} PutAllLast(t: Table, ps: seq<(string, string)>, i: nat)
    requires t.Valid()
    requires i < |ps|
    requires forall j :: i < j < |ps| ==> ps[j].0 != ps[i].0
    ensures ps[i].0 in PutAll(t, ps).vals && PutAll(t, ps).vals[ps[i].0] == ps[i].1
    decreases |ps|
  {
    if i == 0 {
      PutAllKeeps(Put(t, ps[0].0, ps[0].1), ps[1..], ps[0].0);
    } else {
      PutAllLast(Put(t, ps[0].0, ps[0].1), ps[1..], i - 1);
    }
  }

  lemma {:induction false} PutAllKeeps(t: Table, ps: seq<(string, string)>, k: string)
    requires t.Valid() && k in t.vals
    requires forall j :: 0 <= j < |ps| ==> ps[j].0 != k
    ensures k in PutAll(t, ps).vals && PutAll(t, ps).vals[k] == t.vals[k]
    decreases |ps|
  {
    if ps != [] {
      PutAllKeeps(Put(t, ps[0].0, ps[0].1), ps[1..], k);
    }
  }

  // ---------------------------------------------------------------------
  // Key normalisation
  // ---------------------------------------------------------------------

  /** `replace(/\[['"]([^'"]+)['"]\]/g, '.$1')` applied to `s` from position `i` on. */
  function NormalizeFrom(s: string, i: nat): (r: string)
    requires i <= |s|
    ensures |r| <= |s| - i
    decreases |s| - i
  {
    if i == |s| then ""
    else match BracketSegmentAt(s, i)
      case Some((j, name)) => "." + name + NormalizeFrom(s, j)
      case None => [s[i]] + NormalizeFrom(s, i + 1)
  }

  /** normalizeTranslationKey. */
  function NormalizeTranslationKey(key: string): (r: string)
    ensures |r| <= |key|
  {
    NormalizeFrom(key, 0)
  }

  /** `key` holds no `[` directly followed by a quote. */
  predicate NoBracketQuote(key: string) {
    forall i :: 0 <= i < |key| - 1 ==> !(key[i] == '[' && IsQuote(key[i + 1]))
  }

  /** No segment starts at `k`. */
  predicate Plain(s: string, k: nat)
    requires k <= |s|
  {
    BracketSegmentAt(s, k).None?
  }

  lemma {:induction false} NormalizeFromFixed(s: string, i: nat)
    requires i <= |s|
    requires forall k :: i <= k < |s| ==> Plain(s, k)
    ensures NormalizeFrom(s, i) == s[i..]
    decreases |s| - i
  {
    if i < |s| {
      assert Plain(s, i);
      NormalizeFromFixed(s, i + 1);
      assert s[i..] == [s[i]] + s[i + 1..];
    }
  }

  /** A key with no `[` followed by a quote, such as any dot-notation key, is left unchanged. */
  lemma NormalizeFixedPoint(key: string)
    requires NoBracketQuote(key)
    ensures NormalizeTranslationKey(key) == key
  {
    forall k | 0 <= k < |key| ensures Plain(key, k) {
      if k + 1 < |key| {
        assert !(key[k] == '[' && IsQuote(key[k + 1]));
      }
    }
    NormalizeFromFixed(key, 0);
  }

  /** Two texts that agree from `i` and from `j` on agree one position further on. */
  lemma SuffixStep(s: string, i: nat, t: string, j: nat, k: nat)
    requires i <= |s| && j <= |t| && s[i..] == t[j..] && k <= |s| - i
    ensures j + k <= |t| && s[i + k..] == t[j + k..]
    ensures k < |s| - i ==> s[i + k] == t[j + k]
  {
    assert s[i + k..] == s[i..][k..];
    assert t[j + k..] == t[j..][k..];
    if k < |s| - i {
      assert s[i + k] == s[i..][k];
      assert t[j + k] == t[j..][k];
    }
  }

  /** A run of non-delimiters is as long wherever the text after it agrees. */
  lemma {:induction false} RunEndSame(s: string, i: nat, t: string, j: nat, d: Delims)
    requires i <= |s| && j <= |t| && s[i..] == t[j..]
    ensures RunEnd(s, i, d) - i == RunEnd(t, j, d) - j
    decreases |s| - i
  {
    if i < |s| {
      SuffixStep(s, i, t, j, 0);
      SuffixStep(s, i, t, j, 1);
      if !IsDelim(d, s[i]) {
        RunEndSame(s, i + 1, t, j + 1, d);
      }
    }
  }

  /** A bracket segment is recognised alike wherever the text after it agrees. */
  lemma SegmentSame(s: string, i: nat, t: string, j: nat)
    requires i <= |s| && j <= |t| && s[i..] == t[j..]
    ensures BracketSegmentAt(s, i).Some? == BracketSegmentAt(t, j).Some?
    ensures BracketSegmentAt(t, j).Some? ==>
      BracketSegmentAt(s, i).value == (i + BracketSegmentAt(t, j).value.0 - j, BracketSegmentAt(t, j).value.1)
  {
    if i + 1 < |s| {
      SuffixStep(s, i, t, j, 0);
      SuffixStep(s, i, t, j, 1);
      if s[i] == '[' && IsQuote(s[i + 1]) {
        SuffixStep(s, i, t, j, 2);
        RunEndSame(s, i + 2, t, j + 2, Quotes);
        var e := RunEnd(t, j + 2, Quotes);
        var e1 := RunEnd(s, i + 2, Quotes);
        if e + 1 < |t| {
          SuffixStep(s, i, t, j, e + 1 - j);
          assert s[i + 2..e1] == t[j + 2..e] by {
            SuffixStep(s, i, t, j, 2);
            assert s[i + 2..e1] == s[i + 2..][..e1 - i - 2];
            assert t[j + 2..e] == t[j + 2..][..e - j - 2];
          }
        }
      }
    }
  }

  /** Normalising from two positions the rest of whose texts agree gives the same. */
  lemma {:induction false} NormalizeSame(s: string, i: nat, t: string, j: nat)
    requires i <= |s| && j <= |t| && s[i..] == t[j..]
    ensures NormalizeFrom(s, i) == NormalizeFrom(t, j)
    decreases |s| - i
  {
    if i < |s| {
      SegmentSame(s, i, t, j);
      SuffixStep(s, i, t, j, 0);
      var r := BracketSegmentAt(t, j);
      if r.Some? {
        var e1 := i + r.value.0 - j;
        SuffixStep(s, i, t, j, r.value.0 - j);
        NormalizeSame(s, e1, t, r.value.0);
        assert NormalizeFrom(s, i) == "." + r.value.1 + NormalizeFrom(s, e1);
        assert NormalizeFrom(t, j) == "." + r.value.1 + NormalizeFrom(t, r.value.0);
      } else {
        SuffixStep(s, i, t, j, 1);
        NormalizeSame(s, i + 1, t, j + 1);
        CharStep(s, i, t, j);
      }
    }
  }

  /** Normalising looks only forward, so a prefix already passed does not matter. */
  lemma NormalizeShift(p: string, b: string, j: nat)
    requires j <= |b|
    ensures NormalizeFrom(p + b, |p| + j) == NormalizeFrom(b, j)
  {
    assert (p + b)[|p| + j..] == b[j..];
    NormalizeSame(p + b, |p| + j, b, j);
  }

  /** Two positions that hold the same character outside a segment and continue alike normalise alike. */
  lemma CharStep(s: string, i: nat, t: string, j: nat)
    requires i < |s| && j < |t| && s[i] == t[j]
    requires BracketSegmentAt(s, i).None? && BracketSegmentAt(t, j).None?
    requires NormalizeFrom(s, i + 1) == NormalizeFrom(t, j + 1)
    ensures NormalizeFrom(s, i) == NormalizeFrom(t, j)
  {
  }

  lemma {:induction false} RunEndShift(p: string, b: string, i: nat)
    requires i <= |b|
    ensures RunEnd(p + b, |p| + i, Quotes) == |p| + RunEnd(b, i, Quotes)
    decreases |b| - i
  {
    var s := p + b;
    if i < |b| {
      assert s[|p| + i] == b[i];
      RunEndShift(p, b, i + 1);
    }
  }

  /**
   * A segment `['x']` or `["x"]`, or with mixed quotes such as `['x"]`, whose
   * name is non-empty and quote-free, is rewritten to `.x`; what precedes it
   * is kept when it holds no `[` followed by a quote.
   */
  lemma NormalizeSegment(a: string, open: char, x: string, close: char, b: string)
    requires NoBracketQuote(a)
    requires IsQuote(open) && IsQuote(close)
    requires |x| > 0 && DelimFree(Quotes, x)
    ensures NormalizeTranslationKey(a + ['[', open] + x + [close, ']'] + b)
         == a + "." + x + NormalizeTranslationKey(b)
  {
    var seg := ['[', open] + x + [close, ']'];
    var t := seg + b;
    assert a + ['[', open] + x + [close, ']'] + b == a + t;
    NormalizeKeepsPrefix(a, t);
    NormalizeLeadingSegment(open, x, close, b);
  }

  /** A prefix with no `[` followed by a quote passes through unchanged. */
  lemma NormalizeKeepsPrefix(a: string, t: string)
    requires NoBracketQuote(a)
    requires t != [] && !IsQuote(t[0])
    ensures NormalizeFrom(a + t, 0) == a + NormalizeFrom(t, 0)
  {
    var s := a + t;
    PrefixHasNoSegment(a, t);
    NormalizePlainRun(s, 0, |a|);
    assert s[0..|a|] == a;
    NormalizeShift(a, t, 0);
  }

  lemma NormalizeLeadingSegment(open: char, x: string, close: char, b: string)
    requires IsQuote(open) && IsQuote(close)
    requires |x| > 0 && DelimFree(Quotes, x)
    ensures NormalizeFrom(['[', open] + x + [close, ']'] + b, 0) == "." + x + NormalizeFrom(b, 0)
  {
    var seg := ['[', open] + x + [close, ']'];
    var t := seg + b;
    SegmentFirst(open, x, close, b);
    assert NormalizeFrom(t, 0) == "." + x + NormalizeFrom(t, |seg|);
    NormalizeShift(seg, b, 0);
  }

  lemma PrefixHasNoSegment(a: string, t: string)
    requires NoBracketQuote(a)
    requires t != [] && !IsQuote(t[0])
    ensures forall k :: 0 <= k < |a| ==> Plain(a + t, k)
  {
    var s := a + t;
    forall k | 0 <= k < |a| ensures Plain(s, k) {
      if k + 1 < |a| {
        assert s[k] == a[k] && s[k + 1] == a[k + 1];
      } else {
        assert s[k + 1] == t[0];
      }
    }
  }

  /** The segment `[`, quote, `x`, quote, `]` at the front is recognised whole. */
  lemma SegmentFirst(open: char, x: string, close: char, b: string)
    requires IsQuote(open) && IsQuote(close)
    requires |x| > 0 && DelimFree(Quotes, x)
    ensures BracketSegmentAt(['[', open] + x + [close, ']'] + b, 0) == Some((|x| + 4, x))
  {
    var t := ['[', open] + x + [close, ']'] + b;
    var u := x + [close, ']'] + b;
    assert t == ['[', open] + u;
    RunEndShift(['[', open], u, 0);
    assert u[..|x|] == x && u[|x|] == close;
    RunEndStops(u, x);
    assert t[|x| + 3] == ']';
    assert t[2..|x| + 2] == x;
  }

  lemma RunEndStops(t: string, x: string)
    requires |x| < |t| && t[..|x|] == x && DelimFree(Quotes, x) && IsQuote(t[|x|])
    ensures RunEnd(t, 0, Quotes) == |x|
  {
    RunEndFrom(t, 0, |x|, Quotes);
  }

  /** A run of positions where no segment starts is copied as it is. */
  lemma {:induction false} NormalizePlainRun(s: string, i: nat, m: nat)
    requires i <= m <= |s|
    requires forall k :: i <= k < m ==> Plain(s, k)
    ensures NormalizeFrom(s, i) == s[i..m] + NormalizeFrom(s, m)
    decreases m - i
  {
    if i < m {
      assert Plain(s, i);
      NormalizeChar(s, i);
      NormalizePlainRun(s, i + 1, m);
      ConsRun(s, i, m, NormalizeFrom(s, m));
    } else {
      assert s[i..m] == [];
    }
  }

  /** One character and the run after it, then the rest, are the longer run and the rest. */
  lemma ConsRun(s: string, i: nat, m: nat, rest: string)
    requires i < m <= |s|
    ensures [s[i]] + (s[i + 1..m] + rest) == s[i..m] + rest
  {
    assert s[i..m] == [s[i]] + s[i + 1..m];
  }

  /** Outside a segment a character is copied. */
  lemma NormalizeChar(s: string, i: nat)
    requires i < |s| && BracketSegmentAt(s, i).None?
    ensures NormalizeFrom(s, i) == [s[i]] + NormalizeFrom(s, i + 1)
  {
  }

  /** Normalisation is not idempotent: one pass can expose a new bracket segment. */
  lemma NormalizeNotIdempotent()
    ensures NormalizeTranslationKey("['a[']'b']") == ".a['b']"
    ensures NormalizeTranslationKey(".a['b']") == ".a.b"
  {
    FirstPass();
    SecondPass();
  }

  /** The first segment of `['a[']'b']` has the name `a[`; the rest holds no `[`. */
  lemma FirstPass()
    ensures NormalizeTranslationKey("['a[']'b']") == ".a['b']"
  {
    var s := "['a[']'b']";
    RunEndFrom(s, 2, 4, Quotes);
    assert s[2..4] == "a[";
    assert BracketSegmentAt(s, 0) == Some((6, "a["));
    NormalizeFromFixed(s, 6);
    assert s[6..] == "'b']";
  }

  /** `.a['b']` ends with a plain segment. */
  lemma SecondPass()
    ensures NormalizeTranslationKey(".a['b']") == ".a.b"
  {
    assert NoBracketQuote(".a");
    NormalizeSegment(".a", '\'', "b", '\'', "");
    assert ".a" + ['[', '\''] + "b" + ['\'', ']'] + "" == ".a['b']";
  }
}
