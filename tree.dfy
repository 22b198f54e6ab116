/**
 * The parsed translation file (`TranslationObject` of
 * src/translations-cleanup/types.ts) and the object operations the cleanup
 * performs on it: property lookup, `delete`, assignment, and the dotted
 * paths that address leaves.
 */
module Tree {
  import opened Wrappers
  import opened Lex

  /**
   * A JSON value of the translation file: a string leaf, an object (its own
   * properties in `Object.entries` order), `null`, or a number or boolean.
   */
  datatype Node = Leaf(text: string) | Group(entries: seq<Entry>) | Null | Scalar

  /** One own property of an object. */
  datatype Entry = Entry(key: string, value: Node)

  /** A walked step of a deletion: the object visited and the key taken out of it. */
  datatype Frame = Frame(parent: seq<Entry>, key: string)

  predicate HasKey(es: seq<Entry>, k: string) {
    exists i :: 0 <= i < |es| && es[i].key == k
  }

  /** `obj[k]` for an own key: the value of the first entry with that key. */
  function Lookup(es: seq<Entry>, k: string): (r: Option<Node>)
    ensures r.Some? <==> HasKey(es, k)
    ensures r.Some? ==> exists i :: 0 <= i < |es| && es[i] == Entry(k, r.value)
  {
    if es == [] then None
    else if es[0].key == k then Some(es[0].value)
    else
      var r := Lookup(es[1..], k);
      assert HasKey(es[1..], k) ==> HasKey(es, k) by {
        if HasKey(es[1..], k) {
          var i :| 0 <= i < |es[1..]| && es[1..][i].key == k;
          assert es[i + 1].key == k;
        }
      }
      assert r.Some? ==> es[1..][0..] == es[1..];
      r
  }

  /** `delete obj[k]`: the object without its property `k`; no-op when absent. */
  function Remove(es: seq<Entry>, k: string): (r: seq<Entry>)
    ensures |r| <= |es|
  {
    if es == [] then []
    else if es[0].key == k then Remove(es[1..], k)
    else [es[0]] + Remove(es[1..], k)
  }

  /** `obj[k] = n`: every entry named `k` gets the value `n`; keys and order are kept. */
  function Update(es: seq<Entry>, k: string, n: Node): (r: seq<Entry>)
    ensures |r| == |es|
  {
    if es == [] then []
    else [if es[0].key == k then Entry(k, n) else es[0]] + Update(es[1..], k, n)
  }

  /** `delete` takes out every entry named `k` and keeps all others. */
  lemma {:induction false} RemoveEntries(es: seq<Entry>, k: string)
    ensures !HasKey(Remove(es, k), k)
    ensures forall j :: 0 <= j < |Remove(es, k)| ==> Remove(es, k)[j] in es
    ensures forall i :: 0 <= i < |es| && es[i].key != k ==> es[i] in Remove(es, k)
  {
    if es != [] {
      RemoveEntries(es[1..], k);
      var r := Remove(es[1..], k);
      forall j | 0 <= j < |r| ensures r[j] in es {
        assert r[j] in es[1..];
      }
      forall i | 1 <= i < |es| && es[i].key != k ensures es[i] in Remove(es, k) {
        assert es[i] == es[1..][i - 1];
      }
    }
  }

  /** Assignment changes the values of the entries named `k` and nothing else. */
  lemma {:induction false} UpdateEntries(es: seq<Entry>, k: string, n: Node)
    ensures forall i :: 0 <= i < |es| ==> Update(es, k, n)[i] == if es[i].key == k then Entry(k, n) else es[i]
  {
    if es != [] {
      UpdateEntries(es[1..], k, n);
      var r := Update(es[1..], k, n);
      var h := if es[0].key == k then Entry(k, n) else es[0];
      assert Update(es, k, n) == [h] + r;
      forall i | 1 <= i < |es| ensures ([h] + r)[i] == if es[i].key == k then Entry(k, n) else es[i] {
        assert ([h] + r)[i] == r[i - 1] && es[i] == es[1..][i - 1];
      }
    }
  }

  /** `delete` empties an object exactly when every entry has the deleted key. */
  lemma {:induction false} RemoveEmpty(es: seq<Entry>, k: string)
    ensures Remove(es, k) == [] <==> forall i :: 0 <= i < |es| ==> es[i].key == k
  {
    if es != [] {
      RemoveEmpty(es[1..], k);
      assert forall i :: 1 <= i < |es| ==> es[i] == es[1..][i - 1];
    }
  }

  lemma LookupRemove(es: seq<Entry>, k: string, k': string)
    ensures Lookup(Remove(es, k), k') == if k' == k then None else Lookup(es, k')
  {
    if es != [] {
      LookupRemove(es[1..], k, k');
    }
  }

  lemma LookupUpdate(es: seq<Entry>, k: string, n: Node, k': string)
    ensures Lookup(Update(es, k, n), k') == if k' == k && HasKey(es, k) then Some(n) else Lookup(es, k')
  {
    if es != [] {
      LookupUpdate(es[1..], k, n, k');
      assert Update(es, k, n)[1..] == Update(es[1..], k, n);
    }
  }

  lemma {:induction false} LookupAppend(a: seq<Entry>, b: seq<Entry>, k: string)
    ensures Lookup(a + b, k) == if HasKey(a, k) then Lookup(a, k) else Lookup(b, k)
  {
    if a == [] {
      assert a + b == b;
    } else {
      assert (a + b)[1..] == a[1..] + b;
      LookupAppend(a[1..], b, k);
    }
  }

  lemma {:induction false} RemoveAppend(a: seq<Entry>, b: seq<Entry>, k: string)
    ensures Remove(a + b, k) == Remove(a, k) + Remove(b, k)
  {
    if a == [] {
      assert a + b == b;
    } else {
      assert (a + b)[1..] == a[1..] + b;
      RemoveAppend(a[1..], b, k);
    }
  }

  lemma {:induction false} RemoveAbsent(es: seq<Entry>, k: string)
    requires !HasKey(es, k)
    ensures Remove(es, k) == es
  {
    if es != [] {
      assert !HasKey(es[1..], k) by {
        forall i | 0 <= i < |es[1..]| ensures es[1..][i].key != k {
          assert es[1..][i] == es[i + 1];
        }
      }
      RemoveAbsent(es[1..], k);
    }
  }

  lemma {:induction false} UpdateAppend(a: seq<Entry>, b: seq<Entry>, k: string, n: Node)
    ensures Update(a + b, k, n) == Update(a, k, n) + Update(b, k, n)
  {
    if a == [] {
      assert a + b == b;
    } else {
      assert (a + b)[1..] == a[1..] + b;
      UpdateAppend(a[1..], b, k, n);
    }
  }

  lemma {:induction false} UpdateAbsent(es: seq<Entry>, k: string, n: Node)
    requires !HasKey(es, k)
    ensures Update(es, k, n) == es
  {
    if es != [] {
      assert !HasKey(es[1..], k) by {
        forall i | 0 <= i < |es[1..]| ensures es[1..][i].key != k {
          assert es[1..][i] == es[i + 1];
        }
      }
      UpdateAbsent(es[1..], k, n);
    }
  }

  /** The keys of one object are distinct, as they are in any parsed JSON object. */
  predicate UniqueKeys(es: seq<Entry>) {
    forall i, j :: 0 <= i < j < |es| ==> es[i].key != es[j].key
  }

  /** An entry whose key the rest lacks keeps the keys distinct. */
  lemma UniqueCons(e: Entry, r: seq<Entry>)
    requires UniqueKeys(r) && forall j :: 0 <= j < |r| ==> r[j].key != e.key
    ensures UniqueKeys([e] + r)
  {
    var t := [e] + r;
    forall i, j | 0 <= i < j < |t| ensures t[i].key != t[j].key {
      assert t[j] == r[j - 1];
      if i > 0 {
        assert t[i] == r[i - 1];
      }
    }
  }

  /** Every object of the tree has distinct keys. */
  predicate WellFormed(n: Node) {
    n.Group? ==>
      UniqueKeys(n.entries) && forall i :: 0 <= i < |n.entries| ==> WellFormed(n.entries[i].value)
  }

  /** The rest of a well-formed object is well formed. */
  lemma WellFormedTail(es: seq<Entry>)
    requires WellFormed(Group(es)) && es != []
    ensures WellFormed(Group(es[1..]))
  {
    assert forall i :: 0 <= i < |es[1..]| ==> es[1..][i] == es[i + 1];
  }

  /** The value reached from `n` by following the keys `ps`, each an own key of an object. */
  function NodeAt(n: Node, ps: seq<string>): Option<Node>
    decreases ps
  {
    if ps == [] then Some(n)
    else if !n.Group? then None
    else match Lookup(n.entries, ps[0])
      case None => None
      case Some(c) => NodeAt(c, ps[1..])
  }

  /** A string leaf with text `v` sits at path `ps` below the root object `es`. */
  predicate LeafAt(es: seq<Entry>, ps: seq<string>, v: string) {
    ps != [] && NodeAt(Group(es), ps) == Some(Leaf(v))
  }

  /** A value that is not an object (a string, a number, a boolean or `null`) sits at path `ps` below `es`. */
  predicate PlainAt(es: seq<Entry>, ps: seq<string>, n: Node) {
    ps != [] && !n.Group? && NodeAt(Group(es), ps) == Some(n)
  }

  /** A non-object value below an object is one below the value its first key leads to. */
  lemma PlainAtStep(es: seq<Entry>, ps: seq<string>, n: Node)
    requires ps != []
    ensures PlainAt(es, ps, n) <==> match Lookup(es, ps[0])
      case None => false
      case Some(Group(c)) => PlainAt(c, ps[1..], n)
      case Some(m) => ps[1..] == [] && m == n
  {
    match Lookup(es, ps[0])
    case None =>
    case Some(m) =>
      assert NodeAt(Group(es), ps) == NodeAt(m, ps[1..]);
      if ps[1..] == [] {
        assert NodeAt(m, ps[1..]) == Some(m);
      }
  }

  /** A leaf below an object is a leaf below the value its first key leads to. */
  lemma LeafAtStep(es: seq<Entry>, ps: seq<string>, v: string)
    requires ps != []
    ensures LeafAt(es, ps, v) <==> match Lookup(es, ps[0])
      case None => false
      case Some(Group(c)) => LeafAt(c, ps[1..], v)
      case Some(n) => ps[1..] == [] && n == Leaf(v)
  {
    match Lookup(es, ps[0])
    case None =>
    case Some(n) =>
      assert NodeAt(Group(es), ps) == NodeAt(n, ps[1..]);
      if ps[1..] == [] {
        assert NodeAt(n, ps[1..]) == Some(n);
      }
  }

  /** No object-valued entry, at any depth, is empty. */
  predicate NoEmptyGroups(es: seq<Entry>) {
    forall i :: 0 <= i < |es| ==> EntryNonEmpty(es[i])
  }

  predicate EntryNonEmpty(e: Entry) {
    e.value.Group? ==> e.value.entries != [] && NoEmptyGroups(e.value.entries)
  }

  /** A path is a prefix of another iff their heads agree and so do the rests. */
  lemma PrefixStep(parts: seq<string>, ps: seq<string>)
    requires parts != [] && ps != []
    ensures parts <= ps <==> parts[0] == ps[0] && parts[1..] <= ps[1..]
  {
    if |parts| <= |ps| {
      assert ps[..|parts|] == [ps[0]] + ps[1..][..|parts| - 1];
      assert parts == [parts[0]] + parts[1..];
    }
  }

  /** Every key at every depth is non-empty and holds no `.`, so a leaf's dotted path spells its key path. */
  predicate SimpleKeys(n: Node) {
    n.Group? ==>
      forall i :: 0 <= i < |n.entries| ==>
        n.entries[i].key != "" && '.' !in n.entries[i].key && SimpleKeys(n.entries[i].value)
  }

  /** The keys on the path to a leaf of a tree with simple keys are simple. */
  lemma {:induction false} LeafPathSimple(es: seq<Entry>, ps: seq<string>, v: string)
    requires SimpleKeys(Group(es)) && LeafAt(es, ps, v)
    ensures forall i :: 0 <= i < |ps| ==> ps[i] != "" && '.' !in ps[i]
    decreases ps
  {
    LeafAtStep(es, ps, v);
    var n := Lookup(es, ps[0]).value;
    var i :| 0 <= i < |es| && es[i] == Entry(ps[0], n);
    if n.Group? {
      LeafPathSimple(n.entries, ps[1..], v);
      assert forall j :: 1 <= j < |ps| ==> ps[j] == ps[1..][j - 1];
    }
  }

  /** No leaf lies below another leaf: a leaf path that is a prefix of one is that path. */
  lemma {:induction false} LeafPrefix(es: seq<Entry>, qs: seq<string>, v: string, ps: seq<string>, w: string)
    requires LeafAt(es, qs, v) && LeafAt(es, ps, w) && qs <= ps
    ensures qs == ps
    decreases qs
  {
    PrefixStep(qs, ps);
    LeafAtStep(es, qs, v);
    LeafAtStep(es, ps, w);
    var n := Lookup(es, qs[0]).value;
    if n.Group? {
      LeafPrefix(n.entries, qs[1..], v, ps[1..], w);
    }
    assert qs == [qs[0]] + qs[1..] && ps == [ps[0]] + ps[1..];
  }

  /** Segments joined by `.`; the inverse of `Split`. */
  function JoinDots(ps: seq<string>): string
    requires |ps| >= 1
  {
    if |ps| == 1 then ps[0] else ps[0] + "." + JoinDots(ps[1..])
  }

  /** `s.split('.')`: the segments between dots, empty ones included. */
  function Split(s: string): (ps: seq<string>)
    ensures |ps| >= 1
    ensures JoinDots(ps) == s
    ensures forall i :: 0 <= i < |ps| ==> '.' !in ps[i]
    decreases |s|
  {
    IndexFromFirst(s, 0, '.');
    match IndexFrom(s, 0, '.')
    case None => [s]
    case Some(i) =>
      var rest := Split(s[i + 1..]);
      assert s == s[..i] + "." + s[i + 1..];
      [s[..i]] + rest
  }

  /** Splitting a `.`-joined path whose segments hold no dot gives the segments back. */
  lemma {:induction false} SplitJoinDots(ps: seq<string>)
    requires |ps| >= 1
    requires forall i :: 0 <= i < |ps| ==> '.' !in ps[i]
    ensures Split(JoinDots(ps)) == ps
  {
    if |ps| == 1 {
      assert forall k :: 0 <= k < |ps[0]| ==> ps[0][k] != '.';
    } else {
      var s := JoinDots(ps);
      var rest := JoinDots(ps[1..]);
      assert s == ps[0] + "." + rest;
      assert forall k :: 0 <= k < |ps[0]| ==> s[k] == ps[0][k] && s[k] != '.';
      assert s[|ps[0]|] == '.';
      IndexFromFound(s, 0, |ps[0]|, '.');
      assert s[..|ps[0]|] == ps[0];
      assert s[|ps[0]| + 1..] == rest;
      SplitJoinDots(ps[1..]);
      assert ps == [ps[0]] + ps[1..];
    }
  }
}
