/**
 * `pruneEmptyObjects` of src/translations-cleanup/index.ts (lines 71-82):
 * depth first, every object-valued property is pruned and then deleted
 * when the object has no keys left. Strings, numbers, booleans and nulls
 * are kept.
 */
module Pruning {
  import opened Wrappers
  import opened Tree

  /** One property after pruning: gone when it is an object that prunes to nothing. */
  function PruneEntry(e: Entry): seq<Entry> {
    match e.value
    case Group(c) => if Prune(c) == [] then [] else [Entry(e.key, Group(Prune(c)))]
    case _ => [e]
  }

  /** The object after pruning, its properties in their original order. */
  function Prune(es: seq<Entry>): seq<Entry> {
    if es == [] then [] else PruneEntry(es[0]) + Prune(es[1..])
  }

  lemma {:induction false} PruneAppend(a: seq<Entry>, b: seq<Entry>)
    ensures Prune(a + b) == Prune(a) + Prune(b)
  {
    if a == [] {
      assert a + b == b;
    } else {
      assert (a + b)[0] == a[0] && (a + b)[1..] == a[1..] + b;
      PruneAppend(a[1..], b);
    }
  }

  /** Pruning keeps only keys the object had. */
  lemma {:induction false} PruneKeys(es: seq<Entry>, k: string)
    ensures HasKey(Prune(es), k) ==> HasKey(es, k)
  {
    if es != [] {
      PruneKeys(es[1..], k);
      var h := PruneEntry(es[0]);
      if HasKey(Prune(es), k) {
        var i :| 0 <= i < |Prune(es)| && Prune(es)[i].key == k;
        if i < |h| {
          assert es[0].key == k;
        } else {
          assert (h + Prune(es[1..]))[i] == Prune(es[1..])[i - |h|];
          var j :| 0 <= j < |es[1..]| && es[1..][j].key == k;
          assert es[j + 1].key == k;
        }
      }
    }
  }

  /** After pruning no object, at any depth, is empty. */
  lemma {:induction false} PruneNoEmpty(es: seq<Entry>)
    ensures NoEmptyGroups(Prune(es))
  {
    if es != [] {
      PruneNoEmpty(es[1..]);
      if es[0].value.Group? {
        PruneNoEmpty(es[0].value.entries);
      }
      var h := PruneEntry(es[0]);
      var t := Prune(es[1..]);
      forall i | 0 <= i < |h + t| ensures EntryNonEmpty((h + t)[i]) {
        if i >= |h| {
          assert (h + t)[i] == t[i - |h|];
        }
      }
    }
  }

  /** A tree without empty objects is left as it is. */
  lemma {:induction false} PruneFixed(es: seq<Entry>)
    requires NoEmptyGroups(es)
    ensures Prune(es) == es
  {
    if es != [] {
      assert NoEmptyGroups(es[1..]) by {
        forall i | 0 <= i < |es[1..]| ensures EntryNonEmpty(es[1..][i]) {
          assert es[1..][i] == es[i + 1];
        }
      }
      PruneFixed(es[1..]);
      assert EntryNonEmpty(es[0]);
      if es[0].value.Group? {
        PruneFixed(es[0].value.entries);
      }
      assert es == [es[0]] + es[1..];
    }
  }

  /** Pruning changes a tree exactly when it holds an empty object somewhere. */
  lemma PruneChanges(es: seq<Entry>)
    ensures Prune(es) == es <==> NoEmptyGroups(es)
  {
    PruneNoEmpty(es);
    if NoEmptyGroups(es) {
      PruneFixed(es);
    }
  }

  /** Pruning twice is pruning once. */
  lemma PruneIdempotent(es: seq<Entry>)
    ensures Prune(Prune(es)) == Prune(es)
  {
    PruneNoEmpty(es);
    PruneFixed(Prune(es));
  }

  /** The entries of an object that prunes to nothing are objects that prune to nothing. */
  lemma {:induction false} PruneEmptyEntries(es: seq<Entry>, i: nat)
    requires i < |es| && Prune(es) == []
    ensures es[i].value.Group? && Prune(es[i].value.entries) == []
  {
    if i > 0 {
      assert es[1..][i - 1] == es[i];
      PruneEmptyEntries(es[1..], i - 1);
    }
  }

  /** An object that prunes to nothing holds no string, number, boolean or `null` at any depth. */
  lemma {:induction false} PruneEmptyNoValues(es: seq<Entry>, ps: seq<string>, n: Node)
    requires Prune(es) == []
    ensures !PlainAt(es, ps, n)
    decreases es
  {
    if ps != [] && HasKey(es, ps[0]) {
      PlainAtStep(es, ps, n);
      var i :| 0 <= i < |es| && es[i] == Entry(ps[0], Lookup(es, ps[0]).value);
      PruneEmptyEntries(es, i);
      PruneEmptyNoValues(es[i].value.entries, ps[1..], n);
    }
  }

  /** In an object with distinct keys, each key leads to the pruned value or is gone. */
  lemma {:induction false} PruneLookup(es: seq<Entry>, k: string)
    requires UniqueKeys(es)
    ensures Lookup(Prune(es), k) == match Lookup(es, k)
      case Some(Group(c)) => if Prune(c) == [] then None else Some(Group(Prune(c)))
      case other => other
  {
    if es != [] {
      assert UniqueKeys(es[1..]) by {
        forall i, j | 0 <= i < j < |es[1..]| ensures es[1..][i].key != es[1..][j].key {
          assert es[1..][i] == es[i + 1] && es[1..][j] == es[j + 1];
        }
      }
      PruneLookup(es[1..], k);
      var h := PruneEntry(es[0]);
      LookupAppend(h, Prune(es[1..]), k);
      if es[0].key == k {
        assert !HasKey(es[1..], k) by {
          forall j | 0 <= j < |es[1..]| ensures es[1..][j].key != k {
            assert es[1..][j] == es[j + 1];
          }
        }
        PruneKeys(es[1..], k);
      }
    }
  }

  /** Pruning keeps a well-formed tree well formed. */
  lemma {:induction false} PruneWellFormed(es: seq<Entry>)
    requires WellFormed(Group(es))
    ensures WellFormed(Group(Prune(es)))
  {
    if es != [] {
      WellFormedTail(es);
      PruneWellFormed(es[1..]);
      var h := PruneEntry(es[0]);
      var t := Prune(es[1..]);
      if es[0].value.Group? {
        PruneWellFormed(es[0].value.entries);
      }
      assert WellFormed(Group(h));
      assert !HasKey(es[1..], es[0].key) by {
        forall m | 0 <= m < |es[1..]| ensures es[1..][m].key != es[0].key {
          assert es[1..][m] == es[m + 1];
        }
      }
      forall j | 0 <= j < |t| ensures t[j].key != es[0].key {
        assert HasKey(t, t[j].key);
        PruneKeys(es[1..], t[j].key);
      }
      if h != [] {
        UniqueCons(h[0], t);
        assert h + t == [h[0]] + t;
      }
      assert WellFormed(Group(h + t)) by {
        forall i | 0 <= i < |h + t| ensures WellFormed((h + t)[i].value) {
          if i >= |h| {
            assert (h + t)[i] == t[i - |h|];
          }
        }
      }
    }
  }

  /** Pruning a well-formed tree keeps exactly its strings, numbers, booleans and nulls. */
  lemma {:induction false} PruneValues(es: seq<Entry>, ps: seq<string>, n: Node)
    requires WellFormed(Group(es))
    ensures PlainAt(Prune(es), ps, n) <==> PlainAt(es, ps, n)
    decreases ps
  {
    if ps != [] {
      PlainAtStep(es, ps, n);
      PlainAtStep(Prune(es), ps, n);
      PruneLookup(es, ps[0]);
      match Lookup(es, ps[0])
      case Some(Group(c)) =>
        var i :| 0 <= i < |es| && es[i] == Entry(ps[0], Group(c));
        assert WellFormed(Group(c));
        if Prune(c) == [] {
          PruneEmptyNoValues(c, ps[1..], n);
        } else {
          PruneValues(c, ps[1..], n);
        }
      case _ =>
    }
  }

  /**
   * pruneEmptyObjects on one object, over the snapshot its `Object.keys`
   * gives: each object-valued property is pruned in turn and deleted when
   * it is left without keys.
   */
  method PruneEmptyObjects(obj: seq<Entry>) returns (result: seq<Entry>)
    requires WellFormed(Group(obj))
    ensures result == Prune(obj)
    decreases obj
  {
    result := obj;
    var keys := seq(|obj|, j requires 0 <= j < |obj| => obj[j].key);
    for i := 0 to |keys|
      invariant result == Prune(obj[..i]) + obj[i..]
    {
      var key := keys[i];
      PruneStepLookup(obj, i);
      var val := Lookup(result, key);
      if val.Some? && val.value.Group? {
        assert WellFormed(Group(val.value.entries));
        var pruned := PruneEmptyObjects(val.value.entries);
        if pruned == [] {
          PruneStepRemove(obj, i);
          result := Remove(result, key);
        } else {
          PruneStepUpdate(obj, i, pruned);
          result := Update(result, key, Group(pruned));
        }
      } else {
        PruneStepKeep(obj, i);
      }
    }
    assert obj[..|obj|] == obj;
  }

  /** The pruned part before `i` holds none of the keys from `i` on. */
  lemma PruneStepAbsent(obj: seq<Entry>, i: nat, k: string)
    requires WellFormed(Group(obj)) && i < |obj|
    requires exists j :: i <= j < |obj| && obj[j].key == k
    ensures !HasKey(Prune(obj[..i]), k)
  {
    PruneKeys(obj[..i], k);
    var j :| i <= j < |obj| && obj[j].key == k;
    forall m | 0 <= m < |obj[..i]| ensures obj[..i][m].key != k {
      assert obj[..i][m] == obj[m];
    }
  }

  /** The loop reads the original value of the `i`th key. */
  lemma PruneStepLookup(obj: seq<Entry>, i: nat)
    requires WellFormed(Group(obj)) && i < |obj|
    ensures Lookup(Prune(obj[..i]) + obj[i..], obj[i].key) == Some(obj[i].value)
  {
    PruneStepAbsent(obj, i, obj[i].key);
    LookupAppend(Prune(obj[..i]), obj[i..], obj[i].key);
  }

  /** The rest after `i` holds none of the `i`th key. */
  lemma RestAbsent(obj: seq<Entry>, i: nat)
    requires WellFormed(Group(obj)) && i < |obj|
    ensures !HasKey(obj[i + 1..], obj[i].key)
  {
    var rest := obj[i + 1..];
    forall m | 0 <= m < |rest| ensures rest[m].key != obj[i].key {
      assert rest[m] == obj[i + 1 + m];
    }
  }

  lemma PruneStepRemove(obj: seq<Entry>, i: nat)
    requires WellFormed(Group(obj)) && i < |obj|
    requires obj[i].value.Group? && Prune(obj[i].value.entries) == []
    ensures Remove(Prune(obj[..i]) + obj[i..], obj[i].key) == Prune(obj[..i + 1]) + obj[i + 1..]
  {
    PruneStepAbsent(obj, i, obj[i].key);
    RestAbsent(obj, i);
    assert obj[i..] == [obj[i]] + obj[i + 1..];
    RemoveMiddle(Prune(obj[..i]), obj[i], obj[i + 1..]);
    PruneOne(obj, i);
  }

  /** Deleting the one entry named `e.key` from between two parts without it. */
  lemma RemoveMiddle(done: seq<Entry>, e: Entry, rest: seq<Entry>)
    requires !HasKey(done, e.key) && !HasKey(rest, e.key)
    ensures Remove(done + ([e] + rest), e.key) == done + rest
  {
    var k := e.key;
    RemoveAppend(done, [e] + rest, k);
    RemoveAppend([e], rest, k);
    RemoveAbsent(done, k);
    RemoveAbsent(rest, k);
    assert Remove([e], k) == [] by {
      assert [e][1..] == [];
    }
  }

  /** Assigning the one entry named `e.key` between two parts without it. */
  lemma UpdateMiddle(done: seq<Entry>, e: Entry, rest: seq<Entry>, n: Node)
    requires !HasKey(done, e.key) && !HasKey(rest, e.key)
    ensures Update(done + ([e] + rest), e.key, n) == done + ([Entry(e.key, n)] + rest)
  {
    var k := e.key;
    UpdateAppend(done, [e] + rest, k, n);
    UpdateAppend([e], rest, k, n);
    UpdateAbsent(done, k, n);
    UpdateAbsent(rest, k, n);
  }

  /** The pruned part grows by the pruned `i`th entry. */
  lemma PruneOne(obj: seq<Entry>, i: nat)
    requires i < |obj|
    ensures Prune(obj[..i + 1]) == Prune(obj[..i]) + PruneEntry(obj[i])
  {
    assert obj[..i + 1] == obj[..i] + [obj[i]];
    PruneAppend(obj[..i], [obj[i]]);
    assert Prune([obj[i]]) == PruneEntry(obj[i]) + Prune([]);
  }

  lemma PruneStepUpdate(obj: seq<Entry>, i: nat, pruned: seq<Entry>)
    requires WellFormed(Group(obj)) && i < |obj|
    requires obj[i].value.Group? && pruned == Prune(obj[i].value.entries) && pruned != []
    ensures Update(Prune(obj[..i]) + obj[i..], obj[i].key, Group(pruned)) == Prune(obj[..i + 1]) + obj[i + 1..]
  {
    PruneStepAbsent(obj, i, obj[i].key);
    RestAbsent(obj, i);
    assert obj[i..] == [obj[i]] + obj[i + 1..];
    UpdateMiddle(Prune(obj[..i]), obj[i], obj[i + 1..], Group(pruned));
    PruneOne(obj, i);
  }

  lemma PruneStepKeep(obj: seq<Entry>, i: nat)
    requires i < |obj| && !obj[i].value.Group?
    ensures Prune(obj[..i]) + obj[i..] == Prune(obj[..i + 1]) + obj[i + 1..]
  {
    assert obj[i..] == [obj[i]] + obj[i + 1..];
    PruneOne(obj, i);
  }
}
