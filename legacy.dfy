/**
 * The older `cleanupTranslations` of src/index.ts. It shares the usage
 * patterns, the normalisation and the scan loops with the current tool,
 * but flattens every non-string value as an object (so a `null` throws),
 * calls a key unused unless its exact dotted path was found, deletes only
 * the last segment of each unused path and never prunes.
 */
module Legacy {
  import opened Wrappers
  import opened Tree
  import opened TranslationUtils
  import opened Patterns
  import opened FileScanner
  import opened EffectiveUse
  import opened KeyRemoval
  import opened Cleanup

  /*
   * Flattening
   */

  /** A `null` value sits somewhere in the tree. */
  predicate NullIn(es: seq<Entry>) {
    exists i :: 0 <= i < |es| && NullBelow(es[i])
  }

  predicate NullBelow(e: Entry) {
    e.value == Null || (e.value.Group? && NullIn(e.value.entries))
  }

  lemma NullInSnoc(es: seq<Entry>, i: nat)
    requires i < |es|
    ensures NullIn(es[..i + 1]) <==> NullIn(es[..i]) || NullBelow(es[i])
  {
    assert es[..i + 1][i] == es[i];
    assert forall j :: 0 <= j < i ==> es[..i + 1][j] == es[..i][j];
  }

  /** The message of the `TypeError` that `Object.entries(null)` throws. */
  const NullTypeError := "Cannot convert undefined or null to object"

  /**
   * The legacy flattenTranslations: a string is `set` under its path and
   * every other value is flattened as an object and merged in with
   * `forEach`. A number or boolean has no entries; `null` throws, which is
   * None here. Where it does not throw it agrees with the current flatten.
   */
  method LegacyFlatten(obj: seq<Entry>, prefix: string) returns (r: Option<Table>)
    ensures r.None? <==> NullIn(obj)
    ensures r.Some? ==> r.value == Flatten(obj, prefix)
    decreases obj
  {
    var flattened := EmptyTable;
    for i := 0 to |obj|
      invariant flattened.Valid()
      invariant flattened == PutAll(EmptyTable, Leaves(obj[..i], prefix))
      invariant !NullIn(obj[..i])
    {
      var key, value := obj[i].key, obj[i].value;
      var newKey := Join(prefix, key);
      ghost var before := flattened;
      LeavesAppend(obj[..i], [obj[i]], prefix);
      assert obj[..i + 1] == obj[..i] + [obj[i]];
      assert Leaves([obj[i]], prefix) == EntryLeaves(obj[i], prefix);
      PutAllAppend(EmptyTable, Leaves(obj[..i], prefix), EntryLeaves(obj[i], prefix));
      NullInSnoc(obj, i);
      match value {
        case Leaf(s) =>
          flattened := Put(flattened, newKey, s);
        case Group(children) =>
          var nested := LegacyFlatten(children, newKey);
          if nested.None? {
            assert NullBelow(obj[i]);
            return None;
          }
          flattened := SetEach(flattened, nested.value);
          MergeFlattened(before, Leaves(children, newKey));
        case Null =>
          assert NullBelow(obj[i]);
          return None;
        case Scalar =>
      }
    }
    assert obj[..|obj|] == obj;
    return Some(flattened);
  }

  /*
   * Deletion as the code is written
   */

  /**
   * The legacy removeUnusedKeys for one split path: the walk follows the
   * keys while they are defined; where one is missing it stops and the last
   * segment is deleted from the object it stopped at. A walk that enters a
   * string, number or boolean deletes nothing.
   */
  function DeleteAsWritten(es: seq<Entry>, parts: seq<string>): seq<Entry>
    requires parts != []
    decreases |parts|
  {
    if |parts| == 1 then Remove(es, parts[0])
    else
      match Lookup(es, parts[0])
      case None => Remove(es, parts[|parts| - 1])
      case Some(Group(c)) => Update(es, parts[0], Group(DeleteAsWritten(c, parts[1..])))
      case Some(_) => es
  }

  /** The root once the object the deepest frame leads to has become `obj`, every frame assigned in turn. */
  function Refill(stack: seq<Frame>, obj: seq<Entry>): seq<Entry>
    decreases |stack|
  {
    if stack == [] then obj
    else
      var top := stack[|stack| - 1];
      Refill(stack[..|stack| - 1], Update(top.parent, top.key, Group(obj)))
  }

  lemma {:induction false} RefillFront(stack: seq<Frame>, obj: seq<Entry>)
    requires stack != []
    ensures Refill(stack, obj) == Update(stack[0].parent, stack[0].key, Group(Refill(stack[1..], obj)))
    decreases |stack|
  {
    if |stack| > 1 {
      var top := stack[|stack| - 1];
      var init := stack[..|stack| - 1];
      assert init[1..] == stack[1..][..|stack| - 2];
      RefillFront(init, Update(top.parent, top.key, Group(obj)));
    }
  }

  /** Deleting below the object walked to is deleting from the root, through the frames. */
  lemma {:induction false} RefillDelete(root: Node, stack: seq<Frame>, c: seq<Entry>, parts: seq<string>)
    requires |stack| < |parts| && Walked(root, stack, Group(c)) && FollowsPath(stack, parts)
    ensures root.Group?
    ensures DeleteAsWritten(root.entries, parts) == Refill(stack, DeleteAsWritten(c, parts[|stack|..]))
    decreases |stack|
  {
    if stack == [] {
      assert parts[0..] == parts;
    } else {
      var f := stack[0];
      var next := Lookup(f.parent, f.key).value;
      assert parts[1..][|stack| - 1..] == parts[|stack|..];
      RefillDelete(next, stack[1..], c, parts[1..]);
      RefillFront(stack, DeleteAsWritten(c, parts[|stack|..]));
    }
  }

  /** Assigning an object the value it already holds under a distinct key changes nothing. */
  lemma {:induction false} UpdateSame(es: seq<Entry>, k: string, n: Node)
    requires UniqueKeys(es) && Lookup(es, k) == Some(n)
    ensures Update(es, k, n) == es
  {
    if es[0].key == k {
      assert !HasKey(es[1..], k) by {
        forall j | 0 <= j < |es[1..]| ensures es[1..][j].key != k {
          assert es[1..][j] == es[j + 1];
        }
      }
      UpdateAbsent(es[1..], k, n);
    } else {
      assert UniqueKeys(es[1..]) by {
        forall i, j | 0 <= i < j < |es[1..]| ensures es[1..][i].key != es[1..][j].key {
          assert es[1..][i] == es[i + 1] && es[1..][j] == es[j + 1];
        }
      }
      UpdateSame(es[1..], k, n);
    }
  }

  /** A walk that has entered a string, number or boolean leaves a well-formed tree unchanged. */
  lemma {:induction false} DeleteStuck(root: seq<Entry>, stack: seq<Frame>, cur: Node, parts: seq<string>)
    requires WellFormed(Group(root)) && |stack| < |parts|
    requires Walked(Group(root), stack, cur) && FollowsPath(stack, parts) && !cur.Group?
    ensures DeleteAsWritten(root, parts) == root
    decreases |stack|
  {
    var f := stack[0];
    var next := Lookup(f.parent, f.key).value;
    if next.Group? {
      var i :| 0 <= i < |root| && root[i] == Entry(f.key, next);
      assert WellFormed(next);
      assert |stack| > 1;
      DeleteStuck(next.entries, stack[1..], cur, parts[1..]);
      UpdateSame(root, f.key, next);
    }
  }

  /**
   * The legacy removeUnusedKeys for one unused path, as written: walk while
   * the next key is defined, then delete the last segment from wherever the
   * walk stopped if that is an object. The frames carry the changed object
   * back to the root, which the source gets from objects it shares.
   */
  method LegacyRemoveOne(root: seq<Entry>, unusedPath: string) returns (result: seq<Entry>)
    requires WellFormed(Group(root))
    ensures result == DeleteAsWritten(root, Split(unusedPath))
  {
    var parts := Split(unusedPath);
    var current: Node := Group(root);
    var stack: seq<Frame> := [];
    var i := 0;
    while i < |parts| - 1
      invariant 0 <= i <= |parts| - 1 && |stack| == i
      invariant Walked(Group(root), stack, current) && FollowsPath(stack, parts)
    {
      if !current.Group? || Lookup(current.entries, parts[i]).None? {
        break;
      }
      var next := Lookup(current.entries, parts[i]).value;
      WalkedExtend(Group(root), stack, current.entries, parts[i], next);
      FollowsExtend(stack, parts, Frame(current.entries, parts[i]));
      stack := stack + [Frame(current.entries, parts[i])];
      current := next;
      i := i + 1;
    }
    WalkEnd(root, stack, current, parts);
    var lastPart := parts[|parts| - 1];
    if current.Group? {
      result := Refill(stack, Remove(current.entries, lastPart));
    } else {
      result := root;
    }
  }

  /** Where the walk stops, the last segment is deleted from the object reached, if it is one. */
  lemma WalkEnd(root: seq<Entry>, stack: seq<Frame>, cur: Node, parts: seq<string>)
    requires WellFormed(Group(root)) && |stack| < |parts|
    requires Walked(Group(root), stack, cur) && FollowsPath(stack, parts)
    requires |stack| == |parts| - 1 || !cur.Group? || Lookup(cur.entries, parts[|stack|]).None?
    ensures DeleteAsWritten(root, parts)
      == if cur.Group? then Refill(stack, Remove(cur.entries, parts[|parts| - 1])) else root
  {
    if cur.Group? {
      RefillDelete(Group(root), stack, cur.entries, parts);
      var rest := parts[|stack|..];
      assert rest[|rest| - 1] == parts[|parts| - 1];
      assert |rest| > 1 ==> rest[0] == parts[|stack|];
    } else {
      DeleteStuck(root, stack, cur, parts);
    }
  }

  /** The loop over unused paths, as written. */
  function RemoveAllAsWritten(root: seq<Entry>, paths: seq<string>): seq<Entry>
    decreases |paths|
  {
    if paths == [] then root else RemoveAllAsWritten(DeleteAsWritten(root, Split(paths[0])), paths[1..])
  }

  /** `delete` of one key keeps a tree well formed. */
  lemma RemoveWellFormed(es: seq<Entry>, k: string)
    requires WellFormed(Group(es))
    ensures WellFormed(Group(Remove(es, k)))
  {
    RemoveUnique(es, k);
    RemoveEntries(es, k);
  }

  /** The as-written deletion keeps a tree well formed. */
  lemma {:induction false} DeleteAsWrittenWellFormed(es: seq<Entry>, parts: seq<string>)
    requires parts != [] && WellFormed(Group(es))
    ensures WellFormed(Group(DeleteAsWritten(es, parts)))
    decreases |parts|
  {
    if |parts| == 1 {
      RemoveWellFormed(es, parts[0]);
    } else {
      match Lookup(es, parts[0])
      case None =>
        RemoveWellFormed(es, parts[|parts| - 1]);
      case Some(Group(c)) =>
        var i :| 0 <= i < |es| && es[i] == Entry(parts[0], Group(c));
        assert WellFormed(Group(c));
        DeleteAsWrittenWellFormed(c, parts[1..]);
        UpdateWellFormed(es, parts[0], Group(DeleteAsWritten(c, parts[1..])));
      case Some(_) =>
    }
  }

  /** Assigning a well-formed value keeps a tree well formed. */
  lemma UpdateWellFormed(es: seq<Entry>, k: string, n: Node)
    requires WellFormed(Group(es)) && WellFormed(n)
    ensures WellFormed(Group(Update(es, k, n)))
  {
    UpdateEntries(es, k, n);
  }

  /** The legacy removeUnusedKeys, as written. */
  method LegacyRemoveUnusedKeys(obj: seq<Entry>, unusedPaths: seq<string>) returns (result: seq<Entry>)
    requires WellFormed(Group(obj))
    ensures result == RemoveAllAsWritten(obj, unusedPaths)
  {
    result := obj;
    for i := 0 to |unusedPaths|
      invariant WellFormed(Group(result))
      invariant RemoveAllAsWritten(result, unusedPaths[i..]) == RemoveAllAsWritten(obj, unusedPaths)
    {
      assert unusedPaths[i..][1..] == unusedPaths[i + 1..];
      DeleteAsWrittenWellFormed(result, Split(unusedPaths[i]));
      result := LegacyRemoveOne(result, unusedPaths[i]);
    }
    assert unusedPaths[|unusedPaths|..] == [];
  }

  /**
   * A top-level key containing a dot is flattened as itself, but its path
   * splits into segments that do not resolve; the walk stops at the root
   * and deletes the sibling named like the last segment, while the
   * unused key itself stays.
   */
  lemma DeleteAsWrittenHitsSibling()
    ensures Split("a.b") == ["a", "b"]
    ensures DeleteAsWritten([Entry("a.b", Leaf("x")), Entry("b", Leaf("y"))], Split("a.b"))
      == [Entry("a.b", Leaf("x"))]
    ensures Delete([Entry("a.b", Leaf("x")), Entry("b", Leaf("y"))], Split("a.b"))
      == [Entry("a.b", Leaf("x")), Entry("b", Leaf("y"))]
  {
    assert JoinDots(["a", "b"]) == "a.b";
    assert '.' !in "a" && '.' !in "b";
    SplitJoinDots(["a", "b"]);
    var es := [Entry("a.b", Leaf("x")), Entry("b", Leaf("y"))];
    assert Lookup(es, "a") == None;
  }

  /*
   * Deletion as intended
   */

  /**
   * The deletion the legacy code intends: the last segment is deleted from
   * the object the whole path leads to, and nothing happens when it leads
   * nowhere. Objects it empties stay as `{}`.
   */
  function Delete(es: seq<Entry>, parts: seq<string>): seq<Entry>
    requires parts != []
    decreases |parts|
  {
    if |parts| == 1 then Remove(es, parts[0])
    else
      match Lookup(es, parts[0])
      case Some(Group(c)) => Update(es, parts[0], Group(Delete(c, parts[1..])))
      case _ => es
  }

  /** The two agree whenever every segment but the last leads to a value. */
  lemma {:induction false} DeleteAgrees(es: seq<Entry>, parts: seq<string>)
    requires parts != [] && NodeAt(Group(es), parts[..|parts| - 1]).Some?
    ensures DeleteAsWritten(es, parts) == Delete(es, parts)
    decreases |parts|
  {
    if |parts| > 1 {
      var rest := parts[1..];
      assert parts[..|parts| - 1][1..] == rest[..|rest| - 1];
      assert Lookup(es, parts[0]).Some? by {
        assert parts[..|parts| - 1][0] == parts[0];
      }
      match Lookup(es, parts[0])
      case Some(Group(c)) =>
        DeleteAgrees(c, rest);
      case Some(n) =>
      case None =>
    }
  }

  /** The intended deletion takes away exactly the leaves at or below the path. */
  lemma {:induction false} DeleteLeaves(es: seq<Entry>, parts: seq<string>, ps: seq<string>, v: string)
    requires parts != []
    ensures LeafAt(Delete(es, parts), ps, v) <==> LeafAt(es, ps, v) && !(parts <= ps)
    decreases |parts|
  {
    if ps != [] {
      var k := parts[0];
      LeafAtStep(Delete(es, parts), ps, v);
      LeafAtStep(es, ps, v);
      PrefixStep(parts, ps);
      if |parts| == 1 {
        LookupRemove(es, k, ps[0]);
      } else {
        match Lookup(es, k)
        case Some(Group(c)) =>
          LookupUpdate(es, k, Group(Delete(c, parts[1..])), ps[0]);
          if ps[0] == k {
            DeleteLeaves(c, parts[1..], ps[1..], v);
          }
        case _ =>
      }
    }
  }

  /** The intended deletion keeps every value not at or below the path, the objects it empties included. */
  lemma {:induction false} DeleteKeepsPaths(es: seq<Entry>, parts: seq<string>, qs: seq<string>)
    requires parts != []
    ensures NodeAt(Group(Delete(es, parts)), qs).Some? <==> NodeAt(Group(es), qs).Some? && !(parts <= qs)
    decreases |parts|
  {
    if qs != [] {
      var k := parts[0];
      PrefixStep(parts, qs);
      if |parts| == 1 {
        LookupRemove(es, k, qs[0]);
      } else {
        match Lookup(es, k)
        case Some(Group(c)) =>
          var c' := Delete(c, parts[1..]);
          LookupUpdate(es, k, Group(c'), qs[0]);
          if qs[0] == k {
            DeleteKeepsPaths(c, parts[1..], qs[1..]);
          }
        case Some(n) =>
          if qs[0] == k && |parts| <= |qs| {
            assert qs[1..] != [];
          }
        case None =>
      }
    } else {
      assert !(parts <= qs);
    }
  }

  /** Removing `a.b` from `{"a": {"b": "x"}}` leaves `{"a": {}}`. */
  lemma DeleteLeavesEmptyObject()
    ensures Delete([Entry("a", Group([Entry("b", Leaf("x"))]))], ["a", "b"]) == [Entry("a", Group([]))]
  {
    assert Remove([Entry("b", Leaf("x"))], "b") == [];
  }

  /** The loop over unused paths with the intended deletion. */
  function RemoveAll(root: seq<Entry>, paths: seq<string>): seq<Entry>
    decreases |paths|
  {
    if paths == [] then root else RemoveAll(Delete(root, Split(paths[0])), paths[1..])
  }

  /** After all unused paths, a leaf remains iff it lies below none of them. */
  lemma {:induction false} RemoveAllLeaves(root: seq<Entry>, paths: seq<string>, ps: seq<string>, v: string)
    ensures LeafAt(RemoveAll(root, paths), ps, v)
      <==> LeafAt(root, ps, v) && forall j :: 0 <= j < |paths| ==> !(Split(paths[j]) <= ps)
    decreases |paths|
  {
    if paths != [] {
      DeleteLeaves(root, Split(paths[0]), ps, v);
      RemoveAllLeaves(Delete(root, Split(paths[0])), paths[1..], ps, v);
      assert forall j :: 1 <= j < |paths| ==> paths[j] == paths[1..][j - 1];
    }
  }

  /*
   * The legacy run
   */

  /** The run with the intended deletion: the thrown error, or the result and the file-system changes. */
  function LegacyRun(o: Options, d: Disk): (r: Result<Outcome, string>)
    ensures r.Err? <==> o.translationFile !in d.existing || o.srcPath !in d.existing || NullIn(d.translations)
    ensures r.Ok? && r.value.effects != [] ==>
      r.value.effects == Save(o, RemoveAll(d.translations, r.value.result.unusedTranslations))
  {
    if o.translationFile !in d.existing then Err("Translation file not found: " + o.translationFile)
    else if o.srcPath !in d.existing then Err("Source path not found: " + o.srcPath)
    else if NullIn(d.translations) then Err(NullTypeError)
    else
      var all := Flatten(d.translations, "").keys;
      var used := UsedKeys(TranslationPatterns, d.sources);
      var unused := Unused(all, used);
      var write := |unused| > 0 && !o.dryRun;
      var report := CleanupResult(|all|, |used|, used, |unused|, unused, write);
      Ok(Outcome(report, if write then Save(o, RemoveAll(d.translations, unused)) else []))
  }

  /** The legacy run fails when a path is missing, in that order, or when the tree holds a `null`. */
  lemma LegacyErrors(o: Options, d: Disk)
    ensures LegacyRun(o, d).Err? <==>
      o.translationFile !in d.existing || o.srcPath !in d.existing || NullIn(d.translations)
    ensures o.translationFile !in d.existing ==>
      LegacyRun(o, d) == Err("Translation file not found: " + o.translationFile)
    ensures o.translationFile in d.existing && o.srcPath !in d.existing ==>
      LegacyRun(o, d) == Err("Source path not found: " + o.srcPath)
  {
  }

  /** The legacy report: a key is unused iff it is a leaf path and not itself in the used set. */
  lemma LegacyReport(o: Options, d: Disk, k: string)
    requires WellFormed(Group(d.translations)) && LegacyRun(o, d).Ok?
    ensures LegacyRun(o, d).value.result.usedKeysSet == UsedKeys(TranslationPatterns, d.sources)
    ensures LegacyRun(o, d).value.result.usedKeys == |LegacyRun(o, d).value.result.usedKeysSet|
    ensures LegacyRun(o, d).value.result.unusedKeys == |LegacyRun(o, d).value.result.unusedTranslations|
      <= LegacyRun(o, d).value.result.totalKeys
    ensures k in LegacyRun(o, d).value.result.unusedTranslations <==>
      (exists ps, v :: LeafAt(d.translations, ps, v) && JoinFrom("", ps) == k)
      && k !in LegacyRun(o, d).value.result.usedKeysSet
  {
    FlattenKeys(d.translations, "", k);
  }

  /** The legacy run writes, and reports `cleaned`, exactly when something is unused and this is no dry run. */
  lemma LegacyEffects(o: Options, d: Disk)
    requires LegacyRun(o, d).Ok?
    ensures var out := LegacyRun(o, d).value;
      && (out.result.cleaned <==> out.effects != [])
      && (out.result.cleaned <==> out.result.unusedTranslations != [] && !o.dryRun)
      && (out.effects != [] ==>
            |out.effects| == (if o.backup then 2 else 1)
            && (o.backup ==> out.effects[0] == Copy(o.translationFile, o.translationFile + ".backup"))
            && out.effects[|out.effects| - 1].Write? && out.effects[|out.effects| - 1].path == o.translationFile)
  {
  }

  /** Where both runs succeed, the legacy run lists every key the current one lists as unused. */
  lemma LegacyReportsMore(o: Options, d: Disk, k: string)
    requires Run(o, d).Ok? && LegacyRun(o, d).Ok?
    requires k in Run(o, d).value.result.unusedTranslations
    ensures k in LegacyRun(o, d).value.result.unusedTranslations
  {
  }

  /** The tree the legacy run writes keeps a leaf iff no unused path is a prefix of its key path. */
  lemma LegacyLeaves(o: Options, d: Disk, w: seq<Entry>, ps: seq<string>, v: string)
    requires LegacyRun(o, d).Ok? && Write(o.translationFile, w) in LegacyRun(o, d).value.effects
    ensures LeafAt(w, ps, v) <==>
      && LeafAt(d.translations, ps, v)
      && forall j :: 0 <= j < |LegacyRun(o, d).value.result.unusedTranslations| ==>
           !(Split(LegacyRun(o, d).value.result.unusedTranslations[j]) <= ps)
  {
    var unused := LegacyRun(o, d).value.result.unusedTranslations;
    assert w == RemoveAll(d.translations, unused);
    RemoveAllLeaves(d.translations, unused, ps, v);
  }

  /**
   * The finding at the level of the whole run: the tree
   * `{"a.b": "x", "b": "y"}`, with sources that use `b` but not `a.b`
   * (a file holding `t('b')`, say). Only `a.b` is reported unused. The
   * intended deletion writes the tree back unchanged; the deletion as
   * written drops the used key `b` and keeps the unused `a.b`.
   */
  lemma LegacyRunHitsUsedKey(o: Options, d: Disk)
    requires o.translationFile in d.existing && o.srcPath in d.existing && !o.dryRun
    requires d.translations == [Entry("a.b", Leaf("x")), Entry("b", Leaf("y"))]
    requires "b" in UsedKeys(TranslationPatterns, d.sources)
    requires "a.b" !in UsedKeys(TranslationPatterns, d.sources)
    ensures LegacyRun(o, d).Ok?
    ensures LegacyRun(o, d).value.result.unusedTranslations == ["a.b"]
    ensures LegacyRun(o, d).value.effects == Save(o, d.translations)
    ensures RemoveAllAsWritten(d.translations, ["a.b"]) == [Entry("a.b", Leaf("x"))]
  {
    var es := d.translations;
    assert !NullBelow(es[0]) && !NullBelow(es[1]);
    assert !NullIn(es);
    FlattenTwoLeaves();
    var used := UsedKeys(TranslationPatterns, d.sources);
    assert Unused(["a.b", "b"], used) == ["a.b"];
    DeleteAsWrittenHitsSibling();
    assert RemoveAll(es, ["a.b"]) == Delete(es, Split("a.b"));
    assert RemoveAllAsWritten(es, ["a.b"]) == DeleteAsWritten(es, Split("a.b"));
  }

  /** The two top-level leaves flatten to their own keys, in order. */
  lemma FlattenTwoLeaves()
    ensures Flatten([Entry("a.b", Leaf("x")), Entry("b", Leaf("y"))], "").keys == ["a.b", "b"]
  {
    var es := [Entry("a.b", Leaf("x")), Entry("b", Leaf("y"))];
    assert Leaves(es[1..][1..], "") == [];
    assert Leaves(es[1..], "") == [("b", "y")];
    assert Leaves(es, "") == [("a.b", "x"), ("b", "y")];
    var t1 := Put(EmptyTable, "a.b", "x");
    assert t1.keys == ["a.b"] && t1.vals == map["a.b" := "x"];
    assert "b" !in t1.vals;
    var t2 := Put(t1, "b", "y");
    assert t2.keys == ["a.b", "b"];
    assert PutAll(t2, []) == t2;
    assert PutAll(t1, [("b", "y")]) == t2;
  }
}
