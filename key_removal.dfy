/**
 * `removeUnusedKeys` of src/translations-cleanup/index.ts (lines 86-122):
 * each unused dotted path is split at `.`, walked down from the root while
 * the keys exist, its last segment is deleted from the object reached, and
 * every ancestor the deletion leaves empty is deleted from its own parent,
 * innermost first.
 */
module KeyRemoval {
  import opened Wrappers
  import opened Tree

  /**
   * After `child` is what remains of `parent[key]`: an empty child is
   * deleted from the parent, any other is what the parent now holds.
   */
  function Unwind(parent: seq<Entry>, key: string, child: seq<Entry>): seq<Entry> {
    if child == [] then Remove(parent, key) else Update(parent, key, Group(child))
  }

  /**
   * The object `es` after deleting the path `parts` below it, or None when
   * the path does not reach an own key of an object (then nothing changes).
   */
  function Del(es: seq<Entry>, parts: seq<string>): Option<seq<Entry>>
    requires parts != []
    decreases |parts|
  {
    if |parts| == 1 then
      if HasKey(es, parts[0]) then Some(Remove(es, parts[0])) else None
    else
      match Lookup(es, parts[0])
      case Some(Group(c)) =>
        (match Del(c, parts[1..])
         case Some(c') => Some(Unwind(es, parts[0], c'))
         case None => None)
      case _ => None
  }

  /** One iteration of the loop over unused paths. */
  function RemovePath(root: seq<Entry>, path: string): seq<Entry> {
    match Del(root, Split(path))
    case Some(r) => r
    case None => root
  }

  /** The loop over unused paths, each applied to the result of the ones before. */
  function RemoveAll(root: seq<Entry>, paths: seq<string>): seq<Entry>
    decreases |paths|
  {
    if paths == [] then root else RemoveAll(RemovePath(root, paths[0]), paths[1..])
  }

  /** The path reaches an object holding its last segment as an own key. */
  predicate Resolves(es: seq<Entry>, parts: seq<string>)
    requires parts != []
  {
    match NodeAt(Group(es), parts[..|parts| - 1])
    case Some(Group(c)) => HasKey(c, parts[|parts| - 1])
    case _ => false
  }

  /*
   * The imperative walk
   */

  /**
   * The root once the object the deepest frame leads to has become `obj`:
   * the source mutates objects shared with the tree, here each remaining
   * frame takes the changed child back.
   */
  function Lift(stack: seq<Frame>, obj: seq<Entry>): seq<Entry>
    decreases |stack|
  {
    if stack == [] then obj
    else
      var top := stack[|stack| - 1];
      Lift(stack[..|stack| - 1], Unwind(top.parent, top.key, obj))
  }

  function LiftOpt(stack: seq<Frame>, obj: Option<seq<Entry>>): Option<seq<Entry>> {
    match obj
    case Some(o) => Some(Lift(stack, o))
    case None => None
  }

  /** Deleting a path below a visited value: only an object can hold it. */
  function DelBelow(n: Node, parts: seq<string>): Option<seq<Entry>>
    requires parts != []
  {
    if n.Group? then Del(n.entries, parts) else None
  }

  /**
   * The frames are the objects visited from `root`, each with the own key
   * followed out of it, and `cur` is the value reached.
   */
  predicate Walked(root: Node, stack: seq<Frame>, cur: Node)
    decreases |stack|
  {
    if stack == [] then cur == root
    else
      root == Group(stack[0].parent) && Lookup(stack[0].parent, stack[0].key).Some?
      && Walked(Lookup(stack[0].parent, stack[0].key).value, stack[1..], cur)
  }

  /** The frames took the first keys of `parts`, in order. */
  predicate FollowsPath(stack: seq<Frame>, parts: seq<string>) {
    |stack| <= |parts| && forall j :: 0 <= j < |stack| ==> stack[j].key == parts[j]
  }

  lemma FollowsExtend(stack: seq<Frame>, parts: seq<string>, f: Frame)
    requires FollowsPath(stack, parts) && |stack| < |parts| && f.key == parts[|stack|]
    ensures FollowsPath(stack + [f], parts)
  {
  }

  /** Unwinding from the outermost frame: the inverse view of `Lift`. */
  lemma {:induction false} LiftFront(stack: seq<Frame>, obj: seq<Entry>)
    requires stack != []
    ensures Lift(stack, obj) == Unwind(stack[0].parent, stack[0].key, Lift(stack[1..], obj))
    decreases |stack|
  {
    if |stack| > 1 {
      var top := stack[|stack| - 1];
      var init := stack[..|stack| - 1];
      assert init[1..] == stack[1..][..|stack| - 2];
      LiftFront(init, Unwind(top.parent, top.key, obj));
    }
  }

  /** A step of the walk extends the frames by the object left and the key taken. */
  lemma {:induction false} WalkedExtend(root: Node, stack: seq<Frame>, c: seq<Entry>, k: string, n: Node)
    requires Walked(root, stack, Group(c)) && Lookup(c, k) == Some(n)
    ensures Walked(root, stack + [Frame(c, k)], n)
    decreases |stack|
  {
    if stack != [] {
      var next := Lookup(stack[0].parent, stack[0].key).value;
      WalkedExtend(next, stack[1..], c, k, n);
      assert (stack + [Frame(c, k)])[1..] == stack[1..] + [Frame(c, k)];
    }
  }

  /** Deleting a longer path is deleting its rest below the value its first key leads to. */
  lemma DelHead(es: seq<Entry>, parts: seq<string>, n: Node)
    requires |parts| >= 2 && Lookup(es, parts[0]) == Some(n)
    ensures Del(es, parts) == match DelBelow(n, parts[1..])
      case Some(c') => Some(Unwind(es, parts[0], c'))
      case None => None
  {
  }

  /** Deleting `parts` from the root is deleting its rest below the value walked to, lifted through the frames. */
  lemma {:induction false} DelLift(root: Node, stack: seq<Frame>, cur: Node, parts: seq<string>)
    requires |stack| < |parts| && Walked(root, stack, cur) && FollowsPath(stack, parts)
    ensures DelBelow(root, parts) == LiftOpt(stack, DelBelow(cur, parts[|stack|..]))
    decreases |stack|
  {
    if stack == [] {
      assert parts[0..] == parts;
    } else {
      var f := stack[0];
      var next := Lookup(f.parent, f.key).value;
      assert parts[1..][|stack| - 1..] == parts[|stack|..];
      DelLift(next, stack[1..], cur, parts[1..]);
      DelHead(f.parent, parts, next);
      var below := DelBelow(cur, parts[|stack|..]);
      assert DelBelow(root, parts) == Del(f.parent, parts);
      if below.Some? {
        LiftFront(stack, below.value);
        assert DelBelow(next, parts[1..]) == Some(Lift(stack[1..], below.value));
      } else {
        assert DelBelow(next, parts[1..]) == None;
      }
    }
  }

  /**
   * removeUnusedKeys for one unused path: walk to the parent of the last
   * segment keeping a stack of frames, delete the own key, then delete the
   * parents the deletion empties.
   */
  method RemoveOne(root: seq<Entry>, unusedPath: string) returns (result: seq<Entry>)
    ensures result == RemovePath(root, unusedPath)
  {
    var parts := Split(unusedPath);
    var current: Option<Node> := Some(Group(root));
    var stack: seq<Frame> := [];
    var i := 0;
    while i < |parts| - 1
      invariant 0 <= i <= |parts| - 1 && |stack| == i
      invariant current.Some? && Walked(Group(root), stack, current.value) && FollowsPath(stack, parts)
    {
      var key := parts[i];
      if !current.value.Group? || Lookup(current.value.entries, key).None? {
        DelLift(Group(root), stack, current.value, parts);
        assert parts[i..][0] == key;
        current := None;
        break;
      }
      var next := Lookup(current.value.entries, key).value;
      WalkedExtend(Group(root), stack, current.value.entries, key, next);
      FollowsExtend(stack, parts, Frame(current.value.entries, key));
      stack := stack + [Frame(current.value.entries, key)];
      current := Some(next);
      i := i + 1;
    }
    var lastPart := parts[|parts| - 1];
    if current.Some? {
      DelLift(Group(root), stack, current.value, parts);
      assert parts[|stack|..] == [lastPart];
    }
    if current.Some? && current.value.Group? && HasKey(current.value.entries, lastPart) {
      var obj := Remove(current.value.entries, lastPart);
      ghost var walked := stack;
      while |stack| > 0 && obj == []
        invariant Lift(stack, obj) == Lift(walked, Remove(current.value.entries, lastPart))
        decreases |stack|
      {
        var frame := stack[|stack| - 1];
        stack := stack[..|stack| - 1];
        obj := Remove(frame.parent, frame.key);
      }
      result := Lift(stack, obj);
    } else {
      result := root;
    }
  }

  /** removeUnusedKeys: every unused path in turn, on the result of the ones before. */
  method RemoveUnusedKeys(obj: seq<Entry>, unusedPaths: seq<string>) returns (result: seq<Entry>)
    ensures result == RemoveAll(obj, unusedPaths)
  {
    result := obj;
    for i := 0 to |unusedPaths|
      invariant RemoveAll(result, unusedPaths[i..]) == RemoveAll(obj, unusedPaths)
    {
      assert unusedPaths[i..][1..] == unusedPaths[i + 1..];
      result := RemoveOne(result, unusedPaths[i]);
    }
    assert unusedPaths[|unusedPaths|..] == [];
  }

  /*
   * What a deletion does
   */

  /** A deletion happens exactly when the path reaches an own key of an object. */
  lemma {:induction false} DelResolves(es: seq<Entry>, parts: seq<string>)
    requires parts != []
    ensures Del(es, parts).Some? <==> Resolves(es, parts)
    decreases |parts|
  {
    if |parts| == 1 {
      assert parts[..0] == [];
    } else {
      var rest := parts[1..];
      assert parts[..|parts| - 1][1..] == rest[..|rest| - 1];
      assert parts[|parts| - 1] == rest[|rest| - 1];
      match Lookup(es, parts[0])
      case Some(Group(c)) =>
        DelResolves(c, rest);
        if |rest| == 1 {
          assert rest[..0] == [];
        }
      case Some(n) =>
        assert NodeAt(Group(es), parts[..|parts| - 1]) == NodeAt(n, rest[..|rest| - 1]);
        if |rest| == 1 {
          assert rest[..0] == [];
        }
      case None =>
    }
  }

  /** What the parent holds under each key once `Unwind` has put the child back. */
  lemma UnwindLookup(es: seq<Entry>, k: string, child: seq<Entry>, k': string)
    ensures Lookup(Unwind(es, k, child), k') ==
      if k' != k then Lookup(es, k')
      else if child == [] || !HasKey(es, k) then None
      else Some(Group(child))
  {
    LookupRemove(es, k, k');
    LookupUpdate(es, k, Group(child), k');
  }

  /**
   * The non-object values after a deletion (strings, numbers, booleans,
   * nulls) are those before it, except the ones at or below the path.
   */
  lemma {:induction false} DelValues(es: seq<Entry>, parts: seq<string>, ps: seq<string>, n: Node)
    requires parts != [] && Del(es, parts).Some?
    ensures PlainAt(Del(es, parts).value, ps, n) <==> PlainAt(es, ps, n) && !(parts <= ps)
    decreases |parts|
  {
    if ps != [] {
      var k := parts[0];
      var r := Del(es, parts).value;
      PlainAtStep(r, ps, n);
      PlainAtStep(es, ps, n);
      PrefixStep(parts, ps);
      if |parts| == 1 {
        LookupRemove(es, k, ps[0]);
      } else {
        var c := Lookup(es, k).value.entries;
        var c' := Del(c, parts[1..]).value;
        UnwindLookup(es, k, c', ps[0]);
        if ps[0] == k {
          DelValues(c, parts[1..], ps[1..], n);
        }
      }
    }
  }

  /** A path that leads to or through any value of the tree always resolves. */
  lemma {:induction false} DelUnderNode(es: seq<Entry>, parts: seq<string>, ps: seq<string>)
    requires parts != [] && parts <= ps && NodeAt(Group(es), ps).Some?
    ensures Del(es, parts).Some?
    decreases |parts|
  {
    PrefixStep(parts, ps);
    var m := Lookup(es, ps[0]).value;
    assert NodeAt(Group(es), ps) == NodeAt(m, ps[1..]);
    if |parts| > 1 {
      DelUnderNode(m.entries, parts[1..], ps[1..]);
    }
  }

  /**
   * Whatever lies neither on nor below the deleted path is left exactly as
   * it was: siblings of every kind, empty objects included.
   */
  lemma {:induction false} DelOffPath(es: seq<Entry>, parts: seq<string>, qs: seq<string>)
    requires parts != [] && Del(es, parts).Some?
    requires !(parts <= qs) && !(qs <= parts)
    ensures NodeAt(Group(Del(es, parts).value), qs) == NodeAt(Group(es), qs)
    decreases |parts|
  {
    var k := parts[0];
    assert qs != [];
    PrefixStep(parts, qs);
    PrefixStep(qs, parts);
    if |parts| == 1 {
      LookupRemove(es, k, qs[0]);
    } else {
      var c := Lookup(es, k).value.entries;
      var c' := Del(c, parts[1..]).value;
      UnwindLookup(es, k, c', qs[0]);
      if qs[0] == k {
        assert qs[1..] != [];
        DelOffPath(c, parts[1..], qs[1..]);
      }
    }
  }

  /** Nothing is left at or below the deleted path. */
  lemma {:induction false} DelGone(es: seq<Entry>, parts: seq<string>, qs: seq<string>)
    requires parts != [] && Del(es, parts).Some? && parts <= qs
    ensures NodeAt(Group(Del(es, parts).value), qs) == None
    decreases |parts|
  {
    var k := parts[0];
    PrefixStep(parts, qs);
    if |parts| == 1 {
      LookupRemove(es, k, k);
    } else {
      var c := Lookup(es, k).value.entries;
      var c' := Del(c, parts[1..]).value;
      UnwindLookup(es, k, c', k);
      if c' != [] {
        DelGone(c, parts[1..], qs[1..]);
      }
    }
  }

  /**
   * Every object the path `rest` leads through from `es`, `es` included,
   * holds only the key the path follows out of it.
   */
  predicate SoleChain(es: seq<Entry>, rest: seq<string>)
    requires rest != []
    decreases |rest|
  {
    && (forall i :: 0 <= i < |es| ==> es[i].key == rest[0])
    && (|rest| > 1 ==> match Lookup(es, rest[0])
         case Some(Group(c)) => SoleChain(c, rest[1..])
         case _ => false)
  }

  /** A deletion empties the object it starts from exactly when the chain below holds nothing else. */
  lemma {:induction false} DelEmpties(es: seq<Entry>, parts: seq<string>)
    requires parts != [] && Del(es, parts).Some?
    ensures Del(es, parts).value == [] <==> SoleChain(es, parts)
    decreases |parts|
  {
    var k := parts[0];
    RemoveEmpty(es, k);
    if |parts| > 1 {
      var c := Lookup(es, k).value.entries;
      DelEmpties(c, parts[1..]);
      var c' := Del(c, parts[1..]).value;
      if c' != [] {
        assert |Update(es, k, Group(c'))| == |es| > 0;
      }
    }
  }

  /**
   * The unwind stops at the first ancestor that holds anything besides the
   * path: the ancestor `parts[..j]` is deleted exactly when every object
   * from it down held only the key the path follows, and otherwise it holds
   * what the deletion left of it.
   */
  lemma {:induction false} DelAncestor(es: seq<Entry>, parts: seq<string>, j: nat)
    requires parts != [] && Del(es, parts).Some? && 0 < j < |parts|
    ensures NodeAt(Group(es), parts[..j]).Some? && NodeAt(Group(es), parts[..j]).value.Group?
    ensures var c := NodeAt(Group(es), parts[..j]).value.entries;
      && Del(c, parts[j..]).Some?
      && NodeAt(Group(Del(es, parts).value), parts[..j]) ==
           if SoleChain(c, parts[j..]) then None else Some(Group(Del(c, parts[j..]).value))
    decreases j
  {
    var k := parts[0];
    var rest := parts[1..];
    var c := Lookup(es, k).value.entries;
    var c' := Del(c, rest).value;
    UnwindLookup(es, k, c', k);
    if j == 1 {
      assert parts[..1] == [k];
      DelEmpties(c, rest);
    } else {
      assert parts[..j] == [k] + rest[..j - 1];
      assert parts[j..] == rest[j - 1..];
      DelAncestor(c, rest, j - 1);
      assert NodeAt(Group(es), parts[..j]) == NodeAt(Group(c), rest[..j - 1]);
      if c' == [] {
        assert NodeAt(Group(c'), rest[..j - 1]) == None;
      }
    }
  }

  /** Deleting `a.b` from `{"a": {"b": "x", "n": 1}}` leaves `{"a": {"n": 1}}`: the number keeps `a` alive. */
  lemma DeleteBesideNumber()
    ensures RemovePath([Entry("a", Group([Entry("b", Leaf("x")), Entry("n", Scalar)]))], "a.b")
      == [Entry("a", Group([Entry("n", Scalar)]))]
  {
    var inner := [Entry("b", Leaf("x")), Entry("n", Scalar)];
    var root := [Entry("a", Group(inner))];
    assert JoinDots(["a", "b"]) == "a.b";
    SplitJoinDots(["a", "b"]);
    assert ["a", "b"][1..] == ["b"];
    assert Remove(inner, "b") == [Entry("n", Scalar)] by {
      assert inner[1..] == [Entry("n", Scalar)];
      assert Remove(inner[1..], "b") == [Entry("n", Scalar)];
    }
    assert Del(inner, ["b"]) == Some([Entry("n", Scalar)]) by {
      assert inner[0].key == "b";
    }
    assert Lookup(root, "a") == Some(Group(inner));
  }

  /** A deletion leaves no empty object behind: emptied ancestors are deleted too. */
  lemma {:induction false} DelNoEmpty(es: seq<Entry>, parts: seq<string>)
    requires parts != [] && NoEmptyGroups(es) && Del(es, parts).Some?
    ensures NoEmptyGroups(Del(es, parts).value)
    decreases |parts|
  {
    var k := parts[0];
    RemoveEntries(es, k);
    if |parts| > 1 {
      var c := Lookup(es, k).value.entries;
      assert EntryNonEmpty(Entry(k, Group(c)));
      DelNoEmpty(c, parts[1..]);
      UpdateEntries(es, k, Group(Del(c, parts[1..]).value));
    }
  }

  /** `delete` keeps the keys of an object distinct. */
  lemma {:induction false} RemoveUnique(es: seq<Entry>, k: string)
    requires UniqueKeys(es)
    ensures UniqueKeys(Remove(es, k))
  {
    if es != [] {
      RemoveUnique(es[1..], k);
      if es[0].key != k {
        var r := Remove(es[1..], k);
        RemoveEntries(es[1..], k);
        forall j | 0 <= j < |r| ensures r[j].key != es[0].key {
          assert r[j] in es[1..];
        }
        UniqueCons(es[0], r);
      }
    }
  }

  /** A deletion keeps every object's keys distinct. */
  lemma {:induction false} DelWellFormed(es: seq<Entry>, parts: seq<string>)
    requires parts != [] && WellFormed(Group(es)) && Del(es, parts).Some?
    ensures WellFormed(Group(Del(es, parts).value))
    decreases |parts|
  {
    var k := parts[0];
    RemoveUnique(es, k);
    RemoveEntries(es, k);
    if |parts| > 1 {
      var c := Lookup(es, k).value.entries;
      assert WellFormed(Group(c));
      DelWellFormed(c, parts[1..]);
      UpdateEntries(es, k, Group(Del(c, parts[1..]).value));
    }
  }

  /** Deleting one unused path removes exactly the non-object values at or below it. */
  lemma RemovePathValues(root: seq<Entry>, path: string, ps: seq<string>, n: Node)
    ensures PlainAt(RemovePath(root, path), ps, n) <==> PlainAt(root, ps, n) && !(Split(path) <= ps)
  {
    var parts := Split(path);
    if Del(root, parts).Some? {
      DelValues(root, parts, ps, n);
    } else if PlainAt(root, ps, n) && parts <= ps {
      DelUnderNode(root, parts, ps);
    }
  }

  /**
   * After all unused paths, a string, number, boolean or `null` remains iff
   * it was there and lies below none of them.
   */
  lemma {:induction false} RemoveAllValues(root: seq<Entry>, paths: seq<string>, ps: seq<string>, n: Node)
    ensures PlainAt(RemoveAll(root, paths), ps, n)
      <==> PlainAt(root, ps, n) && forall j :: 0 <= j < |paths| ==> !(Split(paths[j]) <= ps)
    decreases |paths|
  {
    if paths != [] {
      RemovePathValues(root, paths[0], ps, n);
      RemoveAllValues(RemovePath(root, paths[0]), paths[1..], ps, n);
      assert forall j :: 1 <= j < |paths| ==> paths[j] == paths[1..][j - 1];
    }
  }

  /** What lies neither on nor below any unused path, of any kind, is left as it was. */
  lemma {:induction false} RemoveAllOffPaths(root: seq<Entry>, paths: seq<string>, qs: seq<string>)
    requires forall j :: 0 <= j < |paths| ==> !(Split(paths[j]) <= qs) && !(qs <= Split(paths[j]))
    ensures NodeAt(Group(RemoveAll(root, paths)), qs) == NodeAt(Group(root), qs)
    decreases |paths|
  {
    if paths != [] {
      var parts := Split(paths[0]);
      if Del(root, parts).Some? {
        DelOffPath(root, parts, qs);
      }
      assert forall j :: 1 <= j < |paths| ==> paths[j] == paths[1..][j - 1];
      RemoveAllOffPaths(RemovePath(root, paths[0]), paths[1..], qs);
    }
  }

  /** Removal keeps the tree well formed and, from a tree without empty objects, leaves none. */
  lemma {:induction false} RemoveAllShape(root: seq<Entry>, paths: seq<string>)
    requires WellFormed(Group(root))
    ensures WellFormed(Group(RemoveAll(root, paths)))
    ensures NoEmptyGroups(root) ==> NoEmptyGroups(RemoveAll(root, paths))
    decreases |paths|
  {
    if paths != [] {
      var parts := Split(paths[0]);
      if Del(root, parts).Some? {
        DelWellFormed(root, parts);
        if NoEmptyGroups(root) {
          DelNoEmpty(root, parts);
        }
      }
      RemoveAllShape(RemovePath(root, paths[0]), paths[1..]);
    }
  }
}
