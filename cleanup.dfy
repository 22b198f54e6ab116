/**
 * `cleanupTranslations` of src/translations-cleanup/index.ts: check that
 * both paths exist, flatten the translation file, scan the sources, keep
 * the leaves that are effectively used, and either delete the unused
 * leaves and prune, or (with nothing unused) only prune; the file is
 * backed up and rewritten when something changed and this is no dry run.
 */
module Cleanup {
  import opened Wrappers
  import opened Tree
  import opened TranslationUtils
  import opened Patterns
  import opened FileScanner
  import opened EffectiveUse
  import opened KeyRemoval
  import opened Pruning

  /** CleanupOptions with the defaults applied: `backup` true, `dryRun` and `verbose` false. */
  datatype Options = Options(translationFile: string, srcPath: string, backup: bool, dryRun: bool, verbose: bool)

  /**
   * The file system for one run: the paths that exist, the parsed
   * translation file, and the contents of the files the source glob lists.
   */
  datatype Disk = Disk(existing: set<string>, translations: seq<Entry>, sources: seq<string>)

  /** A change to the file system: `copyFileSync` or `writeFileSync` of the serialised tree. */
  datatype Effect = Copy(from: string, to: string) | Write(path: string, tree: seq<Entry>)

  /** The object a successful run returns. */
  datatype CleanupResult = CleanupResult(
    totalKeys: nat,
    usedKeys: nat,
    usedKeysSet: set<string>,
    unusedKeys: nat,
    unusedTranslations: seq<string>,
    cleaned: bool)

  datatype Outcome = Outcome(result: CleanupResult, effects: seq<Effect>)

  function BackupPath(translationFile: string): string {
    translationFile + ".backup"
  }

  /** Saving a new tree: the backup copy first when backups are on, then the write. */
  function Save(o: Options, tree: seq<Entry>): seq<Effect> {
    (if o.backup then [Copy(o.translationFile, BackupPath(o.translationFile))] else [])
    + [Write(o.translationFile, tree)]
  }

  /** The flattened keys, in flatten order. */
  function AllKeys(d: Disk): seq<string> {
    Flatten(d.translations, "").keys
  }

  /** The keys the scan finds in the sources. */
  function Used(d: Disk): set<string> {
    UsedKeys(TranslationPatterns, d.sources)
  }

  /** The flattened keys that are not effectively used, in flatten order. */
  function UnusedKeys(d: Disk): seq<string> {
    Unused(AllKeys(d), EffectiveSet(AllKeys(d), Used(d)))
  }

  /** The tree written back, if any: cleaned and pruned, or only pruned when that changes it. */
  function Rewrite(o: Options, d: Disk): Option<seq<Entry>> {
    if o.dryRun then None
    else if |UnusedKeys(d)| > 0 then Some(Prune(RemoveAll(d.translations, UnusedKeys(d))))
    else if Prune(d.translations) != d.translations then Some(Prune(d.translations))
    else None
  }

  /** The run: the thrown error, or the result and the file-system changes in order. */
  function Run(o: Options, d: Disk): Result<Outcome, string> {
    if o.translationFile !in d.existing then Err("Translation file not found: " + o.translationFile)
    else if o.srcPath !in d.existing then Err("Source path not found: " + o.srcPath)
    else
      var report := CleanupResult(
        |AllKeys(d)|, |Used(d)|, Used(d), |UnusedKeys(d)|, UnusedKeys(d), Rewrite(o, d).Some?);
      match Rewrite(o, d)
      case Some(w) => Ok(Outcome(report, Save(o, w)))
      case None => Ok(Outcome(report, []))
  }

  /**
   * cleanupTranslations. The parsed file is a JSON object, so the keys of
   * each of its objects are distinct.
   */
  method CleanupTranslations(options: Options, disk: Disk) returns (r: Result<Outcome, string>)
    requires WellFormed(Group(disk.translations))
    ensures r == Run(options, disk)
  {
    if options.translationFile !in disk.existing {
      return Err("Translation file not found: " + options.translationFile);
    }
    if options.srcPath !in disk.existing {
      return Err("Source path not found: " + options.srcPath);
    }
    var translations := disk.translations;
    var flatTranslations := FlattenTranslations(translations, "");
    var allTranslationKeys := flatTranslations.keys;
    var usedKeys := ScanFiles(disk.sources);
    var effectiveUsedLeaves := EffectiveUsedLeaves(allTranslationKeys, usedKeys);
    var unusedTranslations := Unused(allTranslationKeys, effectiveUsedLeaves);
    assert unusedTranslations == UnusedKeys(disk);
    var result := CleanupResult(
      |allTranslationKeys|, |usedKeys|, usedKeys, |unusedTranslations|, unusedTranslations, false);
    var effects: seq<Effect> := [];
    if |unusedTranslations| > 0 && !options.dryRun {
      var cleanedTranslations := RemoveUnusedKeys(translations, unusedTranslations);
      RemoveAllShape(translations, unusedTranslations);
      cleanedTranslations := PruneEmptyObjects(cleanedTranslations);
      assert Rewrite(options, disk) == Some(cleanedTranslations);
      effects := Save(options, cleanedTranslations);
      result := result.(cleaned := true);
    } else if !options.dryRun {
      var pruned := PruneEmptyObjects(translations);
      assert Rewrite(options, disk) == if pruned != translations then Some(pruned) else None;
      if pruned != translations {
        effects := Save(options, pruned);
        result := result.(cleaned := true);
      }
    } else {
      assert Rewrite(options, disk) == None;
    }
    r := Ok(Outcome(result, effects));
  }

  /*
   * What a run promises
   */

  /** A run fails exactly when one of the two paths is missing, the translation file checked first. */
  lemma RunErrors(o: Options, d: Disk)
    ensures Run(o, d).Err? <==> o.translationFile !in d.existing || o.srcPath !in d.existing
    ensures o.translationFile !in d.existing ==> Run(o, d) == Err("Translation file not found: " + o.translationFile)
    ensures o.translationFile in d.existing && o.srcPath !in d.existing ==>
      Run(o, d) == Err("Source path not found: " + o.srcPath)
  {
  }

  /**
   * The report: the used keys are the scanned set, and the unused keys are
   * the leaf paths no used key covers, each listed once.
   */
  lemma RunReport(o: Options, d: Disk, k: string)
    requires WellFormed(Group(d.translations)) && Run(o, d).Ok?
    ensures Run(o, d).value.result.usedKeysSet == UsedKeys(TranslationPatterns, d.sources)
    ensures Run(o, d).value.result.usedKeys == |Run(o, d).value.result.usedKeysSet|
    ensures Run(o, d).value.result.unusedKeys == |Run(o, d).value.result.unusedTranslations|
      <= Run(o, d).value.result.totalKeys
    ensures k in Run(o, d).value.result.unusedTranslations <==>
      (exists ps, v :: LeafAt(d.translations, ps, v) && JoinFrom("", ps) == k)
      && !CoveredByPrefix(k, Run(o, d).value.result.usedKeysSet)
    ensures forall i, j :: 0 <= i < j < |Run(o, d).value.result.unusedTranslations| ==>
      Run(o, d).value.result.unusedTranslations[i] != Run(o, d).value.result.unusedTranslations[j]
  {
    var all := AllKeys(d);
    var used := Used(d);
    var eff := EffectiveSet(all, used);
    FlattenKeys(d.translations, "", k);
    EffectivelyUsedIff(k, used);
    UnusedDistinct(all, eff);
  }

  /** What a run changes on disk, and when it reports `cleaned`. */
  lemma RunEffects(o: Options, d: Disk)
    requires Run(o, d).Ok?
    ensures var out := Run(o, d).value;
      && (out.result.cleaned <==> out.effects != [])
      && (o.dryRun ==> out.effects == [])
      && (!o.dryRun && out.result.unusedTranslations != [] ==> out.result.cleaned)
      && (!o.dryRun && out.result.unusedTranslations == [] ==> (out.result.cleaned <==> !NoEmptyGroups(d.translations)))
      && (out.effects != [] ==>
            |out.effects| == (if o.backup then 2 else 1)
            && (o.backup ==> out.effects[0] == Copy(o.translationFile, o.translationFile + ".backup"))
            && out.effects[|out.effects| - 1].Write? && out.effects[|out.effects| - 1].path == o.translationFile)
  {
    PruneChanges(d.translations);
  }

  /** The run writes `w` to the translation file. */
  predicate Writes(o: Options, d: Disk, w: seq<Entry>) {
    Run(o, d).Ok? && Write(o.translationFile, w) in Run(o, d).value.effects
  }

  /**
   * The written tree keeps a string, number, boolean or `null` iff no
   * unused path is a prefix of its key path; it is well formed and holds no
   * empty object.
   */
  lemma RunValues(o: Options, d: Disk, w: seq<Entry>, ps: seq<string>, n: Node)
    requires WellFormed(Group(d.translations)) && Writes(o, d, w)
    ensures WellFormed(Group(w)) && NoEmptyGroups(w)
    ensures PlainAt(w, ps, n) <==>
      && PlainAt(d.translations, ps, n)
      && forall j :: 0 <= j < |Run(o, d).value.result.unusedTranslations| ==>
           !(Split(Run(o, d).value.result.unusedTranslations[j]) <= ps)
  {
    var t := d.translations;
    var unused := Run(o, d).value.result.unusedTranslations;
    assert Rewrite(o, d) == Some(w);
    if unused != [] {
      var removed := RemoveAll(t, unused);
      RemoveAllShape(t, unused);
      RemoveAllValues(t, unused, ps, n);
      PruneWellFormed(removed);
      PruneNoEmpty(removed);
      PruneValues(removed, ps, n);
    } else {
      PruneWellFormed(t);
      PruneNoEmpty(t);
      PruneValues(t, ps, n);
    }
  }

  /**
   * With keys that are non-empty and hold no dot, the written tree keeps
   * exactly the leaves whose dotted key is effectively used.
   */
  lemma RunKeepsUsedLeaves(o: Options, d: Disk, w: seq<Entry>, ps: seq<string>, v: string)
    requires WellFormed(Group(d.translations)) && SimpleKeys(Group(d.translations)) && Writes(o, d, w)
    ensures LeafAt(w, ps, v) <==>
      ps != [] && LeafAt(d.translations, ps, v) && EffectivelyUsed(JoinDots(ps), Run(o, d).value.result.usedKeysSet)
  {
    var t := d.translations;
    var out := Run(o, d).value;
    var unused := out.result.unusedTranslations;
    var used := out.result.usedKeysSet;
    RunValues(o, d, w, ps, Leaf(v));
    if LeafAt(t, ps, v) {
      LeafPathSimple(t, ps, v);
      JoinFromDots("", ps);
      SplitJoinDots(ps);
      var key := JoinDots(ps);
      RunReport(o, d, key);
      EffectivelyUsedIff(key, used);
      if EffectivelyUsed(key, used) {
        forall j | 0 <= j < |unused| ensures !(Split(unused[j]) <= ps) {
          UnusedPathNotAbove(o, d, unused[j], ps, v);
        }
      } else {
        assert key in unused;
        var j :| 0 <= j < |unused| && unused[j] == key;
        assert ps <= ps;
      }
    }
  }

  /** An unused path of a tree with simple keys is the key path of another leaf, so it lies above no used leaf. */
  lemma UnusedPathNotAbove(o: Options, d: Disk, u: string, ps: seq<string>, v: string)
    requires WellFormed(Group(d.translations)) && SimpleKeys(Group(d.translations)) && Run(o, d).Ok?
    requires u in Run(o, d).value.result.unusedTranslations && LeafAt(d.translations, ps, v)
    requires EffectivelyUsed(JoinDots(ps), Run(o, d).value.result.usedKeysSet)
    ensures !(Split(u) <= ps)
  {
    var t := d.translations;
    var used := Run(o, d).value.result.usedKeysSet;
    RunReport(o, d, u);
    var qs, w :| LeafAt(t, qs, w) && JoinFrom("", qs) == u;
    LeafPathSimple(t, qs, w);
    JoinFromDots("", qs);
    SplitJoinDots(qs);
    LeafPathSimple(t, ps, v);
    JoinFromDots("", ps);
    EffectivelyUsedIff(JoinDots(ps), used);
    if qs <= ps {
      LeafPrefix(t, qs, w, ps, v);
    }
  }
}
