# vue-translations-cleanup, modelled in Dafny

vue-translations-cleanup finds the keys of a vue-i18n translation file (a
nested JSON object) that no `.vue`, `.ts` or `.tsx` source file uses, and
removes them. This model covers the tool's core:

- **Flattening** (`TranslationUtils`). The tree becomes an ordered table of
  dotted paths, with the same insertion-order semantics as a JavaScript
  `Map`.
- **Key normalisation** (`TranslationUtils`). `a['b']` is rewritten to `a.b`.
- **The usage recognisers** (`Lex`, `Patterns`). These are the ten usage
  patterns plus the two `const` array patterns. Each is a hand-written
  recogniser that gives the same start, end and capture group 1 as
  JavaScript's backtracking regular-expression engine. `MatchAll` gives
  `matchAll`: leftmost matches that do not overlap.
- **The scan of source contents** (`FileScanner`).
- **The current `cleanupTranslations`**:
  - the effective-use test (`EffectiveUse`), where a used prefix covers
    every leaf below it;
  - the unused filter;
  - the walk, delete and unwind of `removeUnusedKeys` (`KeyRemoval`);
  - `pruneEmptyObjects` (`Pruning`);
  - the prune-only branch, the backup-then-write effects, and the report
    with its `cleaned` flag (`Cleanup`).
- **The older orchestrator of `src/index.ts`** (`Legacy`). It has:
  - its own flatten, which throws on `null`;
  - an exact-match unused filter;
  - a deletion that does not prune.

The translation file is a `Node` tree. Its objects are `seq<Entry>` in
`Object.entries` order, and `WellFormed` says each object's keys are
distinct, as a parsed JSON object's keys are.

The code mutates objects in place, and some of those objects are shared.
Here that is modelled on values. The walk records `(parent, key)` frames,
and a lifting function writes each changed object back into its parent.

Each imperative loop of the source is a `method` proved equal to a
specification function. The properties are proved about those functions.
These loops are the flatten, the `forEach` merge, the scan loops, the
effective-use loop, the deletion walk, and the pruning loop.

The file system is a `Disk` value: the existing paths, the parsed tree and
the contents of the globbed files. The run's writes are returned as a list
of `Effect`s.

One might expect `normalizeTranslationKey` to be idempotent. It is not:
`TranslationUtils.NormalizeNotIdempotent` gives an input that a second pass
changes.

## Model

| member | source | states |
|---|---|---|
| Tree.Lookup | src/translations-cleanup/index.ts:100-105 | `obj[key]` for an own key is defined exactly when the object has that key, and it is the value of an entry with that key |
| Tree.RemoveEntries | src/translations-cleanup/index.ts:110 | after `delete obj[k]` the key is gone, every remaining entry was there before, and every entry with another key is kept |
| Tree.UpdateEntries | src/translations-cleanup/index.ts:113-116 | assigning `obj[k]` replaces the entry with key `k` in place and leaves every other entry as it was |
| Tree.LookupRemove | src/translations-cleanup/index.ts:110 | after deleting `k`, looking up `k` gives nothing and every other key looks up as before |
| Tree.LookupUpdate | src/translations-cleanup/index.ts:113-116 | after assigning `k`, `k` holds the new value if it was present and other keys are unchanged |
| Tree.Split | src/translations-cleanup/index.ts:93 | `split('.')` gives at least one segment, no segment holds a dot, and re-joining with dots gives the input back |
| Tree.SplitJoinDots | src/translations-cleanup/index.ts:93 | splitting a dot-joined list of dot-free segments gives that list back |
| Tree.LeafPrefix | src/translations-cleanup/types.ts:1-3 | no string leaf lies strictly below another |
| Tree.LeafPathSimple | src/translations-cleanup/translationUtils.ts:11 | in a tree whose keys are non-empty and dot-free, every leaf path has such segments |
| TranslationUtils.Put | src/translations-cleanup/translationUtils.ts:13 | `Map.set` stores the value under the key and adds or removes no other key |
| TranslationUtils.PutPut | src/translations-cleanup/translationUtils.ts:13 | a second `set` of the same key overrides the first one's value and keeps its position |
| TranslationUtils.PutAllContents | src/translations-cleanup/translationUtils.ts:10-22 | after a series of `set`s a key is present iff it was before or was set, and its value is the old one or one of the values set |
| TranslationUtils.PutAllLast | src/translations-cleanup/translationUtils.ts:13-19 | a later `set` of the same key wins: a key holds the value of the last pair that names it |
| TranslationUtils.PutAllKeeps | src/translations-cleanup/translationUtils.ts:13-19 | a key that no pair names keeps its old value |
| TranslationUtils.PutAllSize | src/translations-cleanup/translationUtils.ts:10-22 | the map grows by at most the number of `set`s |
| TranslationUtils.SetEach | src/translations-cleanup/translationUtils.ts:17-19 | the `forEach` loop sets every pair of the nested map into the outer map, in the nested map's order |
| TranslationUtils.MergeFlattened | src/translations-cleanup/translationUtils.ts:16-19 | merging a freshly built map with `forEach` gives the same map as setting its pairs directly |
| TranslationUtils.FlattenTranslations | src/translations-cleanup/translationUtils.ts:4-25 | the loop over `Object.entries` builds exactly the table of the flatten definition: strings are set under `prefix.key`, objects are recursed into and merged, and other values are skipped |
| TranslationUtils.JoinFromDots | src/translations-cleanup/translationUtils.ts:11 | the path built from a prefix is the prefix joined by a dot to the dotted segments, or the segments alone when the prefix is empty |
| TranslationUtils.LeavesSound | src/translations-cleanup/translationUtils.ts:10-20 | every flattened pair is a string leaf of the tree at the dotted path that is its key |
| TranslationUtils.LeavesComplete | src/translations-cleanup/translationUtils.ts:10-20 | every string leaf of the tree is listed under its dotted path |
| TranslationUtils.FlattenKeys | src/translations-cleanup/translationUtils.ts:4-25 | a key is in the flattened map iff it is the dotted path of some string leaf, and its value is the value of such a leaf |
| TranslationUtils.FlattenSize | src/translations-cleanup/translationUtils.ts:4-25 | the flattened map has at most as many keys as the tree has string leaves |
| TranslationUtils.LeavesAppend | src/translations-cleanup/translationUtils.ts:10 | flattening visits entries in order: the leaves of two runs of entries are concatenated |
| TranslationUtils.NormalizeTranslationKey | src/translations-cleanup/translationUtils.ts:27-29 | normalising never lengthens a key |
| TranslationUtils.NormalizeFixedPoint | src/translations-cleanup/translationUtils.ts:27-29 | a key holding no `['` or `["` is left unchanged |
| TranslationUtils.NormalizeSegment | src/translations-cleanup/translationUtils.ts:28 | in `a['x']b`, with `a` free of bracket-quote pairs and `x` non-empty and quote-free, the segment becomes `.x`, `a` is kept, and the scan goes on in `b` |
| TranslationUtils.NormalizeLeadingSegment | src/translations-cleanup/translationUtils.ts:28 | a key that starts with a bracket segment starts with `.x` after normalisation |
| TranslationUtils.NormalizeKeepsPrefix | src/translations-cleanup/translationUtils.ts:28 | a part with no bracket-quote pair, not followed by a quote, is copied through unchanged |
| TranslationUtils.NormalizeShift | src/translations-cleanup/translationUtils.ts:28 | the global replace is position-independent: normalising `b` after any prefix, from the prefix's end, gives the normalisation of `b` |
| TranslationUtils.NormalizePlainRun | src/translations-cleanup/translationUtils.ts:28 | a run of positions where no segment starts is copied as it stands |
| TranslationUtils.NormalizeNotIdempotent | src/translations-cleanup/translationUtils.ts:27-29 | `['a[']'b']` normalises to `.a['b']`, which a second pass turns into `.a.b` |
| Patterns.TightRecognised | src/translations-cleanup/patterns.ts:3 | `t('k')` with a non-empty quote-free `k` matches the basic pattern, ends after `)` and captures `k` |
| Patterns.LooseRecognised | src/translations-cleanup/patterns.ts:6-17 | `NAME( 'k' , ...)` in all its spaced and argument forms matches the multi-line `t`/`rt`/`tc` patterns for quotes or backticks, ending at the first `)` after the comma, and captures `k` |
| Patterns.ArgsTailRecognised | src/translations-cleanup/patterns.ts:6 | after the closing quote, spaces and then `)` or `,` and text up to the first `)` close the call there |
| Patterns.CompositionRecognised | src/translations-cleanup/patterns.ts:20 | `useI18n().rt('k' ...)` and `useI18n().tt('k' ...)` match and capture `k` |
| Patterns.CompositionForms | src/translations-cleanup/patterns.ts:20 | the composition pattern matches only `useI18n().rt(` and `useI18n().tt(` at a word boundary, never `useI18n().t(` |
| Patterns.ShorthandRecognised | src/translations-cleanup/patterns.ts:23 | `$t : 'k'` with any spacing matches the object-style pattern and captures `k` |
| Patterns.BracketRecognised | src/translations-cleanup/patterns.ts:26 | `t('base['x']…['y']')` with a non-empty quote-free base and a chain of one or more segments, the first name not starting with `)`, matches the bracket pattern, ends after `)` and captures the base with the whole chain, once the base run has backtracked to before the first `[` |
| Patterns.BracketArg | src/translations-cleanup/patterns.ts:26 | a bracket-pattern capture is a non-empty quote-free base followed by whole `['x']` segments |
| Patterns.ConstArrayRecognised | src/translations-cleanup/fileScanner.ts:24 | `const NAME = [body]` with a `]`-free body matches the lazy array pattern, ending at the first `]`, and captures the body |
| Patterns.StringLiteralAt | src/translations-cleanup/fileScanner.ts:27 | a string-literal match captures a non-empty run without quotes |
| Patterns.MatchBoundary | src/translations-cleanup/patterns.ts:3-26 | an anchored pattern matches only where its call token stands at the start of the input or after a non-word character, possibly with a `$` before the token |
| Patterns.NoBoundaryNoMatch | src/translations-cleanup/patterns.ts:3-26 | if the call token never stands at a word boundary, the anchored pattern finds nothing |
| Patterns.TokensStartWithWord | src/translations-cleanup/patterns.ts:3-26 | every anchored pattern's call token starts with a word character, so the anchor's `\W` cannot be part of it |
| Patterns.MatchAllShape | src/translations-cleanup/patterns.ts:3-26 | every capture `matchAll` yields has the shape of its pattern's group: non-empty and free of the pattern's delimiters, or a bracket chain |
| Patterns.MatchAllFirst | src/translations-cleanup/fileScanner.ts:15 | `matchAll` yields the leftmost match and then resumes right after its end |
| Patterns.MatchAllNone | src/translations-cleanup/fileScanner.ts:15 | with no match at any later position, `matchAll` yields nothing |
| Patterns.MatchAllFrom | src/translations-cleanup/fileScanner.ts:15 | every capture `matchAll` yields is the capture of a match that starts at some position of the input |
| Patterns.TightIsBracket | src/translations-cleanup/patterns.ts:3 | wherever the basic pattern matches, the bracket-notation pattern matches identically, so pattern 1 adds no key of its own |
| Patterns.TightSound | src/translations-cleanup/patterns.ts:3 | a basic match stands exactly on `t(`, a quote, its capture, a quote and `)`, and ends after the `)` |
| Patterns.ArgsTailSound | src/translations-cleanup/patterns.ts:6 | a tail that closes the call is spaces followed by `)` or by `,`, text without `)` and `)`, starting where it was tried and ending after that `)` |
| Patterns.LooseArgsSound | src/translations-cleanup/patterns.ts:6-17 | loose arguments are found only where spaces, the delimited capture, spaces and a well-formed close stand, and the match ends at the close's `)` |
| Patterns.LooseSound | src/translations-cleanup/patterns.ts:6-17 | a `t`/`rt`/`tc` match is `NAME(` followed by spaces, the capture between delimiters of the pattern's class, spaces and a well-formed close, and ends after the close |
| Patterns.CompositionSound | src/translations-cleanup/patterns.ts:20 | a composition match is `useI18n().rt(` or `useI18n().tt(` followed by spaces, the capture between quotes or backticks, spaces and a well-formed close |
| Patterns.ShorthandSound | src/translations-cleanup/patterns.ts:23 | an object-style match is `$t`, spaces, `:`, spaces and the capture between quotes or backticks, and ends after the closing delimiter |
| Patterns.BracketSound | src/translations-cleanup/patterns.ts:26 | a bracket-pattern match is `t(`, a quote, a capture of the base-and-segments shape, a quote and `)` |
| Patterns.StringLiteralSound | src/translations-cleanup/fileScanner.ts:27 | a string-literal match is a quote, the capture and a quote |
| Patterns.ConstArraySound | src/translations-cleanup/fileScanner.ts:24 | an array match is `const`, spaces, a word name, `=` between spaces, `[`, the capture and the first `]` after it |
| Patterns.SegmentsChain | src/translations-cleanup/patterns.ts:26 | the segments the bracket pattern takes after the base form a chain of `['x']` groups |
| PatternExamples.AdjacentCalls | src/translations-cleanup/patterns.ts:3 | in `t('a')t('b')` only `a` is found: the second call follows a word character |
| PatternExamples.NotACall | src/translations-cleanup/patterns.ts:3 | `getParent('test')` is not a `t(` call |
| PatternExamples.NestedLoose | src/translations-cleanup/patterns.ts:6 | the multi-line pattern finds only the outer key of `t('a', t('b'))`: its lazy tail swallows the inner call |
| PatternExamples.NestedTight | src/translations-cleanup/patterns.ts:3 | the basic pattern finds only the inner key of `t('a', t('b'))` |
| PatternExamples.BracketKey | src/translations-cleanup/patterns.ts:26 | `t('base['seg']')` yields `base['seg']` as its only capture |
| PatternExamples.WholeBracketCall | src/translations-cleanup/patterns.ts:26 | a bracket call with any chain of segments that is the whole input yields exactly its base and chain |
| PatternExamples.TwoSegments | src/translations-cleanup/patterns.ts:26 | `t('a['b']['c']')` yields `a['b']['c']`: every segment of the chain is taken |
| PatternExamples.ShorthandAfterAnyChar | src/translations-cleanup/patterns.ts:23 | the object-style pattern has no anchor, so `$t: 'k'` is found after any character |
| PatternExamples.ShorthandSecond | src/translations-cleanup/patterns.ts:23 | in `w$t: 'k'` no match starts at `w`, and the one at `$` runs to the end |
| FileScanner.AddCaptures | src/translations-cleanup/fileScanner.ts:16-20 | the loop over matches adds the normalised form of each non-empty capture to the set |
| FileScanner.ScanContent | src/translations-cleanup/fileScanner.ts:11-34 | scanning one file adds exactly the file's keys: the pattern keys and the keys of string literals inside `const` arrays |
| FileScanner.ScanFiles | src/translations-cleanup/fileScanner.ts:6-38 | the result is the union of the keys of every file |
| FileScanner.CaptureKeysMember | src/translations-cleanup/fileScanner.ts:16-20 | a key is added iff it is the normalisation of some non-empty capture |
| FileScanner.PatternKeysMember | src/translations-cleanup/fileScanner.ts:14-21 | a key comes from the patterns iff some pattern's `matchAll` yields a non-empty capture that normalises to it |
| FileScanner.ArrayKeysMember | src/translations-cleanup/fileScanner.ts:24-34 | a key comes from the arrays iff some non-empty array body holds a string literal that normalises to it |
| FileScanner.FileKeysMember | src/translations-cleanup/fileScanner.ts:13-34 | a file yields a key iff a pattern capture or a `const` array literal normalises to it |
| FileScanner.UsedKeysMember | src/translations-cleanup/fileScanner.ts:10-35 | a key is used iff some file yields it |
| FileScanner.UsedKeysFound | src/translations-cleanup/fileScanner.ts:10-35 | every used key has a witness: a file, a non-empty capture of a pattern or array literal in it, and that capture's normalisation |
| FileScanner.FileOrderIrrelevant | src/translations-cleanup/fileScanner.ts:7-10 | the order and repetition of the files the glob returns do not change the used set |
| FileScanner.UsedKeysGrow | src/translations-cleanup/fileScanner.ts:10-35 | more files never remove a used key |
| FileScanner.NestedCallKeys | src/translations-cleanup/fileScanner.ts:14-21 | patterns are all applied: `t('a', t('b'))` yields both `a` and `b` |
| EffectiveUse.LeafIsUsed | src/translations-cleanup/index.ts:39-50 | the cursor loop ends matched exactly when the leaf is effectively used |
| EffectiveUse.EffectiveUsedLeaves | src/translations-cleanup/index.ts:37-53 | the set built holds exactly the flattened keys that are effectively used |
| EffectiveUse.EffectivelyUsedIff | src/translations-cleanup/index.ts:36-50 | cutting at the last dot visits exactly the dot-delimited prefixes, so a leaf is effectively used iff it or one of those prefixes is used |
| EffectiveUse.PrefixCovers | src/translations-cleanup/index.ts:36 | a used group key covers every leaf below it |
| EffectiveUse.EffectivelyUsedMonotone | src/translations-cleanup/index.ts:36-53 | adding used keys never makes a leaf unused |
| EffectiveUse.Unused | src/translations-cleanup/index.ts:56-58 | the filter keeps exactly the keys that are not effectively used and is no longer than the key list |
| EffectiveUse.UnusedAppend | src/translations-cleanup/index.ts:56-58 | the filter keeps flatten order |
| EffectiveUse.UnusedDistinct | src/translations-cleanup/index.ts:56-58 | distinct flattened keys give a duplicate-free unused list |
| KeyRemoval.RemoveOne | src/translations-cleanup/index.ts:93-118 | one iteration gives: the walk, `delete` of the last own key, and the unwind that deletes each emptied ancestor innermost first, with nothing changed when the path does not resolve |
| KeyRemoval.RemoveUnusedKeys | src/translations-cleanup/index.ts:86-122 | the loop applies each unused path to the result of the previous ones |
| KeyRemoval.DelLift | src/translations-cleanup/index.ts:98-118 | deleting below the node the walk reached and lifting through the frames equals deleting the whole path from the root |
| KeyRemoval.DelResolves | src/translations-cleanup/index.ts:98-110 | a deletion happens iff the path's parent resolves to an object that has the last segment as an own key |
| KeyRemoval.UnwindLookup | src/translations-cleanup/index.ts:113-116 | after the unwind step the parent no longer holds an emptied child, and holds the changed child otherwise |
| KeyRemoval.DelValues | src/translations-cleanup/index.ts:93-118 | a deletion removes exactly the strings, numbers, booleans and nulls at or below the path and keeps every other one |
| KeyRemoval.DelUnderNode | src/translations-cleanup/index.ts:98-110 | a path that is a prefix of the path of any value in the tree always resolves |
| KeyRemoval.DelOffPath | src/translations-cleanup/index.ts:98-118 | whatever lies neither on nor below the deleted path, objects and empty objects included, is left exactly as it was |
| KeyRemoval.DelGone | src/translations-cleanup/index.ts:108-117 | nothing is left at or below the deleted path |
| KeyRemoval.DelEmpties | src/translations-cleanup/index.ts:110-117 | a deletion takes away the whole object it starts from iff every object along the path held only the key the path follows |
| KeyRemoval.DelAncestor | src/translations-cleanup/index.ts:110-117 | the ancestor at the first `j` segments of the path is deleted iff every object from it down held only the key the path follows; otherwise it holds what the deletion left of it |
| KeyRemoval.DeleteBesideNumber | src/translations-cleanup/index.ts:108-117 | deleting `a.b` from `{"a": {"b": "x", "n": 1}}` leaves `{"a": {"n": 1}}`: a number keeps its object alive |
| KeyRemoval.DelNoEmpty | src/translations-cleanup/index.ts:113-117 | the unwind leaves no empty object behind in a tree that had none |
| KeyRemoval.DelWellFormed | src/translations-cleanup/index.ts:108-118 | deletion keeps every object's keys distinct |
| KeyRemoval.RemovePathValues | src/translations-cleanup/index.ts:92-119 | after one unused path, a string, number, boolean or null remains iff it was there and the split path is not a prefix of its path |
| KeyRemoval.RemoveAllValues | src/translations-cleanup/index.ts:86-122 | after all unused paths, a string, number, boolean or null remains iff it was there and lies below none of them |
| KeyRemoval.RemoveAllOffPaths | src/translations-cleanup/index.ts:86-122 | whatever lies neither on nor below any unused path is left exactly as it was |
| KeyRemoval.RemoveAllShape | src/translations-cleanup/index.ts:86-122 | the cleaned tree stays well formed, and gains no empty object if it had none |
| Pruning.PruneEmptyObjects | src/translations-cleanup/index.ts:71-82 | the loop over `Object.keys`, recursing and deleting emptied objects, gives the pruned tree |
| Pruning.PruneNoEmpty | src/translations-cleanup/index.ts:71-82 | after pruning no object anywhere in the tree is empty (the root itself may be) |
| Pruning.PruneFixed | src/translations-cleanup/index.ts:71-82 | a tree without empty objects is left unchanged |
| Pruning.PruneChanges | src/translations-cleanup/index.ts:145-149 | pruning changes the tree iff it holds an empty object |
| Pruning.PruneIdempotent | src/translations-cleanup/index.ts:71-82 | pruning twice is pruning once |
| Pruning.PruneValues | src/translations-cleanup/index.ts:71-82 | pruning keeps exactly the strings, numbers, booleans and nulls, each at its path |
| Pruning.PruneEmptyNoValues | src/translations-cleanup/index.ts:76-79 | an object pruned to nothing held no string, number, boolean or null at any depth |
| Pruning.PruneKeys | src/translations-cleanup/index.ts:74-79 | pruning adds no key |
| Pruning.PruneLookup | src/translations-cleanup/index.ts:74-79 | after pruning, a key holds its pruned object, is absent when that object pruned to nothing, and keeps any other value |
| Pruning.PruneWellFormed | src/translations-cleanup/index.ts:71-82 | pruning keeps every object's keys distinct |
| Pruning.PruneAppend | src/translations-cleanup/index.ts:74 | pruning works key by key in order |
| Cleanup.CleanupTranslations | src/translations-cleanup/index.ts:6-165 | the run's errors, report and file-system effects are those of the run specification |
| Cleanup.RunErrors | src/translations-cleanup/index.ts:16-22 | a run fails iff one of the two paths is missing, with the translation file's message first |
| Cleanup.RunReport | src/translations-cleanup/index.ts:30-68 | the report counts the scanned set and the unused list; a key is unused iff it is a leaf path that no used key or dot-delimited prefix of it covers; the unused list has no repeats and is no longer than the flattened keys |
| Cleanup.RunEffects | src/translations-cleanup/index.ts:84-162 | `cleaned` is set iff something is written; a dry run writes nothing; with unused keys the run writes; without them it writes iff the tree held an empty object; a write is preceded by the `.backup` copy iff backups are on |
| Cleanup.RunValues | src/translations-cleanup/index.ts:84-162 | the written tree is well formed and has no empty object, and it keeps a string, number, boolean or null iff it was there and no unused path is a prefix of its path |
| Cleanup.RunKeepsUsedLeaves | src/translations-cleanup/index.ts:36-162 | with non-empty, dot-free keys, the written tree keeps exactly the leaves that are effectively used |
| Cleanup.UnusedPathNotAbove | src/translations-cleanup/index.ts:56-118 | with simple keys, an unused path never lies above an effectively used leaf, so deleting it cannot take a used leaf |
| Legacy.LegacyFlatten | src/index.ts:46-66 | the legacy flatten throws iff a `null` is in the tree, and otherwise gives the same table as the current flatten |
| Legacy.NullInSnoc | src/index.ts:52-62 | a `null` is among the first `i + 1` entries iff it is among the first `i` or below entry `i` |
| Legacy.LegacyRemoveOne | src/index.ts:157-168 | one iteration walks while the next key is defined and deletes the last segment from the object it stopped at; a walk into a string, number or boolean deletes nothing |
| Legacy.LegacyRemoveUnusedKeys | src/index.ts:150-172 | the loop applies the as-written deletion of each path in turn |
| Legacy.WalkEnd | src/index.ts:160-168 | where the walk stops, the as-written deletion is `delete` of the last segment from the object reached, lifted to the root |
| Legacy.DeleteStuck | src/index.ts:161-168 | a walk that has entered a non-object leaves the tree unchanged |
| Legacy.DeleteAsWrittenWellFormed | src/index.ts:156-169 | the as-written deletion keeps every object's keys distinct |
| Legacy.DeleteAsWrittenHitsSibling | src/index.ts:160-168 | with `{"a.b": "x", "b": "y"}` and unused `a.b`, the as-written walk deletes the unrelated `b` and keeps `a.b`; the intended deletion changes nothing |
| Legacy.DeleteAgrees | src/index.ts:160-168 | the as-written and intended deletions agree whenever every segment but the last leads to a value |
| Legacy.DeleteLeaves | src/index.ts:166-168 | the intended deletion removes exactly the leaves at or below the path |
| Legacy.DeleteKeepsPaths | src/index.ts:166-168 | the intended deletion keeps every value not at or below the path, so objects it empties stay as `{}` |
| Legacy.DeleteLeavesEmptyObject | src/index.ts:166-168 | removing `a.b` from `{"a": {"b": "x"}}` leaves `{"a": {}}`: the legacy run does not prune |
| Legacy.RemoveAllLeaves | src/index.ts:150-172 | with the intended deletion, after all unused paths a leaf remains iff it lies below none of them |
| Legacy.LegacyRun | src/index.ts:16-194 | the legacy run fails iff a path is missing or the tree holds a `null`; whatever it writes is the tree with every reported unused path removed by the intended deletion `Legacy.Delete` |
| Legacy.LegacyErrors | src/index.ts:26-70 | the legacy run fails iff a path is missing, in that order, or the tree holds a `null` |
| Legacy.LegacyReport | src/index.ts:133-146 | a key is unused iff it is a leaf path and is itself not in the used set; the counts are the sizes of the used set and of the unused list |
| Legacy.LegacyEffects | src/index.ts:148-191 | it writes, and reports `cleaned`, iff something is unused and this is no dry run; the `.backup` copy comes first iff backups are on |
| Legacy.LegacyReportsMore | src/index.ts:133-135 | every key the current tool calls unused the legacy one calls unused too |
| Legacy.LegacyLeaves | src/index.ts:150-190 | with the intended deletion, the written tree keeps a leaf iff no unused path is a prefix of its path |
| Legacy.LegacyRunHitsUsedKey | src/index.ts:133-172 | for `{"a.b": "x", "b": "y"}` with sources that use `b` but not `a.b`, only `a.b` is unused; the run with the intended deletion writes the tree back unchanged, while the deletion as written drops the used `b` and keeps `a.b` |

## Left out

- Reading and writing files are not modelled as I/O. The inputs are `Disk`
  values: `existsSync`, `readFileSync`, `JSON.parse` and the result of
  `glob`. The outputs are `Effect` values: `copyFileSync`, and
  `writeFileSync` of `JSON.stringify`.
- Neither `JSON.stringify` nor the layout of the written file is modelled.
  Comparing the two serialisations in the prune-only branch is modelled as
  comparing the trees.
- `glob` is left out. Its pattern `**/*.{vue,ts,tsx}` and the order of its
  results do not appear in the model. The model takes the contents of the
  files it lists; `FileScanner.FileOrderIrrelevant` shows that the order
  of those files plays no part.
- `verbose` logging, `async`/`await` and exceptions are left out. An
  exception becomes an `Err` value.
- JSON arrays in the translation file are left out. The code would flatten
  and walk them as objects keyed by index.
- Object entry order is taken as given. JavaScript lists integer-like keys
  first; an `Entry` sequence is assumed to be in enumeration order already.
- Properties inherited from `Object.prototype` are left out. Examples are
  a path segment `constructor` or `__proto__`, which
  `current[key] === undefined` would find; the model looks up own keys only.
- The translation file's root is assumed to be an object.
- The regular-expression engine is left out. Each pattern of the source is
  a hand-written recogniser, and its backtracking was resolved by reading
  the pattern.
- `\w` is ASCII, as without the `u` flag. `\s` is the ECMAScript
  white-space and line-terminator set.
- Strings are sequences of UTF-16 code units in the source and of Dafny
  `char`s here. Characters outside the Basic Multilingual Plane are
  therefore not split into surrogates.
- The CLI (src/cli.ts, src/cli-detection.ts, src/cli-style.ts) is not part
  of this model.
- Legacy.LegacyRun: the legacy orchestrator is a function, not a method.
  Its loops are the scan loops, which it shares with the current tool (the
  same ten patterns, the same normalisation and the same array check), plus
  its flatten and its deletion. Those loops are modelled by
  `FileScanner.ScanFiles`, `Legacy.LegacyFlatten` and
  `Legacy.LegacyRemoveUnusedKeys`.
- Legacy.LegacyRun uses the intended deletion `Legacy.Delete`, not the
  deletion as written (see Findings). The as-written behaviour is
  `Legacy.LegacyRemoveUnusedKeys`.

- Patterns.BracketRecognised: a chain whose first segment name starts with
  `)` is not covered. There the base run stops at the quote and `)` inside
  that segment, and the pattern matches a shorter key instead, for example
  `a[` in `t('a[')x']')`. `Patterns.BracketSound` still describes what is
  matched then.

## Findings

| source | as written | input that shows it | evidently intended | confidence | as-written member | corrected member |
|---|---|---|---|---|---|---|
| src/index.ts:160-168 | the walk towards an unused path breaks at the first missing key, and `delete current[lastPart]` then runs on the object where it stopped | `{"a.b": "x", "b": "y"}` with a source file holding `t('b')`: only `a.b` is unused; it splits into `["a", "b"]`, `a` is missing at the root, and the root's `b`, a used key, is deleted while `a.b` stays | delete the last segment only from the object the whole path leads to, and otherwise do nothing, as the current tool does at src/translations-cleanup/index.ts:100-110 | not executed | Legacy.DeleteAsWritten, Legacy.DeleteAsWrittenHitsSibling, Legacy.LegacyRunHitsUsedKey | Legacy.Delete, Legacy.DeleteLeaves |
