# A verified model of the split-APK merge in `apkm.py`

`apkm.py` turns an `.apkm` bundle into one APK that can be installed by itself. It lists the archive, picks out
the packages, decodes them with apktool, merges the split configuration packages into the base package, and
rebuilds the result. This project models the three parts of that script that decide what ends up in the
merged package:

- **`fix_public_resource_ids`**. apktool decodes the base package without the resource names that live in the
  split packages, so it makes up names of the form `APKTOOL_DUMMY_…` for them. The function repairs this in four
  steps:
  1. Collect the dummy entries of the base `res/values/public.xml` (module `ResourceTables`).
  2. Resolve each dummy name through the ids in the splits' `public.xml` files (module `ResourceTables`).
  3. Rename the base entries (module `ResourceRename`).
  4. In the `.xml` files under the base package's `res` directory that parse, while the manifest parses,
     rewrite the `@type/APKTOOL_DUMMY_…` references whose dummy name is resolved. In attribute values, also
     rewrite the bare dummy names that are resolved. Unresolved names are kept, and the walk stops at the
     first dummy name missing from the table. `AndroidManifest.xml` and other files outside `res` are not
     rewritten (module `ResourceRefs`).

  Module `PublicResourceIds` puts the four steps together, with both early returns and the exceptions
  described below.
- **`disable_split_apk`** (module `SplitManifest`). It edits `AndroidManifest.xml` so the merged package no
  longer claims to need splits:
  - it strips `requiredSplitTypes`, `splitTypes` and `isSplitRequired`;
  - it sets `extractNativeLibs` to `"true"` where the attribute is present;
  - it removes the `com.android.vending.splits` meta-data elements met after an `application` element. They
    are removed from the last `application` element. When one of them is not a direct child of it, the
    function raises and writes nothing.
- **the package filters of `main`** (module `Packages`): `apk_files` and `split_config_packages`.

Shared modules:

- `Text` holds the Python string operations the script relies on: `startswith`, `endswith`, `lower` and
  `split`.
- `Xml` holds the document model.

A parsed XML file is the sequence of its elements in the order `ElementTree.iter()` visits them. Each element
carries:

- its tag;
- its attribute map;
- its optional text;
- its depth, where the root is 0.

`getroot()`'s children are the elements at depth 1. The parent/child and subtree relations that
`appEl.remove(el)` depends on are read off the depths.

The file system enters and leaves the model as values:

- The `res` directory of the decoded base package is the sequence of its files in `os.walk` order. The
  sequence must be generated in that order (a directory's files before its subdirectories).
- Each file is parsed or unparsable.
- A split package's `public.xml` is absent, parsed or unparsable.
- The manifest's namespace scan is the URI bound to the `android` prefix, or none.

Each function returns the files as they are on disk afterwards, together with how it ended: an early return,
a normal end, or the exception that stopped it.

Where the script loops or edits in place, the model does too:

- a parsed tree is an `array<Node>` that the loops edit;
- loop invariants prove that each loop computes the function that defines it;
- the properties the script is meant to have are proved about those functions as lemmas.

## Behaviour of the code that the model keeps

- Step 1 (`apkm.py:86`) skips an entry whose *name* is already a *key* of `idToDummyName`, which is keyed by id.
  So a dummy entry is entered unless its name equals an id already entered. Two entries with the same id
  leave the later name on the id, and both names in `dummyNameToRealName` (`CollectLaterIdWins`,
  `DuplicateIdLaterWins`).
- Step 2 takes the *last* split entry that carries a matching id (`ResolveLastWins`, `ResolveAllIsConcat`).
  A split whose `public.xml` does not parse raises, and nothing catches it.
- Step 4:
  - It looks up `dummyNameToRealName[...]` for any value starting with `APKTOOL_DUMMY_`. The lookup raises
    `KeyError` when that name is not in the table. Only `ParseError` is caught, so the walk stops there. Files
    written before that point stay written, and later files are not looked at (`WalkOutcome`).
  - The manifest namespaces are read again inside the same `try` for every file. A manifest that does not
    parse makes every file be skipped. A manifest without an `android` prefix raises `KeyError`.
  - `val.split("/")[1]` ignores anything after a second `/`, so `@a/APKTOOL_DUMMY_1/x` becomes `@a/real`
    (`RewriteDropsTail`).
  - A bare dummy name is rewritten in an attribute value but not in an element's text (`RewriteBareName`).
- `disable_split_apk`:
  - It keeps the *last* `application` element as `appEl`.
  - It collects split meta-data met anywhere after the first `application`.
  - It overwrites `extractNativeLibs` only when the attribute is there.
  - `appEl.remove(el)` raises `ValueError` for an element that is not a direct child, and the manifest is then
    not written (`DisableFailsOnRemoval`).

## Model

| member | source | states |
|---|---|---|
| Text.Split | apkm.py:166 | `val.split("/")` has at least one piece, and no piece contains the separator |
| Text.JoinSplit | apkm.py:166-173 | joining the pieces of a split back with the separator gives the original value |
| Text.SplitJoin | apkm.py:166 | splitting pieces that contain no separator, after joining them, gives back exactly those pieces |
| Text.SplitWithoutSep | apkm.py:166 | a value without the separator splits into itself alone |
| Text.SplitAfterPiece | apkm.py:166 | a separator-free piece followed by the separator splits off as the first piece, and the rest splits on its own |
| Text.SplitHasSep | apkm.py:165-166 | `"/" in val` holds exactly when the split has at least two pieces, so `split("/")[1]` exists exactly when the script reads it |
| Text.Lower | apkm.py:137 | `str.lower()` on the ASCII letters, character by character |
| ResourceTables.CollectDummyNames | apkm.py:73-89 | the step 1 loop over the root children computes exactly the two tables `Collect` defines |
| ResourceTables.CollectSound | apkm.py:82-89 | after step 1, every id maps to the name of a dummy entry with that id; every dummy name belongs to a dummy entry; every real name is still `None`; every mapped name has a slot in `dummyNameToRealName` |
| ResourceTables.Collect | apkm.py:82-89 | the two tables after step 1's loop over the base elements in document order, one `CollectStep` per element (the definition the step 1 lemmas are about) |
| ResourceTables.CollectGrows | apkm.py:82-89 | step 1 only adds: every key of either table after a prefix of the file is still a key after the whole file |
| ResourceTables.CollectComplete | apkm.py:82-89 | every dummy entry has its id and its name in the final tables, unless its name equals an id entered by an earlier element |
| ResourceTables.CollectLaterIdWins | apkm.py:84-89 | when several dummy entries carry one id, the id ends up mapped to the name of the last of them that step 1 entered |
| ResourceTables.CollectEmpty | apkm.py:91-92 | step 1 finds nothing, and the function returns early, exactly when the base `public.xml` has no dummy entry |
| ResourceTables.DuplicateIdLaterWins | apkm.py:84-89 | an illustration of `CollectLaterIdWins`: for two dummy entries with one id, the id keeps the later name, and both names wait unresolved |
| ResourceTables.Resolve | apkm.py:105-110 | step 2 over one split does not change `idToDummyName`, and keeps the set of dummy names |
| ResourceTables.ResolveFromSplit | apkm.py:105-110 | the inner loop of step 2 computes exactly `Resolve` on the split's elements |
| ResourceTables.ResolveSource | apkm.py:105-110 | a dummy name's real name changes only to the name of a split entry whose id step 1 tied to that dummy name |
| ResourceTables.ResolveLastWins | apkm.py:105-110 | of several split entries whose ids map to one dummy name, the last one sets its real name |
| ResourceTables.ResolveAppend | apkm.py:100-110 | going over two element lists one after the other equals going over their concatenation |
| ResourceTables.ResolveAllIsConcat | apkm.py:100-110 | step 2 fails exactly when some split's `public.xml` does not parse; otherwise it is `Resolve` over all split entries in split order |
| ResourceTables.ResolveAllErrSticks | apkm.py:100-104 | the first split that fails to parse decides the outcome of step 2 |
| ResourceTables.ResolveAll | apkm.py:100-110 | step 2 over the splits in order: a split without `public.xml` is passed over, an unparsable one raises, a parsed one is `Resolve`d (the definition `ResolveAllIsConcat` characterises) |
| ResourceRename.RenameDummyEntries | apkm.py:114-122 | step 3 on the tree in place: every element becomes its `RenameNode`, and `updated` is `CountRenames` of the old tree |
| ResourceRename.RenameDoc | apkm.py:115-121 | the base public.xml after step 3: each entry whose dummy name is resolved gets the real name (the definition `RenameDocChanges` characterises) |
| ResourceRename.CountRenames | apkm.py:114-122 | the `updated` counter of step 3: one for each entry renamed, counted over the file in order (the definition `CountRenamesIsSize` characterises) |
| ResourceRename.CountRenamesIsSize | apkm.py:114-122 | the step 3 counter equals the number of positions renamed |
| ResourceRename.RenameDocChanges | apkm.py:115-121 | step 3 replaces the `name` of an entry with a resolved dummy name by its real name and changes nothing else; every other element is unchanged |
| ResourceRename.RenamedFromSplit | apkm.py:82-121 | a base entry renamed by step 3 gets the name of some split entry whose id step 1 tied to the entry's dummy name |
| ResourceRefs.RewriteTypedRef | apkm.py:163-173 | `@type/APKTOOL_DUMMY_X` with X resolved becomes `@type/` plus X's real name, in an attribute value and in a text |
| ResourceRefs.RewriteDropsTail | apkm.py:166-173 | a reference with a second `/` is rewritten to prefix, `/` and the real name, dropping the tail |
| ResourceRefs.RewriteBareName | apkm.py:176-180 | a bare resolved dummy name is replaced in an attribute value, and kept in a text |
| ResourceRefs.RewriteMissing | apkm.py:163-178 | the lookup raises `KeyError` exactly for a dummy reference or a bare dummy name that is not in the table |
| ResourceRefs.RewriteKeeps | apkm.py:163-191 | a value that is neither a dummy reference nor a bare dummy name, or whose dummy name is unresolved, is kept |
| ResourceRefs.RewriteAttrValue | apkm.py:162-182 | the decision for one attribute value: the typed-reference test first, then the bare-name test, each with its lookup (the definition the rewrite lemmas characterise) |
| ResourceRefs.RewriteText | apkm.py:185-199 | the decision for an element's text: only the typed-reference test, and nothing for an absent text |
| ResourceRefs.RewriteDoc | apkm.py:159-199 | a file's tree after step 4's element loop: every element with its attributes and its text rewritten (the definition `AppliedChanges` and `RewriteTree` refer to) |
| ResourceRefs.RewriteAttributes | apkm.py:161-182 | the attribute loop succeeds exactly when no attribute needs a missing name; it then yields every attribute rewritten and `changed` is whether one was |
| ResourceRefs.RewriteTree | apkm.py:158-199 | the element loop over a file succeeds exactly when no value needs a missing name; it then leaves the tree rewritten and `changed` is whether some value was |
| ResourceRefs.RewriteFile | apkm.py:137-213 | the `try` block for one file computes exactly `StepFile`: skip non-`.xml` names, unparsable files and every file while the manifest does not parse; abort on a missing `android` prefix or a missing name; write only if changed |
| ResourceRefs.RewriteReferences | apkm.py:135-213 | step 4 over the walk computes exactly `Walk`: each file in turn, stopping at the first exception |
| ResourceRefs.IsXmlName | apkm.py:137 | the file-name test of step 4: the lower-cased name ends in `.xml` |
| ResourceRefs.XmlNameByLastFour | apkm.py:137 | the name test reads only the last four characters, each up to case; a name ending in `.xml` passes, and lower-casing it first changes nothing |
| ResourceRefs.StepFile | apkm.py:137-213 | the outcome for one file of the walk: untouched, written with its rewritten tree, or aborted with the error that escapes the `try` |
| ResourceRefs.Walk | apkm.py:135-213 | step 4 over the files in walk order: files before the first abort have had their step, the rest are as they were (the definition `WalkOutcome` characterises) |
| ResourceRefs.WalkAt | apkm.py:135-213 | one unfolding of the walk at any position |
| ResourceRefs.WalkKeepsListing | apkm.py:135-137 | step 4 keeps the listing: the same number of files, each with its directory and name |
| ResourceRefs.FirstAbort | apkm.py:138-213 | the position of the first file whose step raises, with no earlier file raising |
| ResourceRefs.WalkOutcome | apkm.py:135-213 | without an exception every file has had its step; after one at file k, the files before k have had theirs, and k and later files are as they were |
| ResourceRefs.AppliedChanges | apkm.py:137-207 | a file changes only if its name ends in `.xml` in any case, it parses, and something in it was rewritten. It then holds its tree rewritten, and its directory and name are kept |
| ResourceRefs.XmlNameIgnoresCase | apkm.py:137 | an illustration of `XmlNameByLastFour`: `strings.xml` and `LAYOUT.XML` are looked at; `public.xml.bak` is not |
| PublicResourceIds.PublicXmlIndex | apkm.py:69-70 | the position of `values/public.xml` in the walk of `res`, with no earlier file being it |
| PublicResourceIds.FixPublicResourceIds | apkm.py:67-216 | the whole function computes exactly `Fix`: early returns, step 1, step 2 with its parse failure, step 3 written back, step 4 |
| PublicResourceIds.Fix | apkm.py:67-216 | the whole function: the early returns at lines 69-70 and 91-92, the parse failures, steps 1 to 3 on the base public.xml, then step 4 over `res` (the definition the `Fix…` lemmas are about) |
| PublicResourceIds.FixLeavesFilesAlone | apkm.py:69-104 | with no base `public.xml`, no dummy entries, an unparsable base `public.xml`, or an unparsable split `public.xml`, no file changes and the function does not end normally |
| PublicResourceIds.FixChangesOnly | apkm.py:123-207 | the listing is kept, and a changed file is the base `public.xml` or a parsable file whose name ends in `.xml` |
| PublicResourceIds.FixCountsRenames | apkm.py:114-130 | when the function ends normally, its logged step 3 count is the number of base entries renamed |
| SplitManifest.EditDoc | apkm.py:273-284 | the attribute edits keep the number of elements |
| SplitManifest.EditNode | apkm.py:274-284 | the attribute edits on one element (the definition `EditNodeEffect` characterises) |
| SplitManifest.Collected | apkm.py:285-290 | the positions `elsToRemove` holds after the loop, in document order (the definition `CollectedIff` characterises) |
| SplitManifest.LastApp | apkm.py:279-280 | `appEl` after the loop is an `application` element, and no `application` element comes after it |
| SplitManifest.KeptIndices | apkm.py:291-299 | the written elements are exactly the positions outside every removed subtree, in increasing order |
| SplitManifest.FirstNotChild | apkm.py:291-292 | the first collected element that is not a direct child of `appEl`, all earlier ones being children |
| SplitManifest.EditElement | apkm.py:274-284 | the attribute edits on one element, as the script does them, equal `EditNode` |
| SplitManifest.CollectOneMore | apkm.py:273-290 | one more loop iteration updates `appEl` and `elsToRemove` as the script does |
| SplitManifest.EditAndCollect | apkm.py:271-290 | the loop over the tree in place: it edits every element, and `appEl` and `elsToRemove` are `LastApp` and `Collected` of the old tree |
| SplitManifest.CheckRemovals | apkm.py:291-292 | the removal loop raises at exactly the first element that is not a child of `appEl` |
| SplitManifest.ProjectOneMore | apkm.py:295-299 | writing one more kept element appends it |
| SplitManifest.WriteKept | apkm.py:295-299 | the written document is the kept elements in document order |
| SplitManifest.DisableSplitApk | apkm.py:253-299 | the whole function computes exactly `Disable`: parse failure, missing `android` prefix, failed removal, or the manifest written |
| SplitManifest.Disable | apkm.py:253-299 | the whole function on the manifest as read: parse failure, missing `android` prefix, a refused removal, or the edited tree without the removed subtrees (the definition the `Disable…` lemmas are about) |
| SplitManifest.EditNodeEffect | apkm.py:274-284 | `manifest` loses exactly `requiredSplitTypes` and `splitTypes`; `application` loses `isSplitRequired` and has `extractNativeLibs` set to `"true"` exactly when it had it; all else is unchanged |
| SplitManifest.CollectedIff | apkm.py:285-290 | an element is collected for removal exactly when it is split meta-data and an `application` element comes before it |
| SplitManifest.CollectedBelow | apkm.py:285-290 | every collected position lies in the document |
| SplitManifest.DisableStripsAttributes | apkm.py:273-284 | in a written manifest, no `manifest` or `application` element keeps a split attribute, and `extractNativeLibs` reads `"true"` wherever it is present |
| SplitManifest.DisableRemovesSplitMetaData | apkm.py:285-299 | in a written manifest, split meta-data directly under the last `application` is gone with its subtree, and an element is kept exactly when it lies in no collected subtree |
| SplitManifest.DisableFailsOnRemoval | apkm.py:285-292 | with a parsable manifest and an `android` prefix, the function fails exactly when a collected element is not a direct child of the last `application` |
| Packages.Filter | apkm.py:312 | a list comprehension's result is no longer than its input, and every entry passes the test |
| Packages.ApkFiles | apkm.py:312 | `apk_files`: the comprehension keeping names that end in `.apk` |
| Packages.SplitConfigPackages | apkm.py:316 | `split_config_packages`: the comprehension keeping names that start with `split_config.` |
| Packages.FilterCounts | apkm.py:312 | every entry that passes is kept as often as it occurs, and every other entry is dropped |
| Packages.FilterMembers | apkm.py:312 | an entry is in the result exactly when it is in the input and passes the test |
| Packages.SubsequenceOfTail | apkm.py:312 | a subsequence of a list's tail is a subsequence of the list |
| Packages.DropHead | apkm.py:312 | a subsequence without its first entry is still a subsequence |
| Packages.FilterIsSubsequence | apkm.py:312 | the comprehension keeps archive order: its result is a subsequence of the input |
| Packages.FilterTwice | apkm.py:312-316 | filtering by one test and then another equals filtering once by both |
| Packages.FilterAppend | apkm.py:312 | the comprehension over a concatenation is the concatenation of the comprehensions |
| Packages.SplitConfigPackagesExact | apkm.py:312-316 | `split_config_packages` holds exactly the archive entries ending in `.apk` and starting with `split_config.`, with their multiplicity and archive order, as a subsequence of `apk_files` |
| Packages.ListingExample | apkm.py:312-316 | on a typical listing, `info.json` and `icon.png` are dropped, and `base.apk` is not a split config package |

## Left out

- `apktool_decode` and `apktool_build` (`apkm.py:19-54`) run apktool as a separate process, which is outside
  this model. So does the rest of `main`'s sequencing: the extraction of `base.apk` and of the split packages,
  the merge calls and the final build.
- `zipfile` extraction, paths and the reading and writing of files: the file system enters and leaves as values.
- XML parsing and serialisation, namespace registration (`register_namespace`), and the XML declaration written
  with `encoding="utf-8"`: the model stops at the parsed tree. The manifest's `start-ns` scan is reduced to the
  URI bound to `android`, which is the only part the two functions read.
- The order in which `ElementTree` iterates an element's attributes: step 4's attribute loop is proved correct
  for any order, and its result does not depend on the order.
- `copy2_conflict` and `merge_decoded_apks`: file copying, outside this model. `merge_android_manifest`
  (`apkm.py:56-58`) is an empty stub, so there is nothing to model.
- `register_namespace` (`apkm.py:154` and `apkm.py:267`) raises `ValueError` for a manifest prefix of the form
  `ns` followed by digits. Neither function catches it, and the model has no such case: the namespace scan is
  reduced to the URI bound to `android`.
- Logging, and the `updated` counter of step 4, which only feeds a log line. The step 3 counter is modelled
  because it counts renames.
- `Text.Lower`: `str.lower()` is modelled on the ASCII letters only, since file names of decoded resources are
  ASCII.
- An `AndroidManifest.xml` that is missing altogether. In `disable_split_apk` it raises before anything is
  written, like the unparsable manifest the model has. In step 4 it would raise `FileNotFoundError`, which
  the `try` does not catch. The model's manifest is always present.
- A split package without a `res/values/public.xml` is modelled as an absent one. A missing base
  `public.xml` is modelled as no `values/public.xml` entry in the walk of `res`.
- The browser download script (`selenium-dl.js`) and the Frida agent (`frida-agent/`) are not part of this model.
  The behaviour modelled here follows the code of `apkm.py`.
