# Split containers and resource-ID finalisation, in Dafny

This project models two pieces of the Android framework and proves properties of them.

**The split descriptor** (`split_container.dfy`, module `SplitContainers`) models `SplitContainer` from the window-manager embedding extensions. It binds a primary and a secondary task-fragment container under a split rule. When it is created it registers finish-on-exit obligations on the two containers. It also provides the static predicates the split controller uses to decide which container is torn down when its partner exits.
- The split rule is a closed datatype: a pair rule with two finish behaviours, a placeholder rule with its own primary-with-secondary behaviour and a sticky flag, and any other rule.
- The finish behaviours `FINISH_NEVER`, `FINISH_ALWAYS` and `FINISH_ADJACENT` are plain integers (0, 1, 2), as they are in the source.
- A task-fragment container is a class. It holds a running-activity count, a set of activity tokens, a list of containers to finish on exit and a list of activities to finish on exit.
- The constructor is the only place with side effects. Its contract states the new contents of all four finish lists. It also covers the case where one container is passed as both primary and secondary.

**The resource-ID finaliser** (`finalize_res.dfy`, module `FinalizeRes`) models the aapt2 script `finalize_res.py`. The script turns `<staging-public-group>` declarations into final public resource IDs.
- The script's module-level state (the per-type counter dict, the current type and the lowest staging first-id) is the class `Finalizer`. Its methods update that state in place, as `collect_ids`, `finalize_group` and `finalize_item` do.
- Groups arrive already parsed, as a type, a first-id value and the list of entry names.
- The script's small string functions are written out by hand and proved:
  - the removed-name test `_*removed.+`;
  - the `0x%08x`-style ID formatting;
  - the two whitespace normalisations.

Two behaviours of the code are easy to misread, and the model keeps both as written:
- `getFinishPrimaryWithSecondaryBehavior` returns a placeholder rule's own primary-with-secondary field, even when that field is `FINISH_NEVER`. The boolean `shouldFinishPrimaryWithSecondary` is still true for every placeholder rule. The lemma `PrimaryPredicateMatchesBehaviorExceptPlaceholder` pins down exactly when the two disagree.
- The constructor checks nothing about the primary container. A primary that does not hold the triggering activity takes the branch that registers only that activity.

## Model

| member | source | states |
|---|---|---|
| SplitContainers.ShouldFinishPrimaryWithSecondary | libs/WindowManager/Jetpack/src/androidx/window/extensions/embedding/SplitContainer.java:118-124 | true for every placeholder rule; for a pair rule true iff its primary-with-secondary behaviour is not NEVER; false for any other rule |
| SplitContainers.ShouldFinishSecondaryWithPrimary | libs/WindowManager/Jetpack/src/androidx/window/extensions/embedding/SplitContainer.java:126-132 | the same three cases, using the pair rule's secondary-with-primary behaviour |
| SplitContainers.ShouldFinishAssociatedContainerWhenStacked | libs/WindowManager/Jetpack/src/androidx/window/extensions/embedding/SplitContainer.java:134-136 | true only for a behaviour other than NEVER and ADJACENT |
| SplitContainers.ShouldFinishAssociatedContainerWhenAdjacent | libs/WindowManager/Jetpack/src/androidx/window/extensions/embedding/SplitContainer.java:138-141 | implied by the stacked predicate; true only for a behaviour other than NEVER |
| SplitContainers.StackedImpliesAdjacent | libs/WindowManager/Jetpack/src/androidx/window/extensions/embedding/SplitContainer.java:134-141 | stacked holds iff the behaviour is ALWAYS; adjacent holds iff it is ALWAYS or ADJACENT; stacked implies adjacent; both are false for NEVER |
| SplitContainers.GetFinishPrimaryWithSecondaryBehavior | libs/WindowManager/Jetpack/src/androidx/window/extensions/embedding/SplitContainer.java:143-151 | the rule's own primary-with-secondary field for placeholder and pair rules; NEVER for other rules |
| SplitContainers.GetFinishSecondaryWithPrimaryBehavior | libs/WindowManager/Jetpack/src/androidx/window/extensions/embedding/SplitContainer.java:153-161 | ALWAYS for every placeholder rule, sticky or not; the pair rule's field for pair rules; NEVER otherwise |
| SplitContainers.SecondaryPredicateMatchesBehavior | libs/WindowManager/Jetpack/src/androidx/window/extensions/embedding/SplitContainer.java:126-161 | for every rule, shouldFinishSecondaryWithPrimary equals "the secondary-with-primary behaviour is not NEVER" |
| SplitContainers.PrimaryPredicateMatchesBehaviorExceptPlaceholder | libs/WindowManager/Jetpack/src/androidx/window/extensions/embedding/SplitContainer.java:118-151 | the primary-side boolean and "behaviour is not NEVER" disagree exactly for a placeholder rule whose own field is NEVER |
| SplitContainers.IsStickyPlaceholderRule | libs/WindowManager/Jetpack/src/androidx/window/extensions/embedding/SplitContainer.java:163-168 | holds iff the rule is a placeholder rule with the sticky flag set; such a rule finishes in both directions |
| SplitContainers.PrimaryObligationFor | libs/WindowManager/Jetpack/src/androidx/window/extensions/embedding/SplitContainer.java:50-60 | no primary-side obligation iff shouldFinishPrimaryWithSecondary is false; the whole primary container iff it also runs exactly one activity and holds the trigger; otherwise only the triggering activity |
| SplitContainers.ObligationsOfPlaceholderAndNeverRules | libs/WindowManager/Jetpack/src/androidx/window/extensions/embedding/SplitContainer.java:50-63 | a placeholder rule always registers a primary-side obligation and the secondary-side one; a pair rule with both behaviours NEVER registers neither |
| SplitContainers.SecondaryContainersAdded | libs/WindowManager/Jetpack/src/androidx/window/extensions/embedding/SplitContainer.java:51-53 | the secondary's container list gains exactly the primary container when the obligation is the whole container, and nothing otherwise |
| SplitContainers.SecondaryActivitiesAdded | libs/WindowManager/Jetpack/src/androidx/window/extensions/embedding/SplitContainer.java:54-58 | the secondary's activity list gains exactly the triggering activity when the obligation is the activity only, and nothing otherwise |
| SplitContainers.PrimaryContainersAdded | libs/WindowManager/Jetpack/src/androidx/window/extensions/embedding/SplitContainer.java:61-63 | the primary's container list gains exactly the secondary iff shouldFinishSecondaryWithPrimary holds |
| SplitContainers.SplitContainer.constructor | libs/WindowManager/Jetpack/src/androidx/window/extensions/embedding/SplitContainer.java:40-64 | stores the two containers, the rule and the attributes; appends the primary-side obligation to the secondary's lists and the secondary-side one to the primary's container list; leaves the primary's activity list and both containers' activity counts and tokens unchanged; with one container on both sides, both appends land on it in source order |
| SplitContainers.SplitContainer.SetSplitAttributes | libs/WindowManager/Jetpack/src/androidx/window/extensions/embedding/SplitContainer.java:92-94 | afterwards getSplitAttributes returns the argument; only that field may change, so the containers and the rule stay as they were |
| SplitContainers.SetSplitAttributesTwice | libs/WindowManager/Jetpack/src/androidx/window/extensions/embedding/SplitContainer.java:92-94 | setting the same attributes twice in a row leaves getSplitAttributes returning them, as one call does |
| SplitContainers.SplitContainer.IsPlaceholderContainer | libs/WindowManager/Jetpack/src/androidx/window/extensions/embedding/SplitContainer.java:108-110 | a placeholder split finishes in both directions, with secondary behaviour ALWAYS; a sticky placeholder rule always gives one |
| SplitContainers.PlaceholderContainerFinishesBothWays | libs/WindowManager/Jetpack/src/androidx/window/extensions/embedding/SplitContainer.java:108-110 | isPlaceholderContainer holds iff the stored rule is a placeholder rule; such a split finishes in both directions, with secondary behaviour ALWAYS; a sticky placeholder rule gives a placeholder split |
| FinalizeRes.Finalizer.constructor | tools/aapt2/tools/finalize_res.py:46-49 | the script starts with no counters, an empty current type and a lowest staging first-id of 0x01FFFFFF |
| FinalizeRes.Finalizer.CollectIds | tools/aapt2/tools/finalize_res.py:85-89 | the counters become the fold of max(id + 1, counter or 0) over the finalised entries, in order |
| FinalizeRes.CollectedIdsBounds | tools/aapt2/tools/finalize_res.py:85-89 | after collecting, each type's counter is above every finalised ID of that type; no counter decreases; each counter is the previous value (0 if absent) or some finalised ID + 1 |
| FinalizeRes.IsRemovedName | tools/aapt2/tools/finalize_res.py:58 | a name the test accepts has at least 8 characters, "removed" and one more; IsRemovedNameMatchesPattern gives the full pattern |
| FinalizeRes.IsRemovedNameMatchesPattern | tools/aapt2/tools/finalize_res.py:58-59 | the removed-name test holds iff the name matches '_*removed.+' from its start: underscores, then "removed", then at least one character that is not a newline |
| FinalizeRes.Finalizer.FinalizeItem | tools/aapt2/tools/finalize_res.py:56-62 | a removed name yields nothing and leaves the counters unchanged; any other name takes the type's current counter as its ID and increments that counter by one |
| FinalizeRes.Finalizer.FinalizeItems | tools/aapt2/tools/finalize_res.py:75 | the group's entries, visited in order, produce Assigned(names, c) from the counter c on entry; the counter ends at c + number of kept names |
| FinalizeRes.AssignedConsecutive | tools/aapt2/tools/finalize_res.py:58-62 | the non-removed names get IDs c, c+1, … in source order, one per kept name, with no holes |
| FinalizeRes.Finalizer.FinalizeGroup | tools/aapt2/tools/finalize_res.py:70-80 | sets the current type; the group's first-id seeds the counter only when the type has none; entries are numbered from the counter; a group with entries (removed ones included) is emitted renamed and lowers the lowest first-id to min(first-id, lowest); an empty group leaves the lowest value unchanged and emits only its inner text |
| FinalizeRes.Finalizer.FinalizeGroups | tools/aapt2/tools/finalize_res.py:104-106 | every staging group in order: the outputs are FinalizedOutputs, each group numbered from the counter its type has after the groups before it; the counters end at CountersAfter; the current type is the last group's type (unchanged for no groups); the lowest first-id ends at LowestFirstId of the groups |
| FinalizeRes.FinalizedOutputsAt | tools/aapt2/tools/finalize_res.py:70-80 | output i is group i numbered from the counter its type has after groups 0 .. i-1; it is empty exactly when the group has no entries |
| FinalizeRes.FinalizedKeepsInvariant | tools/aapt2/tools/finalize_res.py:56-89 | finalising the groups one by one keeps the allocator invariant: counters above every ID handed out or finalised, new IDs above the finalised ones of their type and increasing within a type |
| FinalizeRes.NextId | tools/aapt2/tools/finalize_res.py:85-89 | the first free ID of a type: at least 0, above every finalised ID of the type, and 0 or some finalised ID + 1 |
| FinalizeRes.CollectedIdsNextId | tools/aapt2/tools/finalize_res.py:85-89 | collecting from no counters gives a type a counter iff it has a finalised entry, and that counter is its first free ID |
| FinalizeRes.CountersAfterValue | tools/aapt2/tools/finalize_res.py:74-75 | after a run of groups a type has a counter iff it had one or some group has that type; an already counted type gains exactly its kept names; a new type starts at its first group's first-id plus its kept names |
| FinalizeRes.RunStartMatches | tools/aapt2/tools/finalize_res.py:74-75 | the counter group i starts from is RunStart: the type's first free ID (or its first group's first-id when nothing of that type is finalised) plus the names of that type kept by earlier groups |
| FinalizeRes.FinalizedIds | tools/aapt2/tools/finalize_res.py:56-80 | over a whole run, the j-th kept name of group i gets ID RunStart + j, with the group's type and the name itself; a group is emitted renamed iff it has entries |
| FinalizeRes.FinalizedIdsFresh | tools/aapt2/tools/finalize_res.py:56-89 | over a whole run no new ID repeats a finalised ID of its type, and new IDs of one type strictly increase in output order |
| FinalizeRes.LowestFirstIdBounds | tools/aapt2/tools/finalize_res.py:70-80 | the lowest staging first-id never increases; it ends at or below every non-empty group's first-id; it is the start value or one of those first-ids |
| FinalizeRes.CollectEstablishesInvariant | tools/aapt2/tools/finalize_res.py:85-89 | after collecting, every finalised ID lies below its type's counter |
| FinalizeRes.FinalizeGroupKeepsInvariant | tools/aapt2/tools/finalize_res.py:70-80 | finalising a group keeps each type's counter above all finalised and new IDs of that type; new IDs stay above finalised ones and increase within a type |
| FinalizeRes.SeedNextReleaseGroups | tools/aapt2/tools/finalize_res.py:132-137 | one empty group per entry of the 18 resource types, in list order; the k-th (from 0) has first-id lowest − 0x10000·(k+1) |
| FinalizeRes.FinalizeResources | tools/aapt2/tools/finalize_res.py:92-137 | collect, finalise every group, then seed. Group i is emitted as its result numbered from RunStart, so its j-th kept name takes RunStart + j. No new ID repeats a finalised ID of its type, and new IDs of a type strictly increase across the run. Exactly the groups with entries are emitted. Every seeded first-id lies below 0x01FFFFFF and below every non-empty group's first-id |
| FinalizeRes.HexDigitsRoundTrip | tools/aapt2/tools/finalize_res.py:62 | the lowercase hex digits of n read back as n |
| FinalizeRes.HexDigitsLength | tools/aapt2/tools/finalize_res.py:62 | a number below 16^k needs at most k hex digits |
| FinalizeRes.FormatHexId | tools/aapt2/tools/finalize_res.py:62 | "0x" then at least 8 characters; a '-' right after "0x" exactly for a negative value; otherwise lowercase hex digits |
| FinalizeRes.FormatHexIdRoundTrip | tools/aapt2/tools/finalize_res.py:62 | a non-negative ID renders as "0x" and then zero-padded lowercase hex digits that read back as the ID, at least 8 of them and exactly 8 below 2^32 |
| FinalizeRes.FormatNegativeHexId | tools/aapt2/tools/finalize_res.py:132-137 | a negative first-id renders as "0x-" and then the magnitude's digits padded to 7, as Python's '{0:08x}' gives it; a magnitude below 16^7 gives exactly 7 digits, 10 characters in all |
| FinalizeRes.TrimSpacesBeforeNewlines | tools/aapt2/tools/finalize_res.py:107 | the result has no space directly before a newline |
| FinalizeRes.TrimSpacesBeforeNewlinesCorrect | tools/aapt2/tools/finalize_res.py:107 | removing the spaces before newlines keeps every non-space character in order and leaves no space directly before a newline |
| FinalizeRes.TrimSpacesBeforeNewlinesIdempotent | tools/aapt2/tools/finalize_res.py:107 | text is unchanged iff it has no space before a newline; trimming twice equals trimming once |
| FinalizeRes.TrimSpacesBeforeNewlinesRun | tools/aapt2/tools/finalize_res.py:107 | a run of spaces before a newline is removed and the text on either side is trimmed on its own, so a space not followed by a newline stays |
| FinalizeRes.TrimNoNewline | tools/aapt2/tools/finalize_res.py:107 | text without a newline is left unchanged, its spaces included |
| FinalizeRes.CollapseBlankLines | tools/aapt2/tools/finalize_res.py:108 | the result has no three newlines in a row and starts with the same character when the text starts with something other than a newline |
| FinalizeRes.CollapseBlankLinesCorrect | tools/aapt2/tools/finalize_res.py:108 | collapsing newline runs keeps every non-newline character in order and leaves no three newlines in a row |
| FinalizeRes.CollapseBlankLinesRun | tools/aapt2/tools/finalize_res.py:108 | a maximal run of k newlines becomes 2 newlines when k is 3 or more and stays as it is otherwise; the text on either side is collapsed independently |
| FinalizeRes.CollapseBlankLinesIdempotent | tools/aapt2/tools/finalize_res.py:108 | text is unchanged iff it has no three newlines in a row; collapsing twice equals collapsing once |

## Left out

- File handling in `finalize_res.py` (lines 92-141) is I/O and is not modelled. This covers opening, reading, seeking, writing and truncating the two files, the `rsplit` on the resources tags, stripping the outer newlines, and the fixed header comment. `FinalizeResources` models only what those lines compute from already-parsed input.
- Python's regular-expression engine is not modelled. Each staging group arrives as a parsed record (type, first-id value, entry names). Each finalised entry arrives as (type, name, id value). The hex parsing by `int(…, 16)` is therefore not modelled.
- The text a group is emitted with is not modelled. In the source, the whole matched group is re-emitted with every "staging-public-group" renamed, followed by the new lines. Text between entries and the inner text of an empty group are not modelled either. The model keeps the renamed group as the `FinalGroup` record and the empty group's text as `InnerTextOnly`.
- FinalizeItem: returns the declaration, or none for a removed name. It does not return the rendered string. The string the script returns is `ItemLine` of that result, written with `PublicLine` in the format of line 62. `ItemLine` and `PublicLine` are text renderers kept as documentation of that format; nothing is proved about them.
- SeedNextReleaseGroups: returns the seeded groups as records. Their text is `SeedGroupText`, a text renderer kept as documentation of that format; nothing is proved about it.
- `TaskFragmentContainer` internals are not modelled. Its `addContainerToFinishOnExit` and `addActivityToFinishOnExit` are modelled as plain appends. `TaskFragmentContainer.java` is not part of this model. Activities are known only by their token.
- `getTaskContainer`, `getMinDimensionsPair`, `toSplitInfo` and `toString` are left out. They pass values through to classes that are not part of this model. The getters for the primary container, the secondary container and the rule are the constant fields of `SplitContainer`.
- `SplitAttributes` is an uninterpreted record. No validation happens at this layer.
- The values 0, 1 and 2 of the finish behaviours come from `SplitRule`, which is not part of this model.
- `FlagCommandTest.kt` is a Mockito test of a class whose implementation is not part of this model. It is not modelled.
