# Arx Libertatis core logic in Dafny

This project models a handful of the engine's pure, index-shuffling and
text-processing routines as immutable Dafny datatypes and functions, and
proves what the code promises about them.

- **Meshes** (`object_model.dfy`, module `ObjectModel`). The module covers:
  - the name lookups of `Object.cpp`;
  - the texture-name classification `MakeUserFlag`;
  - `Eerie_Copy` and `EERIE_OBJECT_CenterObjectCoordinates`;
  - the skeleton construction `EERIE_CreateCedricData` together with `GetFather`. This turns an unordered list of vertex groups into a bone forest. Each vertex is owned by the innermost group listing it, or by the root bone.
- **Dismemberment** (`dismemberment.dfy`, module `Dismemberment`). The module covers:
  - the selection-name/cut-flag tables;
  - the cut-mask rules;
  - `applyCuts` hiding faces;
  - the choice of the region to sever in `ARX_NPC_TryToCutSomething`;
  - the vertex and face remapping of `ARX_NPC_SpawnMember`.
- **Entity lifecycle** (`entity.dfy`, module `Entities`). The whole world is a value: a table of entity slots, the `linked` lists of meshes, the global back-reference slots, a save-game log and a trace of teardown events. The module covers:
  - registration in the constructor;
  - `cleanReferences`;
  - the destructor's ordered teardown;
  - `destroy`, with its save bookkeeping and its recursion through attached entities;
  - `destroyOne`.
- **Environment** (`environment.dfy`, module `Environment`). The module covers the POSIX branch of `expandEnvironmentVariables` (`$NAME`, `${NAME}`, `${NAME-w}`, `${NAME:-w}`, `${NAME+w}`, `${NAME:+w}`, backslash escapes, nested skipping) and the POSIX branch of `getPreferredLocales`. The process environment is a `map<string, string>` parameter.
- **OS information** (`os_info.dfy`, module `OsInfo`). The module covers `parseDistributionName` over `os-release`/`lsb_release` text and the `/proc/meminfo` loop of `getMemoryInfo`. Both take the file contents as a string.
- **Script inventory commands** (`scripted_inventory.dfy`, module `ScriptedInventory`). The module covers:
  - the underscore-insensitive sub-command table of the `inventory` command;
  - `destroy`, `create`, `add` and `addmulti`;
  - the `weapon` and `setweapon` commands.
- **Font metrics** (`font.dfy`, module `Font`). The module covers the `TextSize` accessors, `Info::operator==` and the default `Glyph`.
- **Shared helpers** (`text.dfy`, modules `Options` and `Text`): ASCII string helpers standing in for `util::trim`, `util::splitIgnoreEmpty`, `boost::contains`/`icontains` and `boost::to_lower`.

Integers are unbounded. Where the code's width matters, the wrap-around is written out:
- the 64-bit meminfo arithmetic;
- the `short` conversion in `addmulti`;
- the `unsigned short` face indices of a spawned part;
- the `s32` text metrics.

Nullable references become `Option` values or integer handles, with `-1` for null. Positions are exact integer vectors, and distances are compared as squared integer distances.

## Model

| member | source | states |
|---|---|---|
| ObjectModel.GetSelection | src/scene/Object.cpp:261-273 | -1 exactly for a null mesh or when no selection has the name; otherwise the index of the first selection with that name |
| ObjectModel.GetGroup | src/scene/Object.cpp:275-287 | -1 exactly for a null mesh or when no group has the name; otherwise the index of the first group with that name |
| ObjectModel.GetGroupOriginByName | src/scene/Object.cpp:84-96 | -1 exactly when no group has the name; otherwise the origin vertex of the first such group |
| ObjectModel.GetActionPointIdx | src/scene/Object.cpp:98-110 | -1 exactly when no action point has the name; otherwise the vertex of the first such action point |
| ObjectModel.GetFather | src/scene/Object.cpp:289-300 | the greatest group index at or below `start` whose list holds the vertex, -1 when none does |
| ObjectModel.GetActionPointGroup | src/scene/Object.cpp:112-127 | -1 exactly for a null mesh, a negative index or a vertex no group lists; otherwise the highest-indexed group listing it |
| ObjectModel.MakeUserFlag | src/scene/Object.cpp:154-188 | flags are only added, and only flags the name implies; "water"/"spider_web" add water and transparency and never metal; "[metal]" adds metal only for other names; each keyword adds its flag |
| ObjectModel.MakeUserFlagIdempotent | src/scene/Object.cpp:154-188 | classifying a texture a second time changes nothing |
| ObjectModel.ClaimScanExact | src/scene/Object.cpp:346-351 | the scan of a group's list keeps exactly the vertices not yet claimed and not listed by a later group, each once |
| ObjectModel.UnclaimedBelowExact | src/scene/Object.cpp:359-376 | the fallback list holds exactly the vertices no group lists, in strictly ascending order |
| ObjectModel.NoGroupsGivesSingleRoot | src/scene/Object.cpp:316-331 | without groups there is one root bone at the origin with father -1, owning vertices 0..n-1 in order, and local positions equal the vertices |
| ObjectModel.BonePerGroup | src/scene/Object.cpp:336-353 | with groups there is one bone per group, translated to its group's origin vertex |
| ObjectModel.FatherIsNearestEnclosingGroup | src/scene/Object.cpp:289-300 | a bone's father is the greatest earlier group listing its origin, else -1; so fathers precede children |
| ObjectModel.OwnershipExact | src/scene/Object.cpp:340-376 | every vertex belongs to exactly one bone: the highest-indexed group listing it, else bone 0; no bone lists a vertex twice |
| ObjectModel.LocalRoundTrip | src/scene/Object.cpp:390-398 | a vertex's local position plus its owning bone's translation gives the vertex back |
| ObjectModel.RelativeTranslationsCompose | src/scene/Object.cpp:378-386 | summing the relative bone translations along the father chain rebuilds each bone's absolute translation |
| ObjectModel.IsListed | src/scene/Object.cpp:362-372 | the nested search answers true exactly when some group lists the vertex |
| ObjectModel.ClaimGroup | src/scene/Object.cpp:341-351 | one pass of the group loop claims exactly the group's vertices that no later group took, and marks them taken |
| ObjectModel.CreateBones | src/scene/Object.cpp:340-357 | the group loop yields, per group, the bone at its origin with its father and exactly the vertices it claims |
| ObjectModel.AssignUnclaimed | src/scene/Object.cpp:359-376 | the fallback loop appends exactly the unlisted vertices, ascending |
| ObjectModel.RelativeBones | src/scene/Object.cpp:378-386 | the bone loop gives each bone its translation relative to its father |
| ObjectModel.LocalPositions | src/scene/Object.cpp:390-398 | the vertex loop stores each vertex relative to its owning bone |
| ObjectModel.GroupSkeleton | src/scene/Object.cpp:336-386 | the loops with groups build exactly the declaratively defined skeleton |
| ObjectModel.CreateCedricData | src/scene/Object.cpp:312-400 | the skeleton and local positions are the declarative ones, and nothing else in the mesh changes |
| ObjectModel.Copy | src/scene/Object.cpp:222-259 | the structural data is duplicated; the skeleton is rebuilt and agrees with a valid original skeleton; the physics box keeps radius and vertices with a reset stop count; there are no links and no saved textures |
| ObjectModel.CenterObjectCoordinates | src/scene/Object.cpp:412-428 | the origin vertex ends at zero, all vertex differences are preserved, and nothing else changes |
| ObjectModel.CenterIdempotent | src/scene/Object.cpp:412-428 | centring an already centred mesh changes nothing |
| Dismemberment.Flag | src/game/npc/Dismemberment.cpp:361-362 | flag `j` of the loop is the j-th of head, torso, left arm, right arm, left leg, right leg |
| Dismemberment.GetCutFlag | src/game/npc/Dismemberment.cpp:250-272 | nonzero exactly for the six cut names; names map back to themselves except "cut_rarm" as written; as written nothing maps to the right-arm flag |
| Dismemberment.CutName | src/game/npc/Dismemberment.cpp:279-292 | one of the six names exactly for a single cut flag, empty otherwise |
| Dismemberment.CorrectedCutFlagRoundTrip | src/game/npc/Dismemberment.cpp:250-292 | with the corrected table, flag to name to flag and name to flag to name are identities |
| Dismemberment.AsWrittenRightArmCutsHead | src/game/npc/Dismemberment.cpp:261-263 | as written, "cut_rarm" yields the head flag, whose selection is "cut_head", and no name yields the right-arm flag |
| Dismemberment.GetCutSelection | src/game/npc/Dismemberment.cpp:274-304 | -1 for a null or non-NPC entity or a non-single flag; otherwise the first non-empty selection named after the flag, -1 when none is |
| Dismemberment.RecomputedCuts | src/game/npc/Dismemberment.cpp:311-315 | with the torso cut, head and arm bits are cleared; without it nothing changes; other bits are never touched |
| Dismemberment.ReComputeCutFlags | src/game/npc/Dismemberment.cpp:306-316 | a null or non-NPC entity is untouched; an NPC gets its cuts recomputed and nothing else changes |
| Dismemberment.RecomputeIdempotent | src/game/npc/Dismemberment.cpp:306-316 | recomputing twice is recomputing once |
| Dismemberment.IsAlreadyCut | src/game/npc/Dismemberment.cpp:318-335 | true exactly when the flag's bit is set, or the torso is cut and the flag is the head or an arm |
| Dismemberment.RecomputeKeepsAlreadyCut | src/game/npc/Dismemberment.cpp:306-335 | recomputing never changes which single region counts as already cut |
| Dismemberment.GoreTex | src/game/npc/Dismemberment.cpp:347-354 | the first texture whose name contains "gore", -1 when none does |
| Dismemberment.HideTouching | src/game/npc/Dismemberment.cpp:369-378 | exactly the faces touching the selection get the hide flag; the result notes whether one of them was visible and not gore-textured |
| Dismemberment.CutStep | src/game/npc/Dismemberment.cpp:361-381 | one active flag extends the hidden faces and the visible-non-gore note by that flag's selection |
| Dismemberment.FlagLoop | src/game/npc/Dismemberment.cpp:356-382 | after the six flags, a face is hidden exactly when it touches an active selection, and the cut mark is set exactly when some flag was active |
| Dismemberment.ApplyCuts | src/game/npc/Dismemberment.cpp:337-385 | no cuts: nothing changes and false; else cuts are recomputed, each face is hidden exactly when it touches the selection of a set flag, and the result says whether a visible non-gore face was among them |
| Dismemberment.CountHidden | src/game/npc/Dismemberment.cpp:419-434 | counts exactly the hidden non-gore faces touching the selection |
| Dismemberment.IsCandidate | src/game/npc/Dismemberment.cpp:411-436 | true exactly for a non-empty "cut_" selection not already cut and with fewer than three hidden non-gore faces |
| Dismemberment.NearestCandidate | src/game/npc/Dismemberment.cpp:408-445 | -1 exactly when there is no candidate; otherwise the nearest candidate, the earliest on ties |
| Dismemberment.TryToCutSomething | src/game/npc/Dismemberment.cpp:387-464 | no-op for null, non-NPC or no-gore targets; the nearest candidate (earliest on ties) is chosen; its flag is recorded exactly when it lies within 60 units and the flag is nonzero and new, and then the cuts become the recomputed union and the faces touching a cut selection are hidden; a part, equal to `SpawnMember` of the cut entity, is spawned exactly when a visible non-gore face was hidden |
| Dismemberment.RecordCut | src/game/npc/Dismemberment.cpp:447-457 | records the region's flag exactly when the region is within 60 units and its flag is nonzero and not set, and otherwise changes nothing; after recording, the cuts are the recomputed union, each face is hidden exactly when it touches the selection of a set cut, and `hid` says whether a visible non-gore face was among them |
| Dismemberment.RecordedFlagIsNew | src/game/npc/Dismemberment.cpp:451-456 | a recorded flag was not set, so the mask grows by exactly that flag |
| Dismemberment.LastIndexOf | src/game/npc/Dismemberment.cpp:100-135 | the last copy of a source vertex, -1 when it was not copied |
| Dismemberment.HighestVertex | src/game/npc/Dismemberment.cpp:137-146 | the first vertex of greatest height |
| Dismemberment.RemapFaces | src/game/npc/Dismemberment.cpp:155-192 | the part has one face per source face whose three corners were copied, none of them hidden |
| Dismemberment.RemapKeepsCopied | src/game/npc/Dismemberment.cpp:155-173 | every source face whose three corners were copied appears remapped in the part, in source order |
| Dismemberment.SpawnMember | src/game/npc/Dismemberment.cpp:57-246 | a part exactly for a live entity and a valid selection; it has the selection's vertices plus three per nearby gore face, its origin at zero, the entity's textures, no links, no saved textures and no physics box, and only visible faces |
| Dismemberment.SpawnSourcesCount | src/game/npc/Dismemberment.cpp:81-89 | the copied vertices are the selection's, in order, then three per nearby gore face |
| Dismemberment.SpawnOriginIsHighest | src/game/npc/Dismemberment.cpp:137-151 | after the shift, no vertex lies above the origin and every earlier vertex lies strictly below it |
| Dismemberment.RemapKeepsCorners | src/game/npc/Dismemberment.cpp:155-192 | every face of the part renumbers a source face whose three corners were copied |
| Dismemberment.SpawnKeepsGeometry | src/game/npc/Dismemberment.cpp:104-192 | each corner of a kept face sits where the source corner sits in the world, shifted by the entity position and the part origin |
| Entities.Add | src/game/Entity.cpp:151 | the entity goes to the lowest free slot, or to a new slot at the end; no other slot changes |
| Entities.Remove | src/game/Entity.cpp:241-243 | the slot is released and no other slot changes |
| Entities.RemoveUndoesAdd | src/game/Entity.cpp:151-243 | an added entity is found under its index, and removing it restores the table, except that a slot added at the end remains |
| Entities.Construct | src/game/Entity.cpp:145-170 | the new entity is registered under the index it remembers, in the lowest free slot, with no flags, mesh or inventory and all four payloads null; nothing else in the world changes |
| Entities.ClearRefs | src/game/Entity.cpp:255-273 | each of the five global slots is cleared exactly when it holds the entity; the camera slot is untouched |
| Entities.Unlink | src/game/Entity.cpp:296 | the list loses exactly its entries for the mesh |
| Entities.Detach | src/game/Entity.cpp:295-296 | no live entity's list keeps an entry for the mesh, lists only shrink, and lists of meshes no live entity owns stay as they were |
| Entities.ClearWeapons | src/game/Entity.cpp:297-299 | no live NPC keeps the entity as its weapon; other weapons and all inventories are kept |
| Entities.DropFromInventories | src/game/Entity.cpp:284 | the entity leaves every inventory and nothing enters one |
| Entities.CleanReferences | src/game/Entity.cpp:251-302 | afterwards no global slot, weapon, inventory or live entity's link list refers to the entity, which stays registered; nothing new is referred to |
| Entities.RelocateItems | src/game/Entity.cpp:232-239 | each item of the inventory is relocated in order; every entity stays registered |
| Entities.RelocatedLeaveInventories | src/game/Entity.cpp:232-239 | a relocated item is in no inventory afterwards, and no inventory gains anything |
| Entities.Destructor | src/game/Entity.cpp:179-245 | the entity's slot is released and every other entity survives; link lists only shrink; the save log is untouched |
| Entities.DestructorOrder | src/game/Entity.cpp:181-243 | reference cleanup is the first step and slot release the last; between them come only mesh, payload and inventory steps |
| Entities.TeardownShape | src/game/Entity.cpp:179-245 | the destructor's steps are cleanup, mesh release, payload release, item relocation and slot release, in that order |
| Entities.DestructorFreesMesh | src/game/Entity.cpp:190-192 | the mesh is freed exactly when there is one and the entity is not a camera, marker or gold |
| Entities.DestructorFreesOnePayload | src/game/Entity.cpp:216-228 | each payload is freed exactly when its flag is the first set among NPC, item, fix, camera (camera only with data) |
| Entities.DestructorFreesAtMostOnePayload | src/game/Entity.cpp:216-228 | the teardown never frees two payloads |
| Entities.DestructorCleans | src/game/Entity.cpp:181-239 | afterwards nothing refers to the entity, the camera slot included, and the items of its inventory are still registered, relocated and in no inventory |
| Entities.DestructorKeepsRanked | src/game/Entity.cpp:179-245 | the destructor keeps the world consistent and the attachment graph ranked |
| Entities.DestructorStep | src/game/Entity.cpp:179-245 | the destructor only clears references and leaves none to the entities it removes |
| Entities.RecordDeletion | src/game/Entity.cpp:308-315 | a save record is added exactly for a numbered instance without the no-save flag: a removal after a script load, a stored deletion otherwise |
| Entities.Destroy | src/game/Entity.cpp:304-334 | the entity is gone, every entity ranked above it survives, the world stays consistent and ranked, nothing refers to any destroyed entity, and its save record comes first; with no mesh shared, every entity attached to its mesh is gone, and every entity that went or lost an attachment took the attached entity with it |
| Entities.DestroyTakesAttachmentPaths | src/game/Entity.cpp:317-327 | with no mesh shared, destroying an entity destroys every entity reachable from it through attachments |
| Entities.DestructorTakesAttached | src/game/Entity.cpp:295-300 | once its own mesh has nothing attached, the destructor's unlink sweep drops only entries that named the entity itself |
| Entities.DestroyLinked | src/game/Entity.cpp:317-327 | the loop over the mesh's attachments ends with the list empty and the entity alive; with no mesh shared, every entity that was attached is gone |
| Entities.UnlinkFirst | src/game/Entity.cpp:319-323 | the first attachment names a live entity ranked below the owner; unlinking drops only entries of the owner's list that carry that entity's mesh, and keeps the world ranked |
| Entities.DestroyOne | src/game/Entity.cpp:336-344 | a stack of more than one loses one item and nothing else changes; anything else is destroyed as by `destroy`, with its save record and the entities attached to it |
| Entities.DestroyOneTimes | src/game/Entity.cpp:336-344 | k calls on a stack of more than k leave the entity alive with k items fewer |
| Entities.StackCountdown | src/game/Entity.cpp:336-344 | a stack of n survives n - 1 calls and is destroyed by the n-th |
| Environment.NameLen | src/platform/Environment.cpp:126-131 | the longest prefix of name characters |
| Environment.PlainRun | src/platform/Environment.cpp:188-191 | plain text is copied unless skipped |
| Environment.ExpandLiteral | src/platform/Environment.cpp:104-192 | input with no `$` and no backslash comes back unchanged |
| Environment.ExpandEscaped | src/platform/Environment.cpp:106-115 | escaped characters are emitted literally, whatever they are |
| Environment.EscapeRoundTrip | src/platform/Environment.cpp:106-115 | expansion undoes escaping, and a lone trailing backslash is dropped |
| Environment.ExpandDollar | src/platform/Environment.cpp:126-147 | `$NAME` becomes the value, or nothing when unset, with NAME the longest run of name characters |
| Environment.OpenBrace | src/platform/Environment.cpp:117-139 | `${NAME` goes on to the operator, or when skipping raises depth and skip |
| Environment.CloseBrace | src/platform/Environment.cpp:179-186 | a `}` inside a form closes one level and one level of skipping |
| Environment.OperatorWord | src/platform/Environment.cpp:149-174 | the operator part of a braced form expands as the shell definition says |
| Environment.ExpandBraced | src/platform/Environment.cpp:117-186 | `${NAME-w}`, `${NAME:-w}`, `${NAME+w}` and `${NAME:+w}` expand as in the shell; the `+` forms never show the value |
| Environment.ExpandBracedValue | src/platform/Environment.cpp:162-174 | `${NAME}` gives the value and suppresses other text before the brace |
| Environment.NestedSkipped | src/platform/Environment.cpp:133-186 | a nested form in skipped text is skipped whole and its braces balance |
| Environment.SkippedReference | src/platform/Environment.cpp:133-186 | `${A+${B}}` with A unset shows nothing, whatever B is |
| Environment.AppendNew | src/platform/Environment.cpp:679-681 | an entry is appended only when absent, so a list without duplicates stays so |
| Environment.NormalizeLanguage | src/platform/Environment.cpp:670-672 | same length, no `_` and no capital left; each `_` becomes `-`, letters keep their letter up to case, other characters are kept |
| Environment.NormalizeIdempotent | src/platform/Environment.cpp:670-672 | normalizing an entry twice is normalizing it once |
| Environment.LanguageEntries | src/platform/Environment.cpp:667-673 | the normalized entries; duplicate-free only in the corrected mode |
| Environment.AddCutsOf | src/platform/Environment.cpp:676-683 | every prefix of the entry ending before a character other than a letter or digit is listed, and nothing else is added |
| Environment.AddCuts | src/platform/Environment.cpp:674-684 | every such prefix of every entry is listed, and duplicate-freedom is kept |
| Environment.ScanLocale | src/platform/Environment.cpp:691-704 | the value is cut at the first character that is neither alphanumeric nor the first `_`/`-`, which becomes `-` |
| Environment.VariableLocale | src/platform/Environment.cpp:690-711 | a skipped value gives none; otherwise a non-empty locale of letters and digits with at most one `-` separator, neither first nor last |
| Environment.AddVariable | src/platform/Environment.cpp:688-721 | an unset or skipped variable adds nothing; otherwise its locale is listed afterwards, its language too when the locale was new, nothing else is added, and the list stays duplicate-free |
| Environment.AddVariables | src/platform/Environment.cpp:687-722 | the three variables only append, keeping the list duplicate-free |
| Environment.PreferredLocales | src/platform/Environment.cpp:664-726 | the `LANGUAGE` entries come first, every cut of them is listed, and the list is duplicate-free whenever the entries are |
| Environment.AppendAllDistinct | src/platform/Environment.cpp:679-681 | distinct new entries are all appended, in order |
| Environment.CorrectedAgreesWhenDistinct | src/platform/Environment.cpp:667-673 | with distinct `LANGUAGE` entries the corrected list equals the list as written |
| Environment.AsWrittenRepeatsLanguage | src/platform/Environment.cpp:667-673 | as written, `LANGUAGE=de:de` lists "de" twice |
| Environment.CorrectedHasNoDuplicates | src/platform/Environment.cpp:664-722 | the corrected list never repeats a locale and has the same `LANGUAGE` entries |
| Environment.IgnoredVariable | src/platform/Environment.cpp:705-707 | empty values, values starting with a separator, and `C`/`POSIX` in any case add nothing |
| Environment.ScanLocaleName | src/platform/Environment.cpp:691-704 | `ll_CC` or `ll-CC` followed by a non-alphanumeric scans to `ll-cc`, separator after `ll` |
| Environment.LocaleAndLanguage | src/platform/Environment.cpp:687-722 | a value `ll_CC.enc` lists `ll-cc`, and `ll` too when the locale was new |
| OsInfo.CleanValueShape | src/platform/OS.cpp:316-324 | the cleaned value is the value with a leading quote dropped exactly when present, and a tail cut off that holds a closing quote exactly when the leading one was dropped and the value ends with another, preceded by one backslash exactly when the rest would end with one |
| OsInfo.ParseLine | src/platform/OS.cpp:303-329 | comments, lines without the separator or starting with it, and empty keys, empty values or `n/a` give nothing; a pair has non-empty key and value |
| OsInfo.ParseLineSplits | src/platform/OS.cpp:309-329 | a line splits at the first separator into the trimmed key and the cleaned, trimmed value |
| OsInfo.ParseLinePlain | src/platform/OS.cpp:309-329 | `KEY=VALUE` reads back as the pair |
| OsInfo.CleanQuoted | src/platform/OS.cpp:316-321 | surrounding quotes are removed |
| OsInfo.ParseLineQuoted | src/platform/OS.cpp:309-329 | `KEY="VALUE"` reads back as the pair without quotes |
| OsInfo.KeyName | src/platform/OS.cpp:338-341 | the key without a leading `(` |
| OsInfo.Fill | src/platform/OS.cpp:331-346 | only an empty slot whose key name matches can receive the value |
| OsInfo.CollectFirstValue | src/platform/OS.cpp:300-348 | with distinct key names, each slot holds the first value found for its key, and a filled slot is never overwritten |
| OsInfo.FillTakesSlot | src/platform/OS.cpp:331-346 | with distinct key names, a slot is set exactly when it was empty and its key matches |
| OsInfo.SlotsHoldFirstValues | src/platform/OS.cpp:297-348 | each slot ends holding the value of the first valid line with its key, or empty |
| OsInfo.StepCovers | src/platform/OS.cpp:358-374 | after a round, a filled value is in the name, ignoring case |
| OsInfo.StepChangesExactlyNew | src/platform/OS.cpp:353-374 | a round changes the name exactly for a filled value not yet contained, joining with a space or starting the name |
| OsInfo.AssembleKeeps | src/platform/OS.cpp:350-377 | the name only grows: what it contains stays |
| OsInfo.AssembleCovers | src/platform/OS.cpp:350-377 | every filled value ends up in the name, ignoring case |
| OsInfo.AssembleEmpty | src/platform/OS.cpp:350-377 | the name is empty exactly when no slot was filled |
| OsInfo.AssembleStartsWithFirst | src/platform/OS.cpp:364-365 | the first filled value starts the name, without parentheses |
| OsInfo.DistributionNameCovers | src/platform/OS.cpp:294-378 | the name lists every value found and is empty exactly when no key was found |
| OsInfo.ParseU64 | src/platform/OS.cpp:642 | a parsed number is below 2^64 |
| OsInfo.ParseDecimal | src/platform/OS.cpp:642 | a decimal number up to 2^64 - 1 parses to itself |
| OsInfo.ParseMemLine | src/platform/OS.cpp:628-647 | a reading is a whole number of kilobytes in bytes, below 2^64 |
| OsInfo.ParseMemLineAt | src/platform/OS.cpp:628-647 | with the colon and the `kB` found, the line reads as the trimmed label and the number times 1024, wrapped |
| OsInfo.MemLineRoundTrip | src/platform/OS.cpp:626-647 | the kernel's `Label: N kB` reads back as the label and N * 1024 modulo 2^64 |
| OsInfo.LastIsSentinelIffUnseen | src/platform/OS.cpp:625-660 | a counter holds the sentinel exactly when its label was never read, since readings are multiples of 1024 |
| OsInfo.SeenAllRead | src/platform/OS.cpp:660 | all four counters are set exactly when all four labels were read |
| OsInfo.ScanMatchesReadings | src/platform/OS.cpp:626-666 | the loop reports exactly when the readings complete the set, and reports the state at the first completing line |
| OsInfo.MemInfoMatchesReadings | src/platform/OS.cpp:624-666 | a report exists exactly when all four labels occur, and gives MemTotal and MemFree + Buffers + Cached as read up to the first line completing the set |
| ScriptedInventory.Register | src/script/ScriptedInventory.cpp:89-92 | a new name is registered with its sub-command |
| ScriptedInventory.RegistrationSucceeds | src/script/ScriptedInventory.cpp:398-410 | the constructor never registers a name twice |
| ScriptedInventory.Commands | src/script/ScriptedInventory.cpp:398-410 | the table has exactly the eleven names |
| ScriptedInventory.RegisteredAt | src/script/ScriptedInventory.cpp:398-410 | each name maps to its own sub-command |
| ScriptedInventory.NamesHaveNoUnderscore | src/script/ScriptedInventory.cpp:398-410 | no registered name has an underscore |
| ScriptedInventory.ResolveFindsRegistered | src/script/ScriptedInventory.cpp:414-425 | a word resolves exactly when, stripped of underscores, it is a registered name, and then to that name's sub-command |
| ScriptedInventory.ResolveIgnoresUnderscores | src/script/ScriptedInventory.cpp:414-425 | a word and its underscore-free form resolve alike |
| ScriptedInventory.EveryCommandReachable | src/script/ScriptedInventory.cpp:398-425 | every registered sub-command is reachable by its name |
| ScriptedInventory.AddMultiSpellings | src/script/ScriptedInventory.cpp:405-425 | `add_multi` and `addmulti` both name the multi form; `add` names the single form |
| ScriptedInventory.Doom | src/script/ScriptedInventory.cpp:111-117 | the item's count becomes 1 when it is an item; it is hidden for good and frozen; nothing else changes |
| ScriptedInventory.DoomSlotsItems | src/script/ScriptedInventory.cpp:106-120 | each slotted item is doomed once and every other item is untouched |
| ScriptedInventory.DoomSlotsQueue | src/script/ScriptedInventory.cpp:106-120 | the destruction queue grows by exactly the slotted items, each once |
| ScriptedInventory.DestroyInventory | src/script/ScriptedInventory.cpp:98-123 | no inventory: nothing changes; otherwise the inventory is gone and every handle still names a live item |
| ScriptedInventory.DestroyDoomsContents | src/script/ScriptedInventory.cpp:98-123 | exactly the contained items are doomed and newly queued, each once; all others are unchanged |
| ScriptedInventory.DestroyIdempotent | src/script/ScriptedInventory.cpp:98-123 | a second destroy changes nothing |
| ScriptedInventory.CreateInventory | src/script/ScriptedInventory.cpp:148-152 | the old inventory is destroyed, then an empty 3 by 11 one is installed |
| ScriptedInventory.CreateIdempotent | src/script/ScriptedInventory.cpp:148-152 | creating twice is creating once |
| ScriptedInventory.Short | src/script/ScriptedInventory.cpp:343 | the `short` conversion: in range, congruent modulo 2^16, the identity on shorts |
| ScriptedInventory.ClampCount | src/script/ScriptedInventory.cpp:343 | a count between 1 and 32767, the given one when already there, 1 for non-positive shorts |
| ScriptedInventory.Configure | src/script/ScriptedInventory.cpp:338-345 | gold changes only its price, to the count; any other item changes only its stack limit, to 9999, and its count, to one in 1..32767 that is the given count when in range and 1 for non-positive shorts |
| ScriptedInventory.AddItemCommand | src/script/ScriptedInventory.cpp:297-352 | the world stays valid, and the file word (and the count word in the multi form) is consumed on every path |
| ScriptedInventory.AddFailsExactly | src/script/ScriptedInventory.cpp:303-328 | `add` fails exactly when creation is forbidden, there is no inventory or loading fails, and then changes nothing |
| ScriptedInventory.AddZeroCount | src/script/ScriptedInventory.cpp:330-332 | a count of 0 succeeds with the item created but not initialised or placed |
| ScriptedInventory.AddPlacesOnce | src/script/ScriptedInventory.cpp:334-351 | a successful add initialises the item, records it as last spawned, and places it in the inventory when it fits, else in front of the player |
| ScriptedInventory.AddMultiCounts | src/script/ScriptedInventory.cpp:338-345 | gold gets the count as price; other items a count in 1..32767, the given one when in range, 1 below, and a limit of 9999 |
| ScriptedInventory.AddThenDestroy | src/script/ScriptedInventory.cpp:98-123 | an item added to the inventory is doomed and queued by a later destroy |
| ScriptedInventory.Run | src/script/ScriptedInventory.cpp:412-426 | an unknown word fails and changes nothing |
| ScriptedInventory.RunCommand | src/script/ScriptedInventory.cpp:419-425 | an unknown sub-command fails unchanged; `destroy` and `create` succeed with their effects; worlds stay valid |
| ScriptedInventory.RunIgnoresUnderscores | src/script/ScriptedInventory.cpp:414-425 | underscores in the word change nothing in the outcome |
| ScriptedInventory.WeaponTransitions | src/script/ScriptedInventory.cpp:480-494 | the state changes only from 0 to -1 when drawing and from 1 to 2 when holstering, and then the layer-1 animation stops |
| ScriptedInventory.WeaponIdempotent | src/script/ScriptedInventory.cpp:480-494 | repeating the command changes nothing more |
| ScriptedInventory.WeaponCommutes | src/script/ScriptedInventory.cpp:480-494 | drawing and holstering commute |
| ScriptedInventory.SetWeaponFlags | src/script/ScriptedInventory.cpp:511-516 | the hide-weapon flag ends set exactly with the `h` option; other flags are unchanged |
| ScriptedInventory.SetWeaponLastWins | src/script/ScriptedInventory.cpp:511-516 | only the last `setweapon` decides the flag |
| Font.FromMetrics | src/graphics/font/Font.h:117-155 | the run rebuilt from anchor, head, width, tail and height has exactly those metrics |
| Font.AdvanceDecomposes | src/graphics/font/Font.h:137-167 | head + width + tail equals the advance for all field values; `size()` and the `Vec2i` conversion are (width, height) |
| Font.MetricsRoundTrip | src/graphics/font/Font.h:117-155 | the anchor and the derived metrics determine the run |
| Font.TextSizeFitsS32 | src/graphics/font/Font.h:109-155 | with coordinates within plus or minus 2^30, no accessor overflows `s32` |
| Font.InfoEqualsIsIdentity | src/graphics/font/Font.h:47-49 | `operator==` is structural equality, so an equivalence |
| Font.DefaultGlyph | src/graphics/font/Font.h:93-103 | the default glyph is the unique all-zero glyph |

## Left out

- Windows branches of `Environment.cpp` and `OS.cpp`, `EnvironmentLock`, and all other platform introspection: foreign APIs, I/O and locking. `getenv` is a map parameter, and file contents are string parameters.
- The separator of `LANGUAGE` entries (`env_list_seperator`) is taken as `:`. `src/platform/Environment.h` is not part of this model.
- `OsInfo.ParseU64` models `boost::lexical_cast<u64>` as an optional sign and at least one digit, with a minus sign wrapping modulo 2^64 and magnitudes above 2^64 - 1 rejected. Its contract states only the 64-bit bound; `OsInfo.ParseDecimal` states the value for plain decimals.
- The `sysconf` fallback and the Windows branch of `getMemoryInfo` are I/O. When the meminfo scan gives nothing, the model returns None.
- `Entities.Unlink`: `src/scene/LinkedObject.cpp` is not part of this model. Unlinking is assumed to drop the entries whose attached mesh is the given one.
- `Entities.DropFromInventories`: `removeFromInventories` is modelled only as removing the handle from every inventory. Grid positions and the HUD are left out.
- `Entities.Add`: `src/game/EntityManager.cpp` is not part of this model. `add` is taken to fill the lowest free slot, and `remove` to empty a slot without shrinking.
- Entity teardown steps outside the modelled state are left out: scripts, animations, lights, sounds, speech, timers, spells, the treat zone, `tweaks` and the active camera.
- `Entities.Destroy` requires a ranking of the attachment graph: every attached entity is live, and ranks below its holder. Without it the loop at `src/game/Entity.cpp:318-326` need not end.
- `Entities.Destroy`, `Entities.DestroyLinked` and `Entities.DestroyOne` state that attached entities are destroyed only when no two live entities share a mesh. Cameras, markers and gold share meshes. With a shared mesh, the unlink at `src/game/Entity.cpp:322` drops every entry carrying that mesh, and the loop then destroys only the first of those entities.
- `cleanReferences` also takes the entity off the queue of delayed destructions (`ARX_INTERACTIVE_DestroyIOdelayedRemove`). The entity world has no such queue, and the later processing of that queue is not part of this model. Only `ScriptedInventory` keeps the queue, as a list of handles.
- `Dismemberment.SpawnMember`: the new entity, the physics box (`EERIE_PHYSICS_BOX_Create`, so `pbox` is left None), the launch, the random angle and the sound are floating point, randomness and physics. Only the mesh of the part and its position are modelled.
- Vertex positions are exact integer vectors and distances squared integers. The float `glm::distance < 8` test and the `60` range become integer comparisons.
- Sounds, the HUD (`g_secondaryInventoryHud`), `SendInitScriptEvent`, `PutInFrontOfPlayer` and the animation calls of `weapon` have no modelled state effect beyond the fields listed.
- `ScriptedInventory.AddItemCommand`:
  - `getFloat` parsing is not modelled; the argument carries the number already truncated to `long`.
  - `AddItem` is the `loaded` parameter.
  - `Inventory::insert` is the `accepts` parameter.
  - The `checked_range_cast` range assertion is modelled as a plain two's-complement truncation.
- `ScriptedInventory.RunCommand`: `skin`, `open`, `close`, `playeradd`, `playeraddmulti`, `playeraddfromscene` and `addfromscene` act on the HUD, the player and the scene, so their effects are not modelled and `RunCommand` returns None for them.
- `src/game/magic/spells/SpellsLvl06.cpp` and the header-only files around the core are left out: they hold spell effects, rendering, windowing and declarations.
- `Font.DefaultGlyph`: the glyph's float fields are modelled as reals.
- `Font.TextSizeFitsS32`: the unbounded accessors agree with the 32-bit ones only within the stated bounds.
- `OsInfo.Added`: the contract states only that the name is kept as a prefix. The space and parentheses come from the definition, and `OsInfo.StepChangesExactlyNew` states the space.
- `OsInfo.CollectFirstValue`: assumes distinct key names (after dropping a leading `(`). With repeated key names the first matching slot takes the value, as in the source, but no lemma states that case.

## Findings

| source | as written | input that shows it | evidently intended | confidence | as-written member | corrected member |
|---|---|---|---|---|---|---|
| src/game/npc/Dismemberment.cpp:261-263 | `GetCutFlag("cut_rarm")` returns the head flag | a hit nearest to a selection named `cut_rarm` records a cut head and hides the `cut_head` selection | return the right-arm flag, so that names and flags are inverse | high (not executed) | Dismemberment.AsWrittenRightArmCutsHead | Dismemberment.CorrectedCutFlagRoundTrip |
| src/platform/Environment.cpp:667-673 | `LANGUAGE` entries are pushed without checking for duplicates, unlike every other entry | `LANGUAGE=de:de` gives `["de", "de"]` | append only entries not yet listed, so that the list has no duplicates | medium (not executed) | Environment.AsWrittenRepeatsLanguage | Environment.CorrectedHasNoDuplicates |
