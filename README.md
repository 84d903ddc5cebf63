# Emoji build merge engine, modelled in Dafny

The emoji plugin's build step loads every installed emoji pack and keeps the
valid ones. It then folds those packs, and the administrator's
customizations, into six results:

- `table`: lower-case name to entry (character, image, pack id, aliases, keywords);
- `aliases`: alias to name;
- `ascii`: ascii shortcut to name;
- `characters`: glyph to name;
- `categories`: category to the list of names in it;
- `packs`: one attribution record per pack.

This project models that merge engine and the small pure steps around it.
It then proves what each phase does to the six results.

- **Data and helpers.** `Types` holds the data model. `Text` lowers strings
  the way `toLowerCase` does on ASCII letters. `Indexes` holds the index
  operations: insert-if-unclaimed, unconditional assignment, appending to a
  bucket, and `uniq`.
- **Functional specification.** `Merge` specifies one pack entry, one pack,
  the bucket de-duplication, one customization emoji, one adjunct, and the
  whole merge as a fold over them.
- **Imperative model.** `Build` is the source's imperative merge step. The
  class `Builder` holds the six results as fields. Each of its methods runs
  one of the source's loops and is proved equal to the matching function in
  `Merge`.
- **Proofs about the phases.** `PacksPhaseProperties` covers the packs phase:
  the table and the three indexes are first-wins, and buckets and attribution
  are described. `MergeProperties` covers the de-duplication, the
  customization emojis and the adjuncts. `WholeMerge` combines the phases and
  proves that no index or bucket names an emoji missing from the table.
  `MergeExample` works a two-pack example through.
- **Pure steps.** `Packs` holds the validity filter, the font-file list, the
  candidate definition file names (`emoji.json`, `emoji.js`, as the constant
  `Packs.DefinitionFiles`) and the stylesheet assembly.

Conventions of the model:

- **Truthiness of index keys.** Index values are names, so a key counts as
  unclaimed (`!aliases[a]`) when it is absent or maps to `""`. This is
  `Indexes.Claimed`.
- **Truthiness of table slots.** Table values are objects, so a table slot is
  taken exactly when the key is present.
- **Falsy fields.** An absent string field (pack `id`, `name`, `mode`, font
  file names) is modelled as `""`; both are falsy. Absent arrays and optional
  strings are `Option`.
- **Dictionaries.** A pack dictionary is a sequence of (key, emoji) pairs in
  key order. A pack's `mode`-specific builder output for the stylesheet is
  passed in as one string per pack.

## Model

| member | source | states |
|---|---|---|
| Merge.Register | lib/build.ts:105-146 | definition, no contract: one dictionary key's effect on the table, the three indexes and the buckets |
| Merge.Dedup | lib/build.ts:149-151 | definition, no contract: every bucket replaced by its `uniq` |
| Merge.CustomStep | lib/build.ts:153-180 | definition, no contract: one customization emoji's effect |
| Merge.AdjunctStep | lib/build.ts:181-192 | definition, no contract: one adjunct's effect |
| Merge.MergeAll | lib/build.ts:88-192 | definition, no contract: packs phase, de-duplication, customization emojis, adjuncts, in that order |
| Packs.DefinitionFiles | lib/build.ts:39-42 | definition, no contract: `emoji.json` then `emoji.js` |
| Build.MergeStep | lib/build.ts:88-192 | empty results, packs phase, one de-duplication of buckets, customization emojis, adjuncts in that order give exactly `MergeAll` |
| Build.Builder.constructor | lib/build.ts:89-95 | the six results start empty |
| Build.Builder.RegisterEmoji | lib/build.ts:105-146 | one dictionary key: first-wins table slot, truthy character, lowered aliases and ascii inserted only where unclaimed, name pushed onto each category (or `other`) |
| Build.Builder.ApplyPack | lib/build.ts:97-146 | one pack: attribution record appended, then every dictionary key registered in order |
| Build.Builder.ApplyPacks | lib/build.ts:97-147 | the packs loop equals `PacksPhase` |
| Build.Builder.DedupCategories | lib/build.ts:149-151 | every bucket replaced by its `uniq`; nothing else changes |
| Build.Builder.ApplyCustomEmoji | lib/build.ts:153-180 | table slot of the lowered name overwritten; lowered aliases and ascii first-wins; name pushed onto `custom` |
| Build.Builder.ApplyCustomEmojis | lib/build.ts:153-180 | the customization loop equals `CustomsPhase` |
| Build.Builder.ApplyAdjunct | lib/build.ts:181-192 | skipped unless the verbatim name is a table key; else aliases concatenated onto the entry and aliases/ascii assigned unconditionally |
| Build.Builder.ApplyAdjuncts | lib/build.ts:181-192 | the adjunct loop equals `AdjunctsPhase` |
| Build.InsertLoweredIfUnclaimed | lib/build.ts:124-131 | the alias loop inserts each lowered alias only where unclaimed |
| Build.InsertEachIfUnclaimed | lib/build.ts:133-139 | the ascii loop inserts each code only where unclaimed |
| Build.ReplaceEach | lib/build.ts:190-191 | the adjunct loops assign every listed key |
| Build.PushToEach | lib/build.ts:141-145 | the category loop pushes the name once per listed category, creating missing buckets |
| Indexes.InsertAllIfUnclaimedEffect | lib/build.ts:127-129 | keys afterwards are the old keys plus the listed ones; a listed unclaimed key gets the name, every other key keeps its value |
| Indexes.ReplaceAllEffect | lib/build.ts:190-191 | listed keys all map to the name; other keys untouched |
| Indexes.AppendToAllBuckets | lib/build.ts:141-145 | each bucket grows by the name repeated as often as its category is listed; buckets are created for listed categories |
| Indexes.RepeatMembers | lib/build.ts:141-145 | the repeated name is the only member, present exactly when repeated at least once |
| Indexes.Uniq | lib/build.ts:149-151 | duplicate-free, same members, and a duplicate-free bucket is unchanged |
| Text.LowerIsLower | lib/build.ts:106 | lowering keeps length, leaves no upper-case ASCII letter, fixes lower-case names and is idempotent |
| Merge.Items | lib/build.ts:105-107 | one item per dictionary key, in key order, each named in lower case, owned by the pack's id and carrying that key's emoji |
| PacksPhaseProperties.RegisterAllAppend | lib/build.ts:105-146 | registering two runs of entries is registering their concatenation |
| PacksPhaseProperties.RegisterAllIgnoresPacks | lib/build.ts:105-146 | registering entries never reads or writes the attribution list |
| PacksPhaseProperties.PacksPhaseFlat | lib/build.ts:97-147 | the packs phase is one pass over all dictionary entries of all packs in order, plus one attribution record per pack |
| PacksPhaseProperties.PacksPhaseAppend | lib/build.ts:97-147 | the packs phase over `a + b` is the packs phase over `b` after `a` |
| PacksPhaseProperties.RegisterTableStep | lib/build.ts:109-118 | one more entry keeps the table first-wins |
| PacksPhaseProperties.TableAfterFirstWins | lib/build.ts:109-118 | the table fold is first-wins over all entries |
| PacksPhaseProperties.RegisterAllTable | lib/build.ts:109-118 | registering entries keeps the table first-wins |
| PacksPhaseProperties.PacksTableFirstWins | lib/build.ts:105-118 | a name is a key iff some pack key lowers to it; old entries never change; a new name holds the entry of the first pack key lowering to it (character, `image` or `''`, pack id, `aliases` or `[]`, `keywords` or `[]`) |
| PacksPhaseProperties.LaterPacksKeepTable | lib/build.ts:109-118 | later packs never change an entry made by an earlier pack |
| PacksPhaseProperties.RegisterIndex | lib/build.ts:120-139 | one entry inserts its character, lowered aliases or ascii codes, where unclaimed |
| PacksPhaseProperties.RegisterIndexStep | lib/build.ts:120-139 | one more entry keeps an index first-wins |
| PacksPhaseProperties.RegisterAllIndex | lib/build.ts:120-139 | registering entries keeps each index first-wins |
| PacksPhaseProperties.PacksIndexFirstWins | lib/build.ts:120-139 | in each index a claimed key keeps its owner; every listed key is present; each value is an old one or a lister's name; the first lister with a truthy name owns an unclaimed key, whether or not it won the table slot |
| PacksPhaseProperties.RegisterBucketsStep | lib/build.ts:141-145 | one more entry keeps the buckets described by the listings |
| PacksPhaseProperties.RegisterAllBuckets | lib/build.ts:141-145 | after registering, a bucket exists iff its category was listed, and holds exactly the names that listed it |
| PacksPhaseProperties.PacksBuckets | lib/build.ts:141-145 | the same for the whole packs phase, with `['other']` for emojis without categories |
| PacksPhaseProperties.PacksAttribution | lib/build.ts:97-103 | the attribution list grows by exactly one `{name, id, attribution, license}` per pack, in input order |
| MergeProperties.DedupEffect | lib/build.ts:149-151 | only buckets change; every bucket is duplicate-free with the same members |
| MergeProperties.CategoriesAfterDedup | lib/build.ts:141-151 | right after de-duplication every bucket is duplicate-free and holds exactly the names whose emoji listed that category |
| MergeProperties.UncategorizedGoToOther | lib/build.ts:141 | an emoji without categories lands in `other` |
| MergeProperties.CustomEmojiEffect | lib/build.ts:153-180 | the lowered name's entry is overwritten (character `''`, pack `customizations`, no keywords, own image and aliases); other entries unchanged; aliases and ascii first-wins, and alias and ascii keys the emoji does not list are left exactly as they were (no new keys); name appended to `custom` without de-duplication, which exists afterwards, and no other category key appears or disappears; characters and attribution untouched |
| MergeProperties.CustomsPhaseCustomTable | lib/build.ts:156-163 | the customization loop's table is the overwrite fold |
| MergeProperties.CustomTableStep | lib/build.ts:156-163 | one more overwrite keeps the table last-wins |
| MergeProperties.CustomTableLastWinsFold | lib/build.ts:156-163 | the overwrite fold is last-wins |
| MergeProperties.CustomsPhaseTable | lib/build.ts:153-163 | every custom name is a key holding the entry of the last emoji lowering to it; other slots untouched |
| MergeProperties.CustomsPhaseBuckets | lib/build.ts:178-179 | `custom` grows by every lowered name in order, duplicates kept; other buckets untouched, and no category other than `custom` is created or removed |
| MergeProperties.CustomsPhaseCategoryKeys | lib/build.ts:178-179 | after at least one customization emoji `custom` exists; every other category is a key afterwards exactly when it was before |
| MergeProperties.CustomsPhaseKeepsClaims | lib/build.ts:165-176 | a claimed alias or ascii key keeps its owner; characters and attribution untouched |
| MergeProperties.CustomsPhaseIndex | lib/build.ts:165-176 | each index is first-wins over the customization emojis, continuing from the packs: claimed keys keep their owner, every listed key (lowered alias, verbatim ascii) is present, every owner is an old one or a lister, and an unclaimed key goes to the first emoji with a non-empty lowered name that lists it |
| MergeProperties.AdjunctMissingIsNoop | lib/build.ts:181-183 | an adjunct whose verbatim name is not a key changes nothing |
| MergeProperties.AdjunctExistingEffect | lib/build.ts:185-191 | an applicable adjunct appends its aliases to the entry; its aliases and ascii codes now map to its name; every other key and result untouched |
| MergeProperties.AdjunctWithUpperCaseNameSkipped | lib/build.ts:182-183 | with lower-case table keys, an adjunct name with an upper-case letter is always skipped |
| MergeProperties.AdjunctsPhaseAdjunctTable | lib/build.ts:185-188 | the adjunct loop's table is the alias-concatenation fold |
| MergeProperties.AdjunctTableEffect | lib/build.ts:185-188 | that fold keeps the keys and appends to each entry the aliases of the adjuncts naming it |
| MergeProperties.AdjunctsPhaseTable | lib/build.ts:181-188 | the adjunct phase keeps the table keys; each entry's aliases grow by those of the adjuncts naming it |
| MergeProperties.AdjunctsPhaseKeeps | lib/build.ts:181-192 | characters, buckets and attribution untouched by adjuncts |
| MergeProperties.AdjunctsPhaseAdjunctIndex | lib/build.ts:181-191 | the alias or ascii index after the adjunct loop is the assignment fold over the fixed table keys |
| MergeProperties.AdjunctIndexStepEffect | lib/build.ts:190-191 | one applicable adjunct assigns its keys; other keys untouched |
| MergeProperties.AdjunctIndexStepListed | lib/build.ts:190-191 | one more adjunct keeps "last applicable lister owns the key" |
| MergeProperties.AdjunctIndexStepUnlisted | lib/build.ts:190-191 | one more adjunct keeps unlisted keys untouched |
| MergeProperties.AdjunctIndexLastWinsFold | lib/build.ts:190-191 | the assignment fold is last-wins |
| MergeProperties.AdjunctsPhaseIndex | lib/build.ts:181-191 | a key listed by an applicable adjunct belongs to the last such adjunct's name, overriding earlier owners; other keys untouched |
| WholeMerge.InsertAllPointsInto | lib/build.ts:127-136 | insert-if-unclaimed of a table name keeps every index value a table key |
| WholeMerge.ReplaceAllPointsInto | lib/build.ts:190-191 | assigning a table name keeps every index value a table key |
| WholeMerge.AppendToAllBucketsInto | lib/build.ts:141-145 | pushing a table name keeps every bucket member a table key |
| WholeMerge.RegisterConsistent | lib/build.ts:105-146 | one dictionary entry keeps the results consistent |
| WholeMerge.RegisterAllConsistent | lib/build.ts:105-146 | registering entries keeps the results consistent |
| WholeMerge.PacksPhaseConsistent | lib/build.ts:97-147 | the packs phase keeps the results consistent |
| WholeMerge.DedupConsistent | lib/build.ts:149-151 | de-duplication keeps the results consistent |
| WholeMerge.CustomStepConsistent | lib/build.ts:153-180 | one customization emoji keeps the results consistent |
| WholeMerge.CustomsPhaseConsistent | lib/build.ts:153-180 | the customization phase keeps the results consistent |
| WholeMerge.AdjunctStepConsistent | lib/build.ts:181-192 | one adjunct keeps the results consistent |
| WholeMerge.AdjunctsPhaseConsistent | lib/build.ts:181-192 | the adjunct phase keeps the results consistent |
| WholeMerge.MergeConsistent | lib/build.ts:88-192 | every entry is stored under its own name, and every name in the character, alias and ascii indexes and in every bucket is a table key |
| WholeMerge.MergeCharactersAndPacks | lib/build.ts:97-103 | `characters` is exactly what the packs phase built; the attribution list is one record per valid pack, in order |
| WholeMerge.MergeTableNames | lib/build.ts:106-110 | the final table keys are exactly the lowered pack keys and the lowered customization names |
| WholeMerge.MergePackEntry | lib/build.ts:109-118 | a name first given by a pack and by no customization ends with that pack entry, its aliases extended by the adjuncts naming it |
| WholeMerge.MergeCustomEntry | lib/build.ts:156-163 | the last customization emoji for a name decides its final entry, its aliases extended by the adjuncts naming it |
| WholeMerge.MergeCustomClaim | lib/build.ts:165-176 | a key no pack claimed ends with the first customization emoji (non-empty lowered name) that lists it, unless an applicable adjunct lists it |
| WholeMerge.MergeKeepsPackClaim | lib/build.ts:127-129 | a key a pack claimed keeps its pack owner to the end unless an applicable adjunct lists it |
| WholeMerge.MergeAdjunctWins | lib/build.ts:190-191 | a key listed by an applicable adjunct ends with the last such adjunct's name |
| WholeMerge.FlatNamesLower | lib/build.ts:106 | every name the packs phase registers is lower-case |
| WholeMerge.MergeKeysLower | lib/build.ts:153-156 | every key of the merged table is lower-case |
| WholeMerge.AdjunctsPhaseSkipsUpperCase | lib/build.ts:182-183 | over a lower-case table, adjuncts whose names carry an upper-case letter change nothing |
| WholeMerge.MergeSkipsUpperCaseAdjuncts | lib/build.ts:181-183 | adjuncts whose names all carry an upper-case letter have no effect on the merge, since adjunct names are not lowered |
| MergeExample.ExampleFlat | lib/build.ts:97-107 | the two example packs give the entries grin (a), grin (b), smile (b) in order |
| MergeExample.ExampleRegister | lib/build.ts:109-122 | registering them gives characters 😁→grin, 🙂→smile, with grin from pack a and smile from pack b |
| MergeExample.TwoPacksShareACharacter | lib/build.ts:120-122 | packs a{grin:😁} and b{grin:😁, smile:🙂} merge to characters {😁→grin, 🙂→smile}, grin keeping pack a's entry |
| Packs.Validate | lib/build.ts:71-78 | keeps exactly the present pairs whose pack has truthy id, name, mode and dictionary; no more elements than the input |
| Packs.ValidateAppend | lib/build.ts:71-78 | the filter works element by element, so the kept pairs stay in input order |
| Packs.ValidateKeepsAll | lib/build.ts:71-78 | when every element is valid, all are kept, in order |
| Packs.Declared | lib/build.ts:231 | `filter(Boolean)`: exactly the non-empty strings, no more than the input |
| Packs.DeclaredAppend | lib/build.ts:231 | the filter distributes over concatenation, so order is kept |
| Packs.FontFiles | lib/build.ts:225-231 | at most five files, exactly the declared ones among eot, svg, woff, ttf, woff2 |
| Packs.FontFilesInOrder | lib/build.ts:225-231 | the list is the declared files one format at a time, in the order eot, svg, woff, ttf, woff2 |
| Packs.FontFilesAllDeclared | lib/build.ts:225-231 | a pack declaring all five formats copies all five, in order |
| Packs.SplitJoinLines | lib/build.ts:197 | joining lines that hold no newline and splitting the text at newlines gives back exactly those lines, in order |
| Packs.StylesheetLines | lib/build.ts:197-200 | read line by line, the stylesheet is each pack's styles on a line of its own in pack order (one empty line with no pack), then the customizations rule as the last line |
| Packs.Stylesheet | lib/build.ts:197-200 | definition, no contract: the per-pack styles joined by newlines, then a newline and the customizations rule |
| Packs.StylesheetNoPacks | lib/build.ts:197-200 | with no pack the stylesheet is an empty line and the customizations rule |

## Left out

- **Pack discovery.** Plugin path discovery and the `fs.access` existence checks are filesystem I/O. Only the candidate names `emoji.json` and `emoji.js` are modelled, as the constant `Packs.DefinitionFiles`.
- **Pack loading.** `require` and the sync-or-callback definition forms are a dynamic module load. The filter's input is a sequence of `Option`s, with `None` standing for a failed load.
- **File output.** Removing and re-creating the output directory, `writeFile`, `JSON.stringify` and its key order, and `symlink`/junction creation and `copy` are I/O. Only the list of font files to copy is modelled.
- **CSS builders.** `cssBuilders[pack.mode]` is a module that is not part of this model. Each pack's styles are an input string.
- Packs.StylesheetLines: describes the stylesheet line by line only when no pack's styles contain a newline, because a multi-line style cannot be told apart from several packs once split; `Packs.Stylesheet` still joins any styles exactly as the build step does.
- **External collaborators.** `getCustomizations`, `clearCache`, `nconf`, `winston` and the database are configuration and logging. The customizations are an input value.
- **Async plumbing.** The `async` waterfall/parallel/each plumbing is concurrency and callbacks; the merge itself is sequential.
- Text.Lower: models `toLowerCase` only on ASCII letters. Unicode case mapping is a library call with locale-independent but large tables.
- **Dictionary key order.** `Object.keys` lists integer-like keys first, in numeric order. The model takes the dictionary in the order given and does not capture that reordering.
- **Inherited keys.** Keys that plain JavaScript objects inherit (`constructor`, `__proto__`, …) would read as truthy table slots or index values in the source. The model treats every map as empty when created.
- **Field types.** `undefined` and `""` are not distinguished for the pack's `id`, `name` and `mode` or for font file names, since both are falsy. A non-string truthy value in those fields is not modelled.
- **Paths.** Directory paths are opaque strings, and `path.join` normalisation is not modelled.
