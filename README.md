# App-spec generator: a verified model

The repository holds two near-identical copies of a batch pipeline that
documents a directory of per-feature spec folders. The **plugin** copy lives in
`plugins/documentation-tools/skills/app-spec-generator/scripts/`. The
**perseon** copy lives in `perseon/specs/doc-generator/`.

Each run of the pipeline does the following:

1. It scans the specs directory for feature folders. For each folder it resolves
   the requirements file, the implementation plan and any supplementary markdown
   files, and it infers a category from the folder name.
2. It parses each plan: it counts the ticked and unticked `- [x]` / `- [ ]` boxes,
   derives a rounded completion percentage and a status, and extracts a priority
   and a list of sub-features.
3. It rolls the features up into status counts, an overall weighted completion
   and features per category (with per-category progress in the perseon
   generator), and writes `app-specs.md` through a temporary file.
4. The plugin copy can then archive every spec folder under
   `.archive/<stamp>/`, validate the archive, delete the originals and, when a
   deletion fails, copy the archived folders back.

The Dafny project models both copies side by side. Where the two copies share a
rule, a `Variant = Plugin | Perseon` parameter keeps their differences visible.
The differences are:

- the order of the category rules;
- the plugin's status-glyph override;
- the sub-feature cap (10 in the plugin, 20 in perseon);
- hidden folders, which only the plugin skips;
- the empty scan, which the plugin reports as a failure.

## Modules

| module | models |
|---|---|
| `Types` | the records both copies pass between stages |
| `Text`, `Collections`, `Rules` | JavaScript string built-ins (`trim`, `split`, `toLowerCase`, `length`, `slice`), `filter`/`map`, insertion-ordered grouping and counting, first-match rule lists |
| `Tree`, `Fs` | the specs directory as a tree of named entries in listing order, and a `FileSystem` class whose methods are the `fs.*Sync` calls (each can fail non-deterministically) |
| `Patterns`, `Plans` | the regular expressions of both parsers, as functions, and the checkbox counting, rounding and status cascade |
| `PluginParser`, `PerseonParser` | the two `parser.ts` files |
| `PluginScanner`, `PerseonScanner` | the two scanners |
| `PluginArchive` | archive, validation, cleanup and rollback of the plugin `scanner.ts` |
| `Stats` | the statistics of `calculateStatistics`, both `index.ts` files and `calculateCategoryProgress` |
| `PerseonGenerator` | progress bar, status listings, model domains and detailed sections of the perseon `generator.ts` |
| `Output` | the atomic write of `app-specs.md` |
| `PluginIndex`, `PerseonIndex` | the two `updateAppSpecs` orchestrators, `canSafelyCleanup` and `formatResult` |

The filesystem is `Tree.Node = File(data) | Dir(entries) | Denied(isDir)`.
`Denied` is an object that exists but cannot be read or listed. Paths are
relative to the specs directory. Each `FileSystem` method that can throw returns
`ok`, chosen non-deterministically, and its contract states the state in both
outcomes. So every property of the archive and cleanup protocol holds for every
pattern of I/O failure.

The key safety property is in the contracts of `PluginIndex.UpdateAppSpecs` and
`PluginIndex.ArchiveAndCleanup`: a top-level entry other than `.archive` that
lost or changed content is one of the scanned spec folders, cleanup was reached,
and the archive holds a copy of that folder; when the archive is new, the copy
is exactly the original folder.

## Model

| member | source | states |
|---|---|---|
| Types.Names | plugins/documentation-tools/skills/app-spec-generator/scripts/scanner.ts:213-228 | the names of the spec records, one per record and in order |
| Text.Lower | plugins/documentation-tools/skills/app-spec-generator/scripts/scanner.ts:122 | `toLowerCase` keeps the length and maps each character through the ASCII lower-casing |
| Text.Trim | plugins/documentation-tools/skills/app-spec-generator/scripts/parser.ts:17 | `trim()` never lengthens the text and leaves it starting and ending with no white space or line terminator |
| Text.TrimIsInfix | plugins/documentation-tools/skills/app-spec-generator/scripts/parser.ts:17 | what `trim()` removes is white space and line terminators only: the text is the trimmed text with such characters before and after it |
| Text.TrimStart | plugins/documentation-tools/skills/app-spec-generator/scripts/parser.ts:17 | the result is a suffix of the input with no leading white space, and only white space was removed |
| Text.TrimEnd | plugins/documentation-tools/skills/app-spec-generator/scripts/parser.ts:17 | the result is a prefix of the input with no trailing white space, and only white space was removed |
| Text.Split | plugins/documentation-tools/skills/app-spec-generator/scripts/parser.ts:185 | `split('\n')` gives at least one piece, and no piece holds the separator; `SplitJoin` shows that the pieces rebuild the text |
| Text.SplitJoin | plugins/documentation-tools/skills/app-spec-generator/scripts/parser.ts:185 | joining the pieces of a split with the separator gives back the text |
| Text.Utf16Length | plugins/documentation-tools/skills/app-spec-generator/scripts/parser.ts:193 | `.length` counts UTF-16 code units: one or two per character, so at least the number of characters |
| Text.Take | plugins/documentation-tools/skills/app-spec-generator/scripts/parser.ts:304 | `slice(0, n)` is the first `min(n, length)` items |
| Text.NatToString | perseon/specs/doc-generator/index.ts:127-141 | the decimal text of a count: non-empty, digits only, and it reads back as the number |
| Text.ContainsAt | plugins/documentation-tools/skills/app-spec-generator/scripts/parser.ts:73 | `includes(p)` holds exactly when some position of the text starts with `p` |
| Collections.Filter | plugins/documentation-tools/skills/app-spec-generator/scripts/index.ts:126-128 | `filter(p)` keeps exactly the items that pass, in order, and invents none |
| Collections.FilterAppend | plugins/documentation-tools/skills/app-spec-generator/scripts/index.ts:126-128 | filtering a concatenation filters each part |
| Collections.Map | plugins/documentation-tools/skills/app-spec-generator/scripts/scanner.ts:12-55 | `map(f)` has one image per item, position by position |
| Collections.Bucket | plugins/documentation-tools/skills/app-spec-generator/scripts/scanner.ts:181-196 | the items with a given key, a sub-list of the input that is empty exactly when no item has the key |
| Collections.GroupByIsGrouping | plugins/documentation-tools/skills/app-spec-generator/scripts/scanner.ts:181-196 | the grouping has distinct keys, one group per key that occurs, each group holding exactly its key's items in input order |
| Collections.GroupByPartitions | plugins/documentation-tools/skills/app-spec-generator/scripts/scanner.ts:181-196 | the group sizes add up to the number of items: nothing lost or duplicated |
| Collections.GroupByCovers | plugins/documentation-tools/skills/app-spec-generator/scripts/scanner.ts:181-196 | every item's key has a group |
| Collections.Group | plugins/documentation-tools/skills/app-spec-generator/scripts/scanner.ts:181-196 | the grouping loop over a map builds exactly `GroupBy`: each item appended to its key's group, a new key opening a group at the end |
| Collections.CountBy | plugins/documentation-tools/skills/app-spec-generator/scripts/index.ts:134-137 | the count of each key is the number of items with that key, positive, with one entry per key that occurs |
| Collections.CountByTotal | plugins/documentation-tools/skills/app-spec-generator/scripts/index.ts:134-137 | the per-key counts add up to the number of items |
| Collections.Count | plugins/documentation-tools/skills/app-spec-generator/scripts/index.ts:134-137 | the `(counts[k] \|\| 0) + 1` loop, with its lookup of the key, builds exactly the dictionary of bumping each item's key in turn |
| Collections.BumpsIsCountBy | plugins/documentation-tools/skills/app-spec-generator/scripts/index.ts:134-137 | bumping each item's key in turn gives exactly the per-key counts `CountBy` |
| Rules.ContainsAnyIff | plugins/documentation-tools/skills/app-spec-generator/scripts/scanner.ts:125 | a chain of `includes` joined by `\|\|` holds exactly when one of the words occurs |
| Rules.FirstRule | plugins/documentation-tools/skills/app-spec-generator/scripts/scanner.ts:121-176 | the index of the first applicable rule: it applies and no earlier one does |
| Rules.Classify | plugins/documentation-tools/skills/app-spec-generator/scripts/scanner.ts:121-176 | an `if` cascade returns the category of the first rule that applies, or `Other` when none does |
| Rules.ClassifyCategory | plugins/documentation-tools/skills/app-spec-generator/scripts/scanner.ts:121-176 | with distinct categories, the result is rule `j`'s category exactly when rule `j` is the first that applies |
| Rules.ClassifyOther | plugins/documentation-tools/skills/app-spec-generator/scripts/scanner.ts:175 | the result is `Other` exactly when no rule applies |
| Rules.FirstMatch | plugins/documentation-tools/skills/app-spec-generator/scripts/parser.ts:121-162 | the trimmed capture of the first pattern that matches, and nothing when none matches |
| Tree.LookupPutSame | plugins/documentation-tools/skills/app-spec-generator/scripts/scanner.ts:309-331 | a write is seen at its own path when the parent is a directory |
| Tree.LookupPutDisjoint | plugins/documentation-tools/skills/app-spec-generator/scripts/scanner.ts:309-331 | a write leaves every path outside it unchanged |
| Tree.LookupRemove | plugins/documentation-tools/skills/app-spec-generator/scripts/scanner.ts:300-307 | a removal makes the path absent and leaves the paths outside it alone |
| Tree.PutWellFormed | plugins/documentation-tools/skills/app-spec-generator/scripts/scanner.ts:309-331 | writes keep entry names unique and non-empty |
| Tree.RemoveWellFormed | plugins/documentation-tools/skills/app-spec-generator/scripts/scanner.ts:300-307 | removals keep entry names unique and non-empty |
| Fs.FileSystem.ReadFile | plugins/documentation-tools/skills/app-spec-generator/scripts/parser.ts:13 | `readFileSync` gives the text of a regular file, and throws on anything else |
| Fs.FileSystem.ReadDir | plugins/documentation-tools/skills/app-spec-generator/scripts/scanner.ts:84 | `readdirSync` gives the listing of a directory, and throws on anything else |
| Fs.FileSystem.MkDir | plugins/documentation-tools/skills/app-spec-generator/scripts/scanner.ts:203 | `mkdirSync(recursive)` where the parent already exists: when an object already stands at the path it is kept, and success means it is a directory; otherwise success means the parent is a directory and an empty directory was created there; failure leaves the tree as it was |
| Fs.FileSystem.CopyFile | plugins/documentation-tools/skills/app-spec-generator/scripts/scanner.ts:325 | `copyFileSync`: success means the source was a readable file, the destination's parent is a directory, and the destination now holds that file; failure leaves the tree as it was |
| Fs.FileSystem.RemoveTree | plugins/documentation-tools/skills/app-spec-generator/scripts/scanner.ts:302 | `rmSync(recursive, force)`: a missing path succeeds and changes nothing; success means the path was removed; on failure some object stands at the path and the rest of the tree is unchanged |
| Fs.FileSystem.WriteFile | perseon/specs/doc-generator/index.ts:89 | `writeFileSync`: success means the parent is a directory, the old object was absent or a file, and the path now holds the data; failure leaves the tree as it was |
| Fs.FileSystem.Rename | perseon/specs/doc-generator/index.ts:90 | `renameSync` of a file: success means the source is gone and the target, absent or a file before, holds its text; failure leaves the tree as it was |
| Output.WriteOutput | perseon/specs/doc-generator/index.ts:88-90 | write `app-specs.md.tmp`, then rename it to `app-specs.md`: on success the document holds the markdown and no temporary file is left; in every outcome the document is either unchanged or the markdown, and no other name changes |
| Plans.CountBoxes | plugins/documentation-tools/skills/app-spec-generator/scripts/parser.ts:59-60 | the number of non-overlapping box matches, at most a fifth of the text's length |
| Plans.TickedAtMostAll | plugins/documentation-tools/skills/app-spec-generator/scripts/parser.ts:59-60 | every ticked box is also a box: `tasksCompleted <= tasksTotal` |
| Plans.OneBox | perseon/specs/doc-generator/parser.ts:106-119 | `- [x]` and `- [X]` count once as ticked and as a box; `- [ ]` counts once as a box only |
| Plans.Percent | plugins/documentation-tools/skills/app-spec-generator/scripts/parser.ts:63-65 | 0 without boxes; otherwise the integer nearest to `100 c / t`, halves rounded up, as exact bounds |
| Plans.PercentAtMost100 | plugins/documentation-tools/skills/app-spec-generator/scripts/parser.ts:63-65 | a share of the boxes is at most 100 % |
| Plans.PercentFull | plugins/documentation-tools/skills/app-spec-generator/scripts/parser.ts:69 | 100 % holds exactly when at least 99.5 % of the boxes are ticked, so not necessarily all of them |
| Plans.PercentZero | plugins/documentation-tools/skills/app-spec-generator/scripts/parser.ts:71 | 0 % holds exactly when there are no boxes or less than half a percent are ticked |
| Plans.BaseStatus | perseon/specs/doc-generator/parser.ts:68-76 | the cascade: completed exactly at 100 %, in progress exactly strictly between 0 % and 100 %, and at 0 % planned exactly when the hourglass or the copy's "planned" word occurs, otherwise not started |
| Plans.PlanStatus | plugins/documentation-tools/skills/app-spec-generator/scripts/parser.ts:68-86 | the perseon copy keeps the base cascade; in the plugin copy a check mark above 80 % gives completed, else a yellow circle gives in progress, else an hourglass gives planned, else the base cascade decides |
| Plans.CompletedNeedsProgress | plugins/documentation-tools/skills/app-spec-generator/scripts/parser.ts:80-81 | completed needs more than 80 %, and 100 % in the perseon copy; below 100 % it needs the check mark |
| Plans.NoBoxesNotCompleted | perseon/specs/doc-generator/parser.ts:64-76 | a plan without boxes is never completed, in either copy |
| Plans.HourglassOverrides | plugins/documentation-tools/skills/app-spec-generator/scripts/parser.ts:84-85 | in the plugin copy an hourglass forces planned whatever the percentage, unless the yellow circle or a check mark with more than 80 % is present |
| Plans.Progress | plugins/documentation-tools/skills/app-spec-generator/scripts/parser.ts:58-86 | the facts of a plan's text: the total and ticked box counts, the rounded percentage of the two and the status the copy's cascade gives for it; ticked at most total, percentage at most 100, no boxes gives 0 % and never completed, completed means more than 80 % |
| Patterns.Title | plugins/documentation-tools/skills/app-spec-generator/scripts/parser.ts:16-17 | without a `#` heading the title is `Untitled Feature`; with one it is a single line of the text |
| Patterns.TitleOfFirstLine | plugins/documentation-tools/skills/app-spec-generator/scripts/parser.ts:16-17 | a first line `# <text>` gives that text as the title |
| Patterns.CheckboxCapturesLines | plugins/documentation-tools/skills/app-spec-generator/scripts/parser.ts:290-294 | each capture of a checkbox-line match lies within one line |
| Patterns.FeaturesSection | plugins/documentation-tools/skills/app-spec-generator/scripts/parser.ts:272 | a section that is found starts with `##` |
| Patterns.SectionAtStart | plugins/documentation-tools/skills/app-spec-generator/scripts/parser.ts:272 | `## Features` at the start of a text with no later `\n##` makes the whole text the section |
| Patterns.SectionStarItem | plugins/documentation-tools/skills/app-spec-generator/scripts/parser.ts:278 | `* text` in the features section gives the text |
| Patterns.SectionDashItem | plugins/documentation-tools/skills/app-spec-generator/scripts/parser.ts:278 | `- text` in the features section gives the text, unless the text itself starts like a box or a bullet |
| Patterns.SectionBoxKept | plugins/documentation-tools/skills/app-spec-generator/scripts/parser.ts:278 | `- [x] text` in the features section keeps the box in the captured feature, since the pattern's optional box comes before the bullet |
| Patterns.SectionBoxFirst | plugins/documentation-tools/skills/app-spec-generator/scripts/parser.ts:278 | a box written before the bullet is dropped: `[x] - text` gives the text |
| Patterns.CompletedItemOf | plugins/documentation-tools/skills/app-spec-generator/scripts/parser.ts:189 | `- [x] text` and `- [X] text` are completed-feature lines with that text; `- [ ] text` is not |
| Patterns.BulletDashItem | perseon/specs/doc-generator/parser.ts:200 | `- text` is a bullet of the perseon parser, giving the text |
| Patterns.BulletBoxItem | perseon/specs/doc-generator/parser.ts:200 | `- [ ] text`, `- [x] text` and `- [X] text` are bullets whose box is dropped |
| Patterns.CheckboxLine | plugins/documentation-tools/skills/app-spec-generator/scripts/parser.ts:290-294 | a lone `- [x] text` or `- [ ] text` line yields exactly its trimmed text |
| PluginParser.ParseRequirements | plugins/documentation-tools/skills/app-spec-generator/scripts/parser.ts:11-48 | an unreadable file gives `Unknown` and an empty description; otherwise the title is the first heading (or `Untitled Feature`) and the description is the heuristic's |
| PluginParser.PriorityIn | plugins/documentation-tools/skills/app-spec-generator/scripts/parser.ts:164-178 | the first level from critical down to low whose `priority: <level>` or `<level> priority` phrase occurs, and none exactly when no phrase occurs |
| PluginParser.SectionFeatures | plugins/documentation-tools/skills/app-spec-generator/scripts/parser.ts:275-285 | the captures of the section's lines longer than 5, each from some line, and every such capture kept |
| PluginParser.FeaturesList | plugins/documentation-tools/skills/app-spec-generator/scripts/parser.ts:268-304 | at most 10 features, each longer than 5: the section's items when it yields any, otherwise the first 10 checkbox captures of the whole text, in order, that are longer than 10 and start with neither `Create ` nor `Add ` |
| PluginParser.ExtractFeaturesList | plugins/documentation-tools/skills/app-spec-generator/scripts/parser.ts:268-304 | the loops of `extractFeaturesList` compute exactly `FeaturesList` |
| PluginParser.OneBulletSection | plugins/documentation-tools/skills/app-spec-generator/scripts/parser.ts:268-304 | a features section with one bullet lists exactly that bullet's text |
| PluginParser.CompletedFeaturesAre | plugins/documentation-tools/skills/app-spec-generator/scripts/parser.ts:183-203 | the completed features are exactly the ticked-box lines whose capture is longer than 10 and starts with neither `Task ` nor `Step `, each from some line and in order |
| PluginParser.ExtractCompletedFeatures | plugins/documentation-tools/skills/app-spec-generator/scripts/parser.ts:183-203 | the line loop computes exactly the completed features of the text's lines |
| PluginParser.ParseImplementationPlan | plugins/documentation-tools/skills/app-spec-generator/scripts/parser.ts:54-115 | an unreadable plan gives not started, zeros and no features; otherwise the box counts, their rounded percentage, the status the plugin cascade gives, the effort, target date, priority and feature list of the text, ticked at most total, percentage at most 100, no boxes never completed, at most 10 features |
| PluginParser.CalculateCompletionPercentage | plugins/documentation-tools/skills/app-spec-generator/scripts/parser.ts:257-263 | agrees with the plan parser's percentage on the same text, and is at most 100 |
| PerseonParser.ParseRequirements | perseon/specs/doc-generator/parser.ts:12-42 | an unreadable file gives `Unknown Feature` and an empty description; otherwise the first heading's title (or `Untitled Feature`) and the heuristic description |
| PerseonParser.LabelStart | perseon/specs/doc-generator/parser.ts:170 | the leftmost position of a `Priority[:\s]+<level>` label, case-insensitive, with none before it |
| PerseonParser.ExtractPriority | perseon/specs/doc-generator/parser.ts:167-188 | an explicit label wins; without one the result is never medium or low, and it is critical exactly when `critical` (any case) or the siren occurs; failing that, high exactly when `high priority` (any case) occurs |
| PerseonParser.LabelFirst | perseon/specs/doc-generator/parser.ts:170-177 | `Priority: medium` at the start of a plan is its priority |
| PerseonParser.BulletFeaturesAre | perseon/specs/doc-generator/parser.ts:197-208 | the listed bullets are exactly the lines' bullet captures longer than 5 that do not start with `##`, each from some line and in order |
| PerseonParser.ExtractFeatureList | perseon/specs/doc-generator/parser.ts:193-212 | the line loop gives the first 20 kept bullets |
| PerseonParser.FeatureList | perseon/specs/doc-generator/parser.ts:193-212 | at most 20 features, each longer than 5 and not starting with `##` |
| PerseonParser.CarriageReturnLine | perseon/specs/doc-generator/parser.ts:200 | a line ending in a carriage return never matches the bullet pattern (a CRLF plan lists no features) |
| PerseonParser.ParseImplementationPlan | perseon/specs/doc-generator/parser.ts:48-100 | an unreadable plan gives not started and zeros; otherwise the box counts, their rounded percentage, the status the perseon cascade gives, the effort, target date and priority of the text, ticked at most total, completed only at 100 %, no boxes never completed |
| PerseonParser.ParseSpecification | perseon/specs/doc-generator/parser.ts:217-265 | throws (none) exactly when the plan exists but cannot be read; without requirements the title is the name and the description empty; without a plan not started, zeros, no features and no link; with one the link `./specs/<name>/implementation-plan.md`; read requirements give the title and description `parseRequirements` finds; a read plan gives the status, percentage, counts, effort, target date and priority `parseImplementationPlan` finds, and the features `extractFeatureList` finds |
| PluginScanner.CategoryRulesDistinct | plugins/documentation-tools/skills/app-spec-generator/scripts/scanner.ts:121-176 | the eleven category labels are distinct |
| PluginScanner.InferCategoryFirstMatch | plugins/documentation-tools/skills/app-spec-generator/scripts/scanner.ts:121-176 | a folder gets rule `j`'s category exactly when rule `j` (Foundation first) is the first whose keyword occurs in the lower-cased name |
| PluginScanner.InferCategoryOther | plugins/documentation-tools/skills/app-spec-generator/scripts/scanner.ts:175 | `Other` exactly when no keyword occurs |
| PluginScanner.GuideIsNeverLearning | plugins/documentation-tools/skills/app-spec-generator/scripts/scanner.ts:150-162 | `guide` contains `ui`, so the earlier UX rule takes it and Learning Resources is never chosen through `guide` |
| PluginScanner.ClassifyRequirements | plugins/documentation-tools/skills/app-spec-generator/scripts/scanner.ts:86-110 | the requirements file is the last regular `.md` file named `requirements.md` in any case, and absent when there is none |
| PluginScanner.ClassifyImplementation | plugins/documentation-tools/skills/app-spec-generator/scripts/scanner.ts:86-110 | the implementation file is the last regular `.md` file named `implementation-plan.md` or `implementation_plan.md` in any case, and absent when there is none |
| PluginScanner.ClassifySupplementary | plugins/documentation-tools/skills/app-spec-generator/scripts/scanner.ts:86-110 | the supplementary files are exactly the other regular `.md` files, in listing order; directories and other names are ignored |
| PluginScanner.FindImplementationFiles | plugins/documentation-tools/skills/app-spec-generator/scripts/scanner.ts:72-115 | a folder that cannot be listed gives no files; otherwise the classification of its listing |
| PluginScanner.ScanIsFilter | plugins/documentation-tools/skills/app-spec-generator/scripts/scanner.ts:12-55 | the records are those of exactly the directories that are neither excluded nor hidden, in listing order |
| PluginScanner.ScanSkips | plugins/documentation-tools/skills/app-spec-generator/scripts/scanner.ts:32-40 | no excluded name and no name starting with `.` (so never `.archive`) is returned |
| PluginScanner.ScanRecords | plugins/documentation-tools/skills/app-spec-generator/scripts/scanner.ts:12-55 | every scanned entry has its record, and every record is that of a directory entry |
| PluginScanner.ScanNames | plugins/documentation-tools/skills/app-spec-generator/scripts/scanner.ts:12-55 | the scanned names are distinct and non-empty |
| PluginScanner.ScanSpecsDirectory | plugins/documentation-tools/skills/app-spec-generator/scripts/scanner.ts:12-55 | the scan loop over the specs directory computes exactly `Scan` |
| PluginScanner.OrganizeByCategory | plugins/documentation-tools/skills/app-spec-generator/scripts/scanner.ts:181-196 | one group per category in first-met order, each holding exactly that category's records in order, all records covered once; the perseon `organizeByCategory` (perseon/specs/doc-generator/scanner.ts:183-197) is the same loop over the same records and is modelled by this method too |
| PluginArchive.CopyDirectory | plugins/documentation-tools/skills/app-spec-generator/scripts/scanner.ts:309-331 | on success the destination holds the copied node; a fresh destination gets an exact copy of the source directory; on failure the tree is either unchanged or differs only in the object now standing at the destination |
| PluginArchive.ManifestOf | plugins/documentation-tools/skills/app-spec-generator/scripts/scanner.ts:220-229 | the manifest counts the specs and lists each spec's name, category and whether it has a requirements file and a plan |
| PluginArchive.ArchiveSpecFolders | plugins/documentation-tools/skills/app-spec-generator/scripts/scanner.ts:198-241 | only `.archive` changes; on success the path is `.archive/<stamp>`, every spec folder has a copy there and, for a new archive, each copy is the original folder and `manifest.json` holds the manifest's JSON; any error gives null |
| PluginArchive.ValidateArchive | plugins/documentation-tools/skills/app-spec-generator/scripts/scanner.ts:247-269 | true exactly when the archive exists and every spec name is present under it; every spec is checked, and the missing names are reported in order |
| PluginArchive.RemoveDirectory | plugins/documentation-tools/skills/app-spec-generator/scripts/scanner.ts:300-307 | on success the folder is gone; on failure some object stands at its path and the rest of the tree is unchanged |
| PluginArchive.CleanupSpecFolders | plugins/documentation-tools/skills/app-spec-generator/scripts/scanner.ts:279-304 | every folder is tried: `removed + errors.length` is the number of specs, each error names its folder, the failed folders are listed in folder order, the folders still present are exactly the failed ones, and no other name changes |
| PluginArchive.RollbackCleanup | plugins/documentation-tools/skills/app-spec-generator/scripts/scanner.ts:333-372 | false when the archive is missing; the archive itself is untouched; names already present are left alone; only archived directories come back (never `manifest.json`); on success every archived directory whose name was free is restored exactly |
| PluginIndex.AssembleFeature | plugins/documentation-tools/skills/app-spec-generator/scripts/index.ts:66-107 | the title is the folder name and the description empty without a requirements file; the plan's fields override the defaults not started / 0 / 0 / no features; the category and link come from the record |
| PluginIndex.BuildFeature | plugins/documentation-tools/skills/app-spec-generator/scripts/index.ts:64-110 | one pass of the loop builds the feature of the record from what reading its files gives |
| PluginIndex.CollectFeatures | plugins/documentation-tools/skills/app-spec-generator/scripts/index.ts:60-119 | one feature per record, in order: no record is dropped, because the parsers catch their own errors |
| PluginIndex.AssembledConsistent | plugins/documentation-tools/skills/app-spec-generator/scripts/index.ts:126-132 | every assembled feature ticks at most its tasks, so the overall completion is at most 100 |
| PluginIndex.CleanUp | plugins/documentation-tools/skills/app-spec-generator/scripts/index.ts:232-265 | `foldersRemoved` is the removed count and `cleanupSucceeded` holds exactly when it is every folder; any failure gives `rollbackPerformed` and failure, with the error text telling the rollback outcome; only spec folders can lose content |
| PluginIndex.ScannedSpecs | plugins/documentation-tools/skills/app-spec-generator/scripts/scanner.ts:12-55 | the scanned records have distinct, non-empty names other than `.archive`, and each names a folder of the specs directory |
| PluginIndex.ArchiveAndCleanup | plugins/documentation-tools/skills/app-spec-generator/scripts/index.ts:184-268 | steps 7 to 11: a failed archive gives `Failed to create archive` and only `.archive` changed; otherwise `archivePath` and `foldersArchived = specs.length` are set, the flags follow cleanup and rollback, and any folder that changed was a spec folder with a copy in the archive |
| PluginIndex.ArchiveSafety | plugins/documentation-tools/skills/app-spec-generator/scripts/index.ts:184-265 | across archive and cleanup, a changed top-level name other than `.archive` is a spec folder whose copy is in the archive |
| PluginIndex.RestoredFolders | plugins/documentation-tools/skills/app-spec-generator/scripts/scanner.ts:333-372 | after a successful rollback every spec folder the archive holds as a directory is present again |
| PluginIndex.UpdateAppSpecs | plugins/documentation-tools/skills/app-spec-generator/scripts/index.ts:22-294 | an empty scan fails with `No spec folders found` and changes nothing; a failed write gives the catch result; cleanup is reached only with the flag, a valid document and an archive; `archivePath` is set exactly when cleanup was reached; `rollbackPerformed` holds exactly when cleanup failed; success means no error; every changed spec folder has an archived copy |
| PluginIndex.Publish | plugins/documentation-tools/skills/app-spec-generator/scripts/index.ts:162-274 | steps 5 to 11 for the scanned records, with the same flag state machine and safety property |
| PluginIndex.OutputNotSpec | plugins/documentation-tools/skills/app-spec-generator/scripts/index.ts:163-165 | writing the document cannot touch a spec folder: neither the document nor its temporary file can be one |
| PluginIndex.OutputKept | plugins/documentation-tools/skills/app-spec-generator/scripts/index.ts:184-268 | archive and cleanup leave the written document in place |
| PluginIndex.CanSafelyCleanup | plugins/documentation-tools/skills/app-spec-generator/scripts/index.ts:299-311 | safe exactly when the document is valid and the archive is valid |
| PerseonScanner.CategoryRulesDistinct | perseon/specs/doc-generator/scanner.ts:116-178 | the category labels are distinct |
| PerseonScanner.InferCategoryFirstMatch | perseon/specs/doc-generator/scanner.ts:116-178 | a folder gets rule `j`'s category exactly when rule `j` (GitHub first) is the first whose keyword occurs in the lower-cased name |
| PerseonScanner.InferCategoryOther | perseon/specs/doc-generator/scanner.ts:177 | `Other` exactly when no keyword occurs |
| PerseonScanner.GitIsGitHub | perseon/specs/doc-generator/scanner.ts:119-121 | any name containing `git` in any case is GitHub Integration |
| PerseonScanner.FindName | perseon/specs/doc-generator/scanner.ts:102-105 | `find` with a case-insensitive comparison gives a listed name equal to the alias ignoring case, and none exactly when no name is |
| PerseonScanner.FirstFound | perseon/specs/doc-generator/scanner.ts:97-111 | the first alias that names a file, and no earlier alias does |
| PerseonScanner.FindFile | perseon/specs/doc-generator/scanner.ts:97-111 | the aliases are tried in order and the first match is returned |
| PerseonScanner.RequirementsFileIs | perseon/specs/doc-generator/scanner.ts:54-57 | the requirements file is a name equal to `requirements.md` ignoring case, and absent exactly when there is none |
| PerseonScanner.ImplementationFileIs | perseon/specs/doc-generator/scanner.ts:58-63 | the plan lower-cases to one of the three plan names, and is absent exactly when no name does |
| PerseonScanner.PlanNameFirst | perseon/specs/doc-generator/scanner.ts:58-63 | `implementation-plan.md`, in any case, beats every other alias |
| PerseonScanner.Supplementary | perseon/specs/doc-generator/scanner.ts:66-76 | exactly the `.md` names whose lower-case form is none of requirements, plan and implementation names, in order |
| PerseonScanner.UpperPlanIsAlsoSupplementary | perseon/specs/doc-generator/scanner.ts:60-76 | an `IMPLEMENTATION_PLAN.md` chosen as the plan is also listed as a supplementary file |
| PerseonScanner.UpperPlanListedTwice | perseon/specs/doc-generator/scanner.ts:60-76 | a folder holding only `IMPLEMENTATION_PLAN.md` lists it as its plan and as a supplementary file |
| PerseonScanner.ProcessSpecDirectory | perseon/specs/doc-generator/scanner.ts:47-92 | null exactly when the folder cannot be listed; otherwise its record from the listing |
| PerseonScanner.ScanIsFilter | perseon/specs/doc-generator/scanner.ts:16-41 | the records of exactly the listable directories that are not excluded, in listing order |
| PerseonScanner.ScanKeeps | perseon/specs/doc-generator/scanner.ts:24-27 | no excluded name is returned, and every record is that of a directory |
| PerseonScanner.ScanCovers | perseon/specs/doc-generator/scanner.ts:24-36 | every listable directory that is not excluded has its record, hidden ones included |
| PerseonScanner.ScanSpecsDirectory | perseon/specs/doc-generator/scanner.ts:16-41 | the scan loop computes exactly `Scan` |
| Stats.CompletedAtMostTotal | perseon/specs/doc-generator/generator.ts:52-55 | with every feature consistent, the ticked tasks number at most the tasks |
| Stats.StatusPartition | perseon/specs/doc-generator/generator.ts:45-50 | the three status filters partition the features, planned absorbing not started |
| Stats.OverallAtMost100 | perseon/specs/doc-generator/generator.ts:52-55 | with consistent features the overall completion is at most 100 |
| Stats.CalculateStatistics | perseon/specs/doc-generator/generator.ts:38-64 | the counts partition the features; the overall completion is 0 without tasks and otherwise the rounded share of ticked tasks |
| Stats.ReportOf | perseon/specs/doc-generator/index.ts:57-77 | `featuresCount` is the number of features; completed, in progress and planned are the sizes of the three status filters (planned including not started) and add up to it; the percentage is the rounded share of ticked tasks among all tasks, 0 % without tasks; the category counts sum to the features, with one entry per category that occurs, each counting that category's features |
| Stats.AggregateStatistics | plugins/documentation-tools/skills/app-spec-generator/scripts/index.ts:123-156 | the filters, reductions and counting loop compute exactly `ReportOf` |
| Stats.TallyCategories | perseon/specs/doc-generator/generator.ts:113-131 | the first loop leaves one entry per category, in first-met order, with that category's counters |
| Stats.CalculateCategoryProgress | perseon/specs/doc-generator/generator.ts:108-147 | both loops compute exactly the per-category progress |
| Stats.CategoryNamesDistinct | perseon/specs/doc-generator/generator.ts:113-131 | no category appears twice |
| Stats.CategoryNamesPresent | perseon/specs/doc-generator/generator.ts:113-131 | every feature's category has an entry and every entry is some feature's category |
| Stats.CategoryCounts | perseon/specs/doc-generator/generator.ts:113-144 | each entry's total is its feature count, its status counters add up to it, its percentage is its rounded task share, and the entries cover every feature once |
| Stats.CategoryPercentBound | perseon/specs/doc-generator/generator.ts:135-144 | with consistent features no category passes 100 % |
| PerseonGenerator.Repeat | perseon/specs/doc-generator/generator.ts:155 | `repeat(n)` is `n` times as long as the text |
| PerseonGenerator.CreateProgressBarAsWritten | perseon/specs/doc-generator/generator.ts:152-156 | the bar as written, with none for 110 % or more, where `repeat` throws on a negative count |
| PerseonGenerator.AsWrittenBarIsMojibake | perseon/specs/doc-generator/generator.ts:152-156 | as written, a bar is thirty characters long and none of them is a block character |
| PerseonGenerator.CreateProgressBar | perseon/specs/doc-generator/generator.ts:152-156 | the intended bar; none exactly at 110 % or more |
| PerseonGenerator.ProgressBarShape | perseon/specs/doc-generator/generator.ts:152-156 | for 0 to 100 % the bar has ten cells, the first `floor(p / 10)` full and the rest empty |
| PerseonGenerator.DashboardBarsDrawn | perseon/specs/doc-generator/generator.ts:88-103 | with consistent features every dashboard row gets a ten-cell bar matching its category's percentage |
| PerseonGenerator.GenerateFeaturesByStatus | perseon/specs/doc-generator/generator.ts:204-239 | the filter and grouping loop compute exactly the listing of a status |
| PerseonGenerator.ListingMeaning | perseon/specs/doc-generator/generator.ts:220-239 | a listing is empty (`No features in this status.`) exactly when no feature has the status; otherwise its total counts them, and its groups, one per category that occurs, hold each of them once in order |
| PerseonGenerator.ListingsPartition | perseon/specs/doc-generator/generator.ts:220-224 | each feature is in exactly one of the three listings |
| PerseonGenerator.ModelDomainRulesDistinct | perseon/specs/doc-generator/generator.ts:397-440 | the domain labels are distinct |
| PerseonGenerator.InferModelDomainFirstMatch | perseon/specs/doc-generator/generator.ts:397-440 | a model gets rule `j`'s domain exactly when rule `j` is the first that applies to its lower-cased name |
| PerseonGenerator.InferModelDomainOther | perseon/specs/doc-generator/generator.ts:439 | `Other` exactly when no rule applies |
| PerseonGenerator.GithubNeverProjectsOrIssues | perseon/specs/doc-generator/generator.ts:411-420 | a name containing `github` is never filed under Projects or Issue Tracking |
| PerseonGenerator.GroupModelsByDomain | perseon/specs/doc-generator/generator.ts:380-392 | every model lands once in its domain's group, in order, with one group per domain that occurs |
| PerseonGenerator.EntryOf | perseon/specs/doc-generator/generator.ts:461-488 | an entry keeps the feature's title, status and link, and lists its first sub-features, at most 10 |
| PerseonGenerator.DetailedEntries | perseon/specs/doc-generator/generator.ts:461-488 | one entry per feature of a category, in order |
| PerseonGenerator.GenerateDetailedFeatures | perseon/specs/doc-generator/generator.ts:445-494 | the grouping loop and the numbered section loop compute exactly the detailed sections |
| PerseonGenerator.SectionsNumbered | perseon/specs/doc-generator/generator.ts:445-494 | sections are numbered 1, 2, … in order, each holding one entry per feature of its category |
| PerseonGenerator.SectionsCover | perseon/specs/doc-generator/generator.ts:445-494 | each category has exactly one section |
| PerseonIndex.ParseSpecs | perseon/specs/doc-generator/index.ts:30-53 | the loop keeps the features of the records that parse, in order |
| PerseonIndex.Skipped | perseon/specs/doc-generator/index.ts:30-53 | a record is skipped exactly when it names a plan that cannot be read |
| PerseonIndex.ParsedCount | perseon/specs/doc-generator/index.ts:30-53 | one feature per record that parses |
| PerseonIndex.ParsedCovers | perseon/specs/doc-generator/index.ts:30-53 | a record that throws does not stop the loop: every record that parses has its feature in the result |
| PerseonIndex.ParsedFrom | perseon/specs/doc-generator/index.ts:30-53 | every resulting feature is that of some record |
| PerseonIndex.ParsedConsistent | perseon/specs/doc-generator/index.ts:57-71 | parsed features tick at most their tasks, so the overall completion is at most 100 |
| PerseonIndex.UpdateAppSpecs | perseon/specs/doc-generator/index.ts:18-122 | success reports the statistics of the parsed features and leaves the document with the rendered markdown and no temporary file; a thrown error gives failure with zero counts and the error; only the document and temporary file change |
| PerseonIndex.EmptyScanReportsNothing | perseon/specs/doc-generator/index.ts:23-104 | an empty scan still runs and reports no features |
| PerseonIndex.FormatResult | perseon/specs/doc-generator/index.ts:127-141 | a failure prints `❌ Error: <error>`; a success starts with a newline and the tick and ends with the document's path |
| PerseonIndex.FormatResultDistinguishes | perseon/specs/doc-generator/index.ts:127-141 | the texts of a success and a failure always differ |


## Left out

- The `latest` symlink of step 9 (plugins/documentation-tools/skills/app-spec-generator/scripts/index.ts:220-230) is not modelled. The step is best effort: its own `catch` swallows every error, and it changes nothing the rest of the run reads.
- Clocks. The archive stamp and the manifest's ISO time, both computed from `new Date()` (plugins/documentation-tools/skills/app-spec-generator/scripts/scanner.ts:198-241), are the parameters `stamp` and `isoTime`. The result's `timestamp` field and the duration log line are left out.
- The JSON text of the manifest (`JSON.stringify`) is the function parameter `json`. The model fixes which facts the manifest holds, not their serialisation.
- `generateAppSpecs` and `validateAppSpecs` of the plugin `generator.ts` are not part of this model. They appear as the `render` function and the `documentValid` flag of `PluginIndex.UpdateAppSpecs`.
- The perseon generator's template prose is not modelled: header, table of contents, overview, footer, tech stack, database schema and `parseModels`. The document reaches `PerseonIndex.UpdateAppSpecs` as the function `render`. The parts of `generator.ts` that compute something are modelled in `PerseonGenerator` and `Stats`.
- The description, effort and target-date regexes of both parsers are an opaque ordered rule list (`Heuristics`) where the first match wins. Their individual patterns are not modelled.
- The specs directory itself is assumed to exist and be listable. The model does not cover the early `return []` of plugins/documentation-tools/skills/app-spec-generator/scripts/scanner.ts:17-20. It does not cover the outer `catch` blocks of plugins/documentation-tools/skills/app-spec-generator/scripts/scanner.ts:63-66 and perseon/specs/doc-generator/scanner.ts:37-39 when they fire on the root.
- `extractInProgressFeatures` and `extractPlannedFeatures` (plugins/documentation-tools/skills/app-spec-generator/scripts/parser.ts:205-256) are not modelled, because no function of the pipeline calls them.
- Logging and console output of every file are left out.
- Both `update.ts` command-line wrappers are not part of this model.
- The `types.ts` files appear only as the datatypes of `Types`.
- Plans.Percent: `Math.round((c / t) * 100)` is computed exactly, as the nearest integer with halves rounded up. Where the floating-point product falls just below a half, JavaScript may round down.
- Text.Lower: the model lowers ASCII letters only, while JavaScript's `toLowerCase` lowers the letters of every script.
- Text.Utf16Length: a character outside the Basic Multilingual Plane counts as two code units. Lone surrogates are not modelled.
- PluginIndex.ArchiveAndCleanup requires at least one record with distinct, non-empty names other than `.archive`. The scan always guarantees this (`PluginIndex.ScannedSpecs`), and `UpdateAppSpecs` returns early on an empty scan.
- PluginIndex.UpdateAppSpecs requires a non-empty `stamp`. The date-based stamp of the source is never empty.
- The failure branch after `validateArchive` (plugins/documentation-tools/skills/app-spec-generator/scripts/index.ts:207-216) is modelled as dead code. The model proves it cannot be reached after `archiveSpecFolders` succeeds, because that call returns a path only when every `copyDirectory` call finished without throwing, so every folder has its copy.
- A folder that `rmSync` removed only in part is left as it is, as in the code. The rollback does not restore it, because its name is still taken.
- `rollbackCleanup` takes a `failedAtFolder` parameter that it never uses, and the model omits it.
- Code versus specification: in the rollback scenario the specification has folders removed before the failure stay removed. The code (plugins/documentation-tools/skills/app-spec-generator/scripts/scanner.ts:349-365) restores every archived directory whose name is free, so those folders come back. The model follows the code.
- `IMPLEMENTATION_PLAN.md` is chosen as the plan by the perseon scanner and is then also listed as a supplementary file (perseon/specs/doc-generator/scanner.ts:58-76). The model keeps this quirk.
- The plugin feature loop's `catch` (plugins/documentation-tools/skills/app-spec-generator/scripts/index.ts:60-119) is never taken, because the parsers catch their own read errors. The per-folder `try` of the plugin scanner never catches for the same reason. The model has no path for either.
- The `fault` parameter of both `UpdateAppSpecs` methods stands for the message of any error a write or rename throws.
- Fs.FileSystem.MkDir: a missing parent makes the model's call fail, where `mkdirSync` with `recursive: true` would create the parent too. No call in the pipeline reaches this case: the archive directory is created under the specs directory first (`PluginArchive.MakeArchiveDir`), and each copied directory is created under one that already exists.
- Fs.FileSystem.RemoveTree: after a failed removal the object left at the path may be any well-formed node. The model does not promise it is a part of the old object. `PluginArchive.RemoveDirectory` inherits this.
- PluginArchive.CopyDirectory: after a failure the object at the destination may be any node. The model does not promise it is a part of the source.
- A `statSync` that throws inside `findImplementationFiles` (plugins/documentation-tools/skills/app-spec-generator/scripts/scanner.ts:88) is caught by the function's own `catch` (plugins/documentation-tools/skills/app-spec-generator/scripts/scanner.ts:111-113), which returns the record built so far. The model has `statSync` succeed on every listed name, so this partial record is not modelled.
- Concurrent changes to the specs directory during a run are not modelled.

## Findings

| source | as written | input that shows it | evidently intended | confidence | as-written member | corrected member |
|---|---|---|---|---|---|---|
| perseon/specs/doc-generator/generator.ts:152-156 | each bar cell is the three-character mojibake text `â–ˆ` or `â–‘`, so a bar is 30 characters and holds no block character | percentage 50 gives a 30-character bar with no `█` or `░` | ten cells, `█` for each full tenth and `░` for each empty one | not executed | PerseonGenerator.CreateProgressBarAsWritten, PerseonGenerator.AsWrittenBarIsMojibake | PerseonGenerator.CreateProgressBar, PerseonGenerator.ProgressBarShape |
