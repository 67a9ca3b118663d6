# A verified model of the ESG platform's caches, limiters, catalog scripts and parsers

This Dafny project models the parts of the backend that hold real algorithms and protocols, and proves what
they keep over every call, every run or every input:

- **The TTL cache** (`RuntimeCache`, `CacheProtocol`, `CacheHistory`, `DashboardCache`). The cache object itself is a class; many tasks
  sharing it are a transition system in which the section of `get_or_set` that awaits the factory keeps the lock. Over
  all interleavings, clock ticks, outside data changes, factory failures and cancellations: what is returned after an
  invalidation was produced after it, no two factories run at once, and no factory starts while an earlier result is
  still live; a look-up answers exactly with what was put there last, for its lifetime and no longer. Dashboard keys are strings built exactly as the code builds them, so that project 1 cannot catch project 12.
- **The limiters** (`SlidingWindow`, `AiRateGate`, `AiGateRules`, `RateLimit`). Lazily evicted queues decide exactly as
  counting in the unbounded history would, no window of any run holds more than its limit, and a call passes if and only
  if no ban, limit or repetition counted in the log stands against it.
- **The catalog scripts** (`CatalogClone`, `CatalogRules`, `SectionForest`, `SectionClone`, `SectionRules`,
  `SectionRerun`, `SectionExamples`, `KeyedTable`, `CatalogKeys`, `CatalogImport`, `ImportElements`, `ImportTheorems`,
  `ImportRefusal`, `ImportRules`). Copying items, parents, mappings and dependencies into another disclosure preserves
  the graph and changes nothing when run again. The section recursion ends on every table and reaches exactly the
  sections not caught by a cycle or a missing parent; when its copy is one-to-one and when it repeats is characterised.
  Importing a document leaves exactly its item codes current and is idempotent, precisely when no two disclosures of it
  contradict each other; when the database refuses it is characterised too.
- **The clause parsers** (`ClauseForest`, `SasbClauses`, `SasbRendering`, `GriClauses`, `GriParser`, `GriRendering`,
  `ReadingOrder`, `ClauseExpansion`, `LineText`). Nodes live on the heap, are attached first and edited later; the forests they form are
  characterised by their preorder listing, and round trips from forest to text and back are proved.
- **The datasheet loop** (`DatasheetRows`, `MetricCodes`). A depth-indexed table of parent labels answers as a backward
  scan over the rows would; when the disambiguated codes are distinct is characterised exactly.
- **Numeric and string cores** (`Decimal`, `AlphaToken`, `SectionCodes`, `RoleBindings`, `DimensionDedup`,
  `MappingDedup`, `SqlText`).

Database tables are maps from ids to rows (with the ids' freshness explicit), query results are sequences in the
query's order, time is an integer that does not go back, strings are sequences of characters. Regular-expression
engines, text clean-up and case folding over Unicode are parameters. Code that updates state in place is a class or a
method with loops, proved against a specification function whose own properties are then proved as lemmas. What these
functions mean is told in the terms of the tables, lines and events themselves by the modules `CacheHistory`,
`AiGateRules`, `SectionRules`, `CatalogRules`, `ImportRules` and `ReadingOrder`, whose conditions and results speak of
columns, limits, times and lines.

## What the proofs found

- **Cache coherence is stronger than its design asks for.** It holds for every return after a completed invalidation,
  also for calls that were already waiting for the lock.
- **Dashboard keys** coincide exactly when the views do for every role, also one that contains ':'. The roles `None`, `""`
  and `"unknown"` share a key, and so do the organisations `None` and `0`.
- **Item copying** maps two source items to one target item exactly when their keys are equal (`MergesEqualKeys`), so the
  map is injective if and only if the source keys are distinct: codes, or sort order and name of items without one. A code
  that spells "name::1::x" is taken for the item without a code of that order and name (`KeysMeetIff`). The copy of a mapping may be an existing retired row with
  the same version. The partial unique index on current pairs refuses the copy exactly when the target already has a
  current mapping of the same element with another version (`Clashes`; `ClashHappens` is an input).
- **Section copying merges siblings.** A section without a code takes over the row of a sibling loaded before it that has
  its title, and erases that sibling's code (`CodeErased`). Into standards that start without rows the copy is one-to-one
  if and only if no section finds a sibling loaded before it (`NoMerge`), roots of one standard being siblings. Then a
  second run is certain to end in the same tables and images if and only if no section finds a sibling on either side
  (`NoTwins`): a section without a code may otherwise pick the row of a coded sibling with its title. After a merge of
  a root's only two children every second run repeats the first if the earlier child fits the later one's content, and
  none does otherwise (`SecondRunAfterMerge`): two sections without a code and of one title repeat, an erased code
  never does.
- **Catalog import** reconciles, and repeats without change, if and only if parsed disclosures with the same code list
  the same item codes (`NoConflict`; `ConflictHappens` is an input). The DOCX parser yields one disclosure per code, so
  its documents qualify. The database refuses the import if and only if, before it begins, one of two conditions holds
  (`RefusedIff`); a refused import is rolled back, and what was imported once is not refused the second time.
  First, some listed item's shared element is not there, but another element has the key that it would get: keys ignore
  case and punctuation, and an element's code is free text, so one entered by hand as "se-gri-305-1-a" stops the import
  of GRI 305-1-a (`KeyTakenHappens`). Listed items never take a key from each other (`SlugKeysDiffer`). Second, some
  listed item and its shared element have a version 1 but no current mapping (`RefusalHappens`). The services retire a
  mapping only with its item or for its next version, which does no harm, so this takes a retirement by hand.
- **SASB clauses** are placed by the height of the stack, not by the label: tree depth is the smaller of the label's
  depth and one more than the depth of the clause before.
- **GRI clauses**: the letters "i.", "v." and "x." below an open lettered clause are read as Roman numerals, so writing
  clauses out and parsing them again is faithful if and only if no lettered clause but the first has such a letter
  (`RomanLetterLost` is an input). `clause_leaves` tags leaves with the wrong code as soon as there is a third level
  (`ThirdLevelMiscoded`); the GRI parser never builds one.
- **Datasheet codes**: row-number suffixes make codes distinct if and only if metrics with one code stand on different rows
  and no lone code already looks like a suffixed one; `SuffixCanCollide` is a concrete failure.
- **AI gate bans** are half open: a call exactly sixty minutes after the ban is accepted again.

## Model

| member | source | states |
|---|---|---|
| RuntimeCache.TTLCache.Get | backend/app/core/runtime_cache.py:26-32 | a look-up returns the live entry's value and drops exactly the expired entry it meets |
| RuntimeCache.TTLCache.Set | backend/app/core/runtime_cache.py:34-40 | stores the value with a fresh expiry and returns it |
| RuntimeCache.TTLCache.GetOrSet | backend/app/core/runtime_cache.py:42-57 | the factory runs exactly when neither look-up answers; what it returns is stored, and if it raises nothing is; a cached `None` misses the first check and is caught by the second |
| RuntimeCache.SetThenGet | backend/app/core/runtime_cache.py:23-40 | a value that was set is found until its lifetime is over, and dropped by the first look-up after that |
| RuntimeCache.TTLCache.Invalidate | backend/app/core/runtime_cache.py:59-61 | drops exactly the key |
| RuntimeCache.TTLCache.InvalidateWhere | backend/app/core/runtime_cache.py:63-67 | drops exactly the covered keys |
| CacheProtocol.RunsGoOn | backend/app/core/runtime_cache.py:17-67 | the runs that the next rows speak of start anywhere and can be continued by every step that is possible |
| CacheProtocol.LockHeld | backend/app/core/runtime_cache.py:42-57 | in every reachable state the lock is held exactly by the task whose factory is running |
| CacheProtocol.AtMostOneFactory | backend/app/core/runtime_cache.py:47-57 | no two factories run at the same time, for whatever keys |
| CacheProtocol.NothingSurvivesInvalidation | backend/app/core/runtime_cache.py:59-67 | after an invalidation nothing stored or under way for the key began at or before it |
| CacheProtocol.Coherence | backend/app/core/runtime_cache.py:42-67 | over every interleaving, a value returned for the key after a completed invalidation comes from a factory started (or a `set` made) after it, for this key |
| CacheProtocol.InvalidationPublishesChanges | backend/app/core/runtime_cache.py:42-67 | with entries written through `get_or_set` only, such a value reflects data no older than at the invalidation |
| CacheProtocol.SingleFlight | backend/app/core/runtime_cache.py:42-57 | a factory that starts after an earlier product was stored starts no sooner than that product's expiry, unless the key was invalidated in between |
| CacheHistory.AnswersIff | backend/app/core/runtime_cache.py:26-57 | in every run a look-up returns a product if and only if it was the last put under the key, has not been dropped since, and less than a lifetime has passed |
| CacheHistory.FirstAnswersIff | backend/app/core/runtime_cache.py:43-45 | so does the first look-up of `get_or_set`, except that `None` goes on to the second |
| CacheHistory.FactoryIff | backend/app/core/runtime_cache.py:47-52 | the second look-up starts the factory if and only if no such product is there |
| CacheHistory.NothingOutlivesItsTime | backend/app/core/runtime_cache.py:23-57 | whatever is returned and was not just made was put into the table less than a lifetime ago |
| CacheHistory.LiveIffFresh | backend/app/core/runtime_cache.py:23-57 | the table holds as live exactly what the history of steps says |
| DashboardCache.PrefixIsExact | backend/app/core/dashboard_cache.py:22-33 | a key built for project q starts with the prefix of project p if and only if p is q |
| DashboardCache.KeysCoincide | backend/app/core/dashboard_cache.py:14-33 | two contexts share a key if and only if project, organisation (none read as 0), role and support flag agree and, for collectors and reviewers, the user |
| DashboardCache.ProgressCache.InvalidateProject | backend/app/core/dashboard_cache.py:47-49 | every key of the project goes, every key of another project stays |
| DashboardCache.ProgressCache.InvalidateProjects | backend/app/core/dashboard_cache.py:52-58 | the same for a collection of projects; an empty one changes nothing |
| DashboardCache.ClearsExactly | backend/app/core/dashboard_cache.py:47-58 | clearing one project or several invalidates exactly the dashboards of these projects |
| DashboardCache.DashboardShowsChanges | backend/app/core/dashboard_cache.py:36-58 | after projects are cleared, one or several at once, no dashboard call of one of them returns progress computed from older data |
| SlidingWindow.PopExpired | backend/app/policies/ai_gate.py:291-292 | the eviction loop leaves what the specification of eviction leaves |
| SlidingWindow.TracksAfterEviction | backend/app/policies/ai_gate.py:288-302 | popping expired entries loses nothing that a later question can see |
| SlidingWindow.EvictedNumber | backend/app/policies/ai_gate.py:289-312 | of a chronological history, eviction leaves exactly what happened at or after the cutoff, whichever events are counted |
| SlidingWindow.WindowOneMore | backend/app/policies/ai_gate.py:289-318 | an event that falls into a window finds, looking back the window's width, no fewer events than the window held: why no window exceeds its limit |
| AiRateGate.AIRateGate.Check | backend/app/policies/ai_gate.py:275-321 | the verdict is the one full-history counting gives, in the order of the checks; accepted calls and only they enter the history |
| AiRateGate.AIRateGate.BanUser | backend/app/policies/ai_gate.py:323-327 | the ban is recorded for sixty minutes from now and replaces an earlier one |
| AiRateGate.TimesCounted | backend/app/policies/ai_gate.py:289-303 | the size of the evicted bucket is the number of accepted calls in the closed window |
| AiRateGate.AskedCounted | backend/app/policies/ai_gate.py:307-312 | the matching entries of the evicted question bucket are the accepted calls with that question in the closed hour |
| AiRateGate.MinuteBound | backend/app/policies/ai_gate.py:255-296 | no closed minute of a run holds more accepted calls of a user than the user's roles in it allow |
| AiRateGate.HourBound | backend/app/policies/ai_gate.py:298-304 | the same for every closed hour |
| AiRateGate.IdenticalBound | backend/app/policies/ai_gate.py:263-318 | no closed hour holds more than ten accepted calls of a user with one normalised question |
| AiRateGate.BanHolds | backend/app/policies/ai_gate.py:279-286 | after a ban no call of the user is accepted for sixty minutes |
| AiRateGate.ReplayAdmissible | backend/app/policies/ai_gate.py:275-327 | any calls, users, roles and bans under a clock that does not go back produce a history to which these bounds apply |
| AiGateRules.PassesIff | backend/app/policies/ai_gate.py:254-321 | a call passes if and only if the user was not banned in the last hour, has made fewer calls in the last minute and hour than the role may (5 and 30 for collectors, and so on), and has asked the question fewer than ten times in the last hour |
| AiGateRules.RefusalsIff | backend/app/policies/ai_gate.py:279-318 | which refusal is given: the first of the four that applies |
| AiGateRules.MinutesLeft | backend/app/policies/ai_gate.py:281-286 | a banned user is told the whole minutes left of the latest ban |
| AiGateRules.BanIsLifted | backend/app/policies/ai_gate.py:279-321 | an hour after the last ban, a user with no call in the last hour is let through |
| AiGateRules.CountsMean | backend/app/policies/ai_gate.py:288-312 | what is compared with the limits is the number of such calls in the log, counted one by one |
| RateLimit.RateLimitMiddleware.Dispatch | backend/app/core/rate_limit.py:34-67 | exempt paths pass untouched; another request is admitted exactly when fewer than `limit` were admitted for its identity in the closed last minute, and only admitted ones are recorded |
| RateLimit.MinuteBound | backend/app/core/rate_limit.py:48-67 | no closed minute holds more than `limit` admitted requests of one identity |
| RateLimit.BucketEvicted | backend/app/core/rate_limit.py:51-55 | the evicted bucket counts the admitted requests of the closed window, and stands for them later on |
| RateLimit.IdentitySeparates | backend/app/core/rate_limit.py:43-46 | users have a bucket each and share none with an address |
| RateLimit.AddressesSeparate | backend/app/core/rate_limit.py:43-46 | requests without a user share a bucket just when they come from one address |
| RateLimit.CountMeans | backend/app/core/rate_limit.py:48-56 | what is compared with the limit is the number of hits in the last minute, counted one by one |
| CatalogClone.Catalog.CopyRequirementItems | backend/scripts/split_gri_leaf_standards.py:229-371 | every current source item gets an image, equal keys and only they share one; with distinct keys the result is the clone, refused exactly on a clash |
| CatalogClone.Catalog.CopyItems | backend/scripts/split_gri_leaf_standards.py:236-299 | items are matched by key, created or brought up to date |
| CatalogClone.Catalog.LinkParents | backend/scripts/split_gri_leaf_standards.py:301-307 | each image's parent becomes the image of the source's parent, or none; of sources that share an image the last one decides; nothing else changes |
| CatalogClone.Catalog.CopyMappings | backend/scripts/split_gri_leaf_standards.py:313-342 | every current mapping has an image and only missing ones are added; fails exactly when the unique index refuses one |
| CatalogClone.Catalog.CopyDependencies | backend/scripts/split_gri_leaf_standards.py:344-371 | every dependency inside the source has an image and only missing ones are added |
| CatalogClone.CloneAgainIsIdentity | backend/scripts/split_gri_leaf_standards.py:229-371 | with distinct keys on both sides a second copy finds the same map, changes no row and creates none |
| CatalogClone.SecondCopyNotRefused | backend/scripts/split_gri_leaf_standards.py:313-342 | after a copy nothing clashes any more |
| CatalogClone.KeysStayDistinct | backend/scripts/split_gri_leaf_standards.py:30-33 | the copy keeps item keys distinct on both sides |
| CatalogClone.CopyExists | backend/scripts/split_gri_leaf_standards.py:321-342 | every current mapping of a copied item has its counterpart at the image |
| CatalogClone.RefusedIffClashes | backend/scripts/split_gri_leaf_standards.py:330-341 | the unique index refuses the copy exactly when source and target clash, a condition on the tables before the call |
| CatalogClone.ClashHappens | backend/scripts/split_gri_leaf_standards.py:321-342 | tables that satisfy every constraint, with distinct keys on both sides, for which the copy is refused |
| CatalogRules.KeysMeetIff | backend/scripts/split_gri_leaf_standards.py:30-33 | keys are equal if and only if the codes are, or without codes sort order and name are, or a code spells "name::", sort order and name of an item without one |
| CatalogRules.KeysDistinctIff | backend/scripts/split_gri_leaf_standards.py:30-33 | keys are distinct if and only if no two current items are alike in this way |
| CatalogRules.ImagesMeetIff | backend/scripts/split_gri_leaf_standards.py:236-299 | two sources get one image if and only if they are alike |
| CatalogRules.ItemFollows | backend/scripts/split_gri_leaf_standards.py:236-307 | a source like no other goes to the current target item like it, or to a new row; that row gets its code, name, sort order and details, keeps its own catalog key, and is the only current target item like it |
| CatalogRules.CodedItemFollows | backend/scripts/split_gri_leaf_standards.py:236-307 | the same for a code that stands once on either side: the one target item with it repeats the source |
| CatalogRules.ParentsFollow | backend/scripts/split_gri_leaf_standards.py:301-307 | a copy's parent is the copy of the source's parent, and none if that was not copied |
| CatalogRules.MappingsFollow | backend/scripts/split_gri_leaf_standards.py:313-342 | every current mapping of a copied item has a counterpart of the same element and version, and a mapping is added, column by column, only where there was none |
| CatalogRules.DependenciesFollow | backend/scripts/split_gri_leaf_standards.py:344-371 | the same for dependencies between copied items |
| CatalogRules.ClashesIff | backend/scripts/split_gri_leaf_standards.py:330-341 | the copy clashes if and only if alike items have current mappings to one element and the target item has none of the version of the source |
| SectionClone.SectionCloner.EnsureSection | backend/scripts/split_gri_leaf_standards.py:127-173 | some matching section, if there is one, is reused and brought up to date, else a new one is made |
| SectionClone.SectionCloner.Visit | backend/scripts/split_gri_leaf_standards.py:400-407 | one call is one step of the run: the row that the look-up finds, or a new one, takes the section's content and becomes its image |
| SectionClone.SectionCloner.CloneSectionBranch | backend/scripts/split_gri_leaf_standards.py:394-430 | ends on every table, makes the steps of the branch once, in call order, each at its parent's image, and moves no other image |
| SectionClone.SectionCloner.SplitSections | backend/scripts/split_gri_leaf_standards.py:432-440 | the whole run gives an image to exactly the sections connected to a root, in the root's standard under the parent's image, and changes no other row; into standards without rows it is one-to-one exactly when nothing merges, and then every image carries its section's code, title and order |
| SectionClone.RunPlacesAll | backend/scripts/split_gri_leaf_standards.py:394-440 | of every run, whatever rows the look-ups pick: which sections have images, where, and which rows are as before |
| SectionClone.OneToOneIffNoMerge | backend/scripts/split_gri_leaf_standards.py:135-145 | into standards without rows, no two sections share a row if and only if no section's look-up fits a sibling loaded before it |
| SectionRules.VisitRule | backend/scripts/split_gri_leaf_standards.py:127-173 | one visit overwrites some row in the place of the section that has its code or, if it has none, its title, else makes a new row; the row then says what the section says, column by column, and no other changes |
| SectionRules.LandsOnIff | backend/scripts/split_gri_leaf_standards.py:135-145 | a section lands on the row of a sibling visited before it if and only if it has that one's non-empty code, or no code and its title, no other sibling being so like it |
| SectionRules.SharedRowsIff | backend/scripts/split_gri_leaf_standards.py:127-173 | into standards without rows: one-to-one if and only if no section is so like a sibling loaded before it, and then a second run is sure to repeat if and only if none is so like any sibling |
| SectionRules.CodedSectionsKeepTheirRows | backend/scripts/split_gri_leaf_standards.py:127-173 | siblings with different non-empty codes: every section has a row of its own with its code, title and order below its parent's, and every second run repeats |
| SectionRerun.SecondRunIff | backend/scripts/split_gri_leaf_standards.py:127-173 | when the first run merged nothing, every second run ends in the same tables and images if and only if no section's look-up fits another sibling |
| SectionRerun.TwinsGoAstray | backend/scripts/split_gri_leaf_standards.py:135-145 | else some second run sends a section to the row of its sibling |
| SectionExamples.CodeErased | backend/scripts/split_gri_leaf_standards.py:138-164 | a coded section followed by one without a code and of the same title: one row is left, without the code |
| SectionExamples.SecondRunAfterMerge | backend/scripts/split_gri_leaf_standards.py:127-173 | when the two children of a root were merged, every second run ends as the first did if the earlier fits the later one's content, and none does otherwise |
| SectionExamples.ErasedNeverRepeats | backend/scripts/split_gri_leaf_standards.py:135-173 | after a code was erased, no second run repeats the first |
| SectionExamples.NamesakesRepeat | backend/scripts/split_gri_leaf_standards.py:138-164 | two sections without a code and of one title share a row, and every second run repeats |
| SectionExamples.SecondRunCanDiffer | backend/scripts/split_gri_leaf_standards.py:138-145 | the same two sections in the other order: nothing merges, and a second run may go astray |
| SectionForest.TreesApart | backend/scripts/split_gri_leaf_standards.py:424-440 | no section is in the trees of two roots |
| SectionForest.PathUnique | backend/scripts/split_gri_leaf_standards.py:385-387 | a section has at most one path from a root |
| SectionForest.PathDistinct | backend/scripts/split_gri_leaf_standards.py:385-387 | no path from a root repeats a section, so none is longer than the table: the termination argument |
| SectionForest.EverySectionOnce | backend/scripts/split_gri_leaf_standards.py:424-440 | the visited sections are those with a chain of parents up to a root, without repetition |
| SectionForest.SiblingsInOrder | backend/scripts/split_gri_leaf_standards.py:424-430 | sections with one parent are visited in the order in which they were loaded |
| SectionForest.ParentFirst | backend/scripts/split_gri_leaf_standards.py:400-430 | a parent is visited before its children |
| SectionForest.CyclesUnreached | backend/scripts/split_gri_leaf_standards.py:385-440 | sections on or below a cycle of parents are never reached |
| SectionForest.DanglingUnreached | backend/scripts/split_gri_leaf_standards.py:385-440 | sections below a parent that is not in the table are never reached |
| SectionForest.UnreachedIff | backend/scripts/split_gri_leaf_standards.py:385-440 | no other section of the table is left out |
| CatalogImport.Catalog.UpsertDisclosure | backend/scripts/import_gri_docx.py:399-449 | the row with the disclosure's code is rewritten, or made; its id is returned |
| CatalogImport.Catalog.UpsertRequirementItem | backend/scripts/import_gri_docx.py:452-505 | the current item with the code is rewritten, or made; it then holds the data point |
| CatalogImport.Catalog.UpsertSharedElement | backend/scripts/import_gri_docx.py:508-554 | the element with the normalised code is rewritten from the item, or made with its key; refused exactly when it is not there and another element has that key; an item without a code lends its id |
| CatalogImport.Catalog.EnsureMapping | backend/scripts/import_gri_docx.py:557-583 | a full mapping of version 1 is added only if no current one exists; refused exactly when the pair has a version 1 but no current mapping |
| CatalogImport.Catalog.DeactivateStaleRequirementItems | backend/scripts/import_gri_docx.py:586-619 | exactly the current items of the disclosure with unlisted codes are retired, and with them their current mappings |
| CatalogImport.Catalog.ImportDocx | backend/scripts/import_gri_docx.py:622-646 | the loops compute the specified database, unless an element or a mapping is refused, and then say so; an accepted import keeps all constraints |
| CatalogImport.ImportKeepsConsistent | backend/scripts/import_gri_docx.py:508-646 | an import that is not refused keeps one current row per key, unique element keys, unique mapping versions, the references, and "a current mapping belongs to a current item" |
| ImportRules.DisclosureImported | backend/scripts/import_gri_docx.py:399-449 | after an import the last disclosure with a code is the one row with it, column by column as parsed |
| ImportRules.ItemImported | backend/scripts/import_gri_docx.py:452-505 | a listed data point is the one current item with its code below that row: name and description are its text, types and unit its own, sort order its place counted from 1 |
| ImportRules.ElementImported | backend/scripts/import_gri_docx.py:508-583 | its shared element has that name, description, value type and unit and the section's domain, and a current mapping joins the two |
| ImportRules.OnlyListedCurrent | backend/scripts/import_gri_docx.py:586-619 | every current item of a listed disclosure is one of its data points |
| ImportRules.DistinctDocumentImported | backend/scripts/import_gri_docx.py:622-646 | when no code is listed twice, every disclosure and data point is in the catalog as parsed |
| ImportRules.ImportKeeps | backend/scripts/import_gri_docx.py:399-646 | old rows keep their keys and other columns; new items are required, without parent and evidence, new elements belong to the internal catalog under their normalised key, new mappings are full first versions |
| ImportRules.ConstraintsHold | backend/scripts/import_gri_docx.py:622-646 | an accepted import leaves one row per code, one current mapping per pair, and none of an item that is not current |
| CatalogImport.BlockedMeans | backend/app/db/models/mapping.py:31-45 | when a new first version is refused: one is there and none of the pair is current |
| CatalogImport.KeyTakenMeans | backend/app/db/models/shared_element.py:23 | when a new element is refused: its code is not there, its normalised key is |
| ImportTheorems.ReconcilesIff | backend/scripts/import_gri_docx.py:622-646 | every parsed disclosure's current items are exactly those it lists, if and only if disclosures with one code list the same codes |
| ImportTheorems.RepeatsIff | backend/scripts/import_gri_docx.py:452-646 | a second import of the document leaves every table identical under exactly the same condition, shared element codes notwithstanding |
| ImportTheorems.OneDisclosurePerCode | backend/scripts/import_gri_docx.py:315-325 | documents with one disclosure per code always reconcile and repeat |
| ImportRefusal.RefusedIff | backend/scripts/import_gri_docx.py:508-582 | the import is refused if and only if, before it begins, the first disclosure with some code lists an item whose pair has a version 1 but no current mapping, or some listed item's shared element is not there while another one has its key |
| ImportElements.TakenBefore | backend/app/db/models/shared_element.py:23 | what an import adds never takes a key away from a listed item: a key is taken during the import only if it was taken before |
| CatalogKeys.SlugKeysDiffer | backend/app/domain/catalog.py:6-22 | the elements of different slugs have different keys |
| CatalogKeys.SlugOfIsSlug | backend/scripts/import_gri_docx.py:508-510 | the expression makes nothing but upper-case words joined by single dashes, or nothing at all |
| CatalogKeys.SmallLettersSameKey | backend/app/domain/catalog.py:9-22 | a code in small letters is another code with the same key |
| ImportRefusal.KeyTakenHappens | backend/app/db/models/shared_element.py:23 | a database that satisfies every constraint, in which an element was entered in small letters, and a document that it refuses |
| ImportRefusal.SecondNotRefused | backend/scripts/import_gri_docx.py:557-583 | a document that was imported is not refused when imported again, whatever conflicts it has |
| ImportRefusal.RefusalHappens | backend/scripts/import_gri_docx.py:563-582 | a database that satisfies every constraint, and a document that it refuses |
| ImportRefusal.NewVersionAccepted | backend/app/services/mapping_service.py:36-53 | with a retired version 1 and a current version 2, and items without a code beside, the import goes through and repeats |
| ImportRefusal.ConflictHappens | backend/scripts/import_gri_docx.py:622-646 | a document that lists one code twice, differently: on every database it neither reconciles nor repeats |
| ImportTheorems.ImportOneLives | backend/scripts/import_gri_docx.py:633-644 | one disclosure's import makes its own row list its codes and leaves what other rows list |
| ImportTheorems.LatestDecides | backend/scripts/import_gri_docx.py:633-644 | of disclosures with one code the last imported decides |
| KeyedTable.Lookup | backend/scripts/import_gri_docx.py:406-413 | the query for at most one matching row |
| KeyedTable.UpsertedFinds | backend/scripts/import_gri_docx.py:459-505 | after an upsert the key is found with the new body and every other row is as before |
| KeyedTable.ShadowsMeet | backend/scripts/import_gri_docx.py:433-448 | tables that hold the same writes and agree elsewhere are equal: why rewriting is idempotent |
| ClauseForest.FlattenInjective | backend/scripts/import_sasb_pdf.py:214-221 | a forest is determined by its preorder listing with depths |
| ClauseForest.ForestOfListing | backend/scripts/import_sasb_pdf.py:195-202 | every listing whose depth grows by one at most has its forest |
| SasbClauses.ClauseLineMatches | backend/scripts/import_sasb_pdf.py:53-53 | a label and a text with a space between them are recognised as what they are |
| SasbClauses.ClauseLineIff | backend/scripts/import_sasb_pdf.py:53-53 | a line opens a clause if and only if it is a label, at least one space and a text |
| SasbClauses.LabelIff | backend/scripts/import_sasb_pdf.py:53-53 | a label is a number, or a number, a dot and a label |
| SasbClauses.DepthsAdd | backend/scripts/import_sasb_pdf.py:174-175 | a label of one part is at depth 1, labels joined by a dot lie as deep as both together |
| ReadingOrder.SasbTextInOrder | backend/scripts/import_sasb_pdf.py:183-209 | a clause has the text of its own line and of the plain lines up to the next clause line, in reading order |
| ReadingOrder.SasbPreface | backend/scripts/import_sasb_pdf.py:183-211 | the preface is made of the plain lines before the first clause |
| SasbClauses.ParseNumberedClauses | backend/scripts/import_sasb_pdf.py:178-211 | one node per clause, in input order, linked as the tree depths say; the roots form the forest of the clauses that the lines spell out, text gathered from continuation lines; the preface is what came before |
| SasbClauses.OpenClause | backend/scripts/import_sasb_pdf.py:193-203 | popping, attaching and pushing adds exactly one node, under its parent, and leaves all others |
| SasbClauses.ContinueClause | backend/scripts/import_sasb_pdf.py:206-209 | a continuation line changes the text of the last opened clause only |
| SasbClauses.ForestIsFaithful | backend/scripts/import_sasb_pdf.py:191-204 | the parsed forest, and no other, lists the clauses in input order at their tree depths |
| SasbClauses.TreeDepthsLegal | backend/scripts/import_sasb_pdf.py:174-202 | every node's tree depth is at most its label's depth, and depths grow one at a time |
| SasbClauses.DeepestLegal | backend/scripts/import_sasb_pdf.py:191-202 | no other depths that grow one at a time and respect the labels are deeper anywhere |
| SasbClauses.AsLabelledIff | backend/scripts/import_sasb_pdf.py:174-202 | all clauses land at their labels' depths if and only if no label skips a level |
| SasbClauses.SpineHolds | backend/scripts/import_sasb_pdf.py:196-202 | the stack is as high as the last depth and holds, per level, the last clause of that level |
| SasbRendering.LabelsInOrder | backend/scripts/import_sasb_pdf.py:184-211 | preorder goes through the labels of the clause lines in input order |
| SasbRendering.DepthsMatchLabelsIff | backend/scripts/import_sasb_pdf.py:174-211 | the parsed forest is depth-consistent if and only if no label skips a level |
| SasbRendering.RenderRoundTripIff | backend/scripts/import_sasb_pdf.py:178-221 | a forest, written as one "label text" line per node and parsed again, comes back unchanged if and only if its depths are the tree depths of its labels |
| SasbRendering.ParsedComesBack | backend/scripts/import_sasb_pdf.py:178-221 | every parsed forest does, also one whose labels skip levels |
| SasbRendering.RenderRoundTrip | backend/scripts/import_sasb_pdf.py:174-221 | so does every forest that is as deep as its labels say |
| SasbRendering.ClausesToMarkdown | backend/scripts/import_sasb_pdf.py:214-221 | the list is the preorder listing, each line indented by its depth |
| SasbRendering.MarkdownDetermines | backend/scripts/import_sasb_pdf.py:214-221 | two forests with the same markdown list are equal |
| GriClauses.NeverThreeLevels | backend/scripts/import_gri_2_pdf.py:185-204 | no input makes a third level, and every code is the parent's code with the own label |
| GriClauses.TopOpenIff | backend/scripts/import_gri_2_pdf.py:185-204 | a lettered clause is open exactly when some earlier line reads as one |
| GriClauses.TagsInOrder | backend/scripts/import_gri_2_pdf.py:175-212 | preorder goes through the labels in input order, each line judged by whether a lettered clause came before |
| ReadingOrder.GriTextInOrder | backend/scripts/import_gri_2_pdf.py:175-212 | at either level a clause has the text of its own line and of the plain lines up to the next clause, in reading order |
| ReadingOrder.GriPreface | backend/scripts/import_gri_2_pdf.py:206-212 | the preface is made of the plain lines before the first clause |
| GriClauses.LetterLineIff | backend/scripts/import_gri_2_pdf.py:37-37 | a lettered clause line is a small letter, a dot, at least one space and a text |
| GriClauses.RomanLineIff | backend/scripts/import_gri_2_pdf.py:38-40 | the same with one of the ten numerals |
| GriClauses.ParentThenChild | backend/scripts/import_gri_2_pdf.py:215-220 | a leaf's text is the parent's without colons, semicolons and spaces at its end, a space, and the child's without leading space; only the child's if the parent says nothing else |
| GriClauses.TextsRight | backend/scripts/import_gri_2_pdf.py:223-233 | for clauses of any height every leaf comes out once, in order, with its text combined along its path |
| GriClauses.OwnCodesIff | backend/scripts/import_gri_2_pdf.py:223-233 | leaves come out under their own codes if and only if there is no third level |
| GriClauses.ThirdLevelMiscoded | backend/scripts/import_gri_2_pdf.py:223-233 | a clause with a third level whose leaf comes out under its parent's code |
| GriClauses.ParsedLeaves | backend/scripts/import_gri_2_pdf.py:165-233 | for every input: one leaf per childless clause, else one per child under the child's code with the combined text |
| GriParser.ParseRequirementClauses | backend/scripts/import_gri_2_pdf.py:165-212 | the nodes returned form what the lines spell out, and no node serves two clauses |
| GriParser.ParseLine | backend/scripts/import_gri_2_pdf.py:182-210 | one line, with the two cursors: a Roman child, a lettered clause, a continuation or preface |
| GriParser.ClauseLeaves | backend/scripts/import_gri_2_pdf.py:223-233 | the recursion over the nodes computes the specified leaves |
| GriRendering.RenderRoundTripIff | backend/scripts/import_gri_2_pdf.py:182-204 | clauses written out and parsed again come back unchanged if and only if no later letter can be read as Roman |
| GriRendering.RomanLetterLost | backend/scripts/import_gri_2_pdf.py:185-196 | clauses "a." and "i." written out: the second comes back below the first |
| GriRendering.CountTops | backend/scripts/import_gri_2_pdf.py:185-204 | how many lettered clauses survive the round trip otherwise |
| ClauseExpansion.ShorteningIsTerminating | backend/scripts/import_gri_2_pdf.py:493-510 | splitters whose parts are shorter than their input make the rounds end |
| ClauseExpansion.TrySplitters | backend/scripts/import_gri_2_pdf.py:499-507 | the first splitter that finds more than one part wins |
| ClauseExpansion.FirstSplitIff | backend/scripts/import_gri_2_pdf.py:499-507 | the first splitter in order that finds more than one part decides |
| ClauseExpansion.StripEndIff | backend/scripts/import_gri_2_pdf.py:236-237 | exactly the spaces, semicolons and dots at the end go |
| ClauseExpansion.PartsNumbered | backend/scripts/import_gri_2_pdf.py:493-510 | a clause whose parts split no further becomes these parts, numbered from 1 behind its code |
| ClauseExpansion.ExpandRound | backend/scripts/import_gri_2_pdf.py:494-510 | a round changes no leaf of the split trees and lowers the rank of what can still be split |
| ClauseExpansion.ExpandInRounds | backend/scripts/import_gri_2_pdf.py:482-510 | the rounds end with the leaves of the recursive split tree, in order |
| ClauseExpansion.LeavesApart | backend/scripts/import_gri_2_pdf.py:500-504 | leaf codes extend the clause's code, are pairwise distinct, and none is a dotted extension of another |
| ClauseExpansion.KeepFirst | backend/scripts/import_gri_2_pdf.py:512-519 | exactly the first candidates of each distinct normalised text are kept, in order |
| ClauseExpansion.EachTextOnce | backend/scripts/import_gri_2_pdf.py:512-519 | every text of the input is kept, and once |
| ClauseExpansion.ExpandLeafClause | backend/scripts/import_gri_2_pdf.py:481-521 | the whole expansion: never empty, codes apart and under the clause's code |
| ClauseExpansion.RankIrrelevant | backend/scripts/import_gri_2_pdf.py:493-510 | the result does not depend on the measure that shows termination |
| DatasheetRows.ParseRows | backend/scripts/import_bp_esg_datasheet_xlsx.py:311-358 | the rows that become metrics get the paths that groups in force and the backward scan give |
| DatasheetRows.TableRefinesScan | backend/scripts/import_bp_esg_datasheet_xlsx.py:344-348 | the search in the parent table finds what the backward scan over the rows finds |
| DatasheetRows.ScanMeaning | backend/scripts/import_bp_esg_datasheet_xlsx.py:311-358 | the scan finds the latest earlier row, since the last depth-0 header, with a smaller depth, and none if and only if there is none |
| DatasheetRows.NoDeeperKey | backend/scripts/import_bp_esg_datasheet_xlsx.py:323-329 | the table never holds a key deeper than the row just processed, and none after a depth-0 header |
| DatasheetRows.TableAfter | backend/scripts/import_bp_esg_datasheet_xlsx.py:323-358 | each kind of row keeps the table in step with the rows still open |
| DatasheetRows.FindParent | backend/scripts/import_bp_esg_datasheet_xlsx.py:344-348 | the upward search finds the deepest entry above the depth |
| DatasheetRows.HeaderRow | backend/scripts/import_bp_esg_datasheet_xlsx.py:312-330 | a header sets group, subgroup and table as specified |
| DatasheetRows.DataRow | backend/scripts/import_bp_esg_datasheet_xlsx.py:332-358 | a data row gets its path and updates group, subgroup and table as specified |
| DatasheetRows.DeeperPath | backend/scripts/import_bp_esg_datasheet_xlsx.py:343-353 | the path of a deeper row is section, group and subgroup, the label of the row it stands under unless that is empty or one of the groups, and its own label |
| DatasheetRows.TopPath | backend/scripts/import_bp_esg_datasheet_xlsx.py:335-342 | a row at depth 0 stands directly in its group, and is the group if none is set |
| DatasheetRows.MajorIsLabel | backend/scripts/import_bp_esg_datasheet_xlsx.py:311-334 | the group in force is the label of the row that set it, and every depth-0 header since then named a subgroup |
| DatasheetRows.NamesSubgroupIff | backend/scripts/import_bp_esg_datasheet_xlsx.py:313-318 | a depth-0 header names a subgroup if and only if a group is set, with another label, and the next data row is deeper |
| DatasheetRows.SubgroupIff | backend/scripts/import_bp_esg_datasheet_xlsx.py:316-337 | the subgroup in force is the label of the latest depth-0 row, if that is a header that names one |
| DatasheetRows.MetricsAreDataRows | backend/scripts/import_bp_esg_datasheet_xlsx.py:360-369 | the metrics are exactly the data rows with values, with their paths |
| DatasheetRows.MetricsInOrder | backend/scripts/import_bp_esg_datasheet_xlsx.py:311-369 | each once, in the order of the rows |
| MetricCodes.Disambiguate | backend/scripts/import_bp_esg_datasheet_xlsx.py:423-446 | every metric comes out exactly once, under its own code if that is unique, else with its row number |
| MetricCodes.LoneIff | backend/scripts/import_bp_esg_datasheet_xlsx.py:423-431 | a group has one member exactly when no other metric has the code |
| MetricCodes.DistinctIff | backend/scripts/import_bp_esg_datasheet_xlsx.py:427-446 | the final codes are pairwise distinct if and only if metrics with one code differ in row and no lone code equals a suffixed one |
| MetricCodes.SuffixInjective | backend/scripts/import_bp_esg_datasheet_xlsx.py:444-446 | a suffixed code hides neither the code nor the row |
| MetricCodes.SuffixCanCollide | backend/scripts/import_bp_esg_datasheet_xlsx.py:444-446 | three metrics, as rows labelled "Total", "Total" and "Total R5" give them, for which the disambiguated codes are not distinct |
| AlphaToken.Token | backend/scripts/import_gri_sectoral_docx.py:316-323 | the loop's token decodes to the index; zero and negative indices give the empty token |
| AlphaToken.TokenOfExactlyOne | backend/scripts/import_gri_sectoral_docx.py:316-323 | every non-empty lower-case word is the token of exactly one number, which is at least 1 |
| AlphaToken.DecodeEncode | backend/scripts/import_gri_sectoral_docx.py:316-323 | decoding a token gives its number back |
| AlphaToken.TokenOrder | backend/scripts/import_gri_sectoral_docx.py:316-323 | n is smaller than m if and only if the token of n comes first in length-then-alphabetical order |
| SectionCodes.UsedCodes.TopicSectionCode | backend/scripts/import_sasb_pdf.py:253-276 | the code is new, is the first free candidate in the source's order, and is found after fewer increments than there are used codes |
| SectionCodes.UsedCodes.CodesFor | backend/scripts/import_sasb_pdf.py:253-276 | any titles sharing one set of used codes get pairwise distinct codes |
| SectionCodes.UsedNumbersFit | backend/scripts/import_sasb_pdf.py:271-273 | the pigeonhole: used numbers behind a used base are fewer than the used codes |
| SectionCodes.ChoiceUnique | backend/scripts/import_sasb_pdf.py:254-276 | title and used codes determine the code, and it is not used |
| SectionCodes.WordsMean | backend/scripts/import_sasb_pdf.py:254-258 | a title is read word by word, whatever separates the runs of letters and digits |
| SectionCodes.AirQuality | backend/scripts/import_sasb_pdf.py:259-276 | for one topic, the three kinds of codes in order: EM-AQ, EM-AIR-QUALITY, EM-AIR-QUALITY-2 and so on |
| RoleBindings.DuplicateIds | backend/alembic/versions/20260325_04_role_binding_scope_uniqueness.py:88-102 | exactly the rows that are not the best of their group are listed, each once |
| RoleBindings.Deduplicate | backend/alembic/versions/20260325_04_role_binding_scope_uniqueness.py:88-107 | exactly the best rows survive: least priority, ties to the earliest in the query's order |
| RoleBindings.OnePerGroup | backend/alembic/versions/20260325_04_role_binding_scope_uniqueness.py:88-107 | one row per user, scope type and scope id survives, for every group there was |
| RoleBindings.SecondPass | backend/alembic/versions/20260325_04_role_binding_scope_uniqueness.py:88-107 | a second pass deletes nothing |
| RoleBindings.SurvivesIff | backend/alembic/versions/20260325_04_role_binding_scope_uniqueness.py:16-107 | a row survives if and only if none of its user and scope has a role above its own in the order platform_admin, admin, esg_manager, reviewer, collector, auditor, and none before it has a role that its own is not above |
| DimensionDedup.NormalizeTwice | backend/alembic/versions/20260418_02_data_point_dimension_and_mapping_invariants.py:44-48 | normalising a dimension type again changes nothing |
| DimensionDedup.DeduplicateDimensions | backend/alembic/versions/20260418_02_data_point_dimension_and_mapping_invariants.py:51-90 | of each data point and normalised type the newest id is left, with its type normalised |
| DimensionDedup.NewestIff | backend/alembic/versions/20260418_02_data_point_dimension_and_mapping_invariants.py:60-79 | in the query's order a row is the newest exactly when its key was not seen before |
| DimensionDedup.CleanedIsUnique | backend/alembic/versions/20260418_02_data_point_dimension_and_mapping_invariants.py:51-90 | the constraint to be created holds: no two rows with the same data point and type |
| DimensionDedup.KeyKept | backend/alembic/versions/20260418_02_data_point_dimension_and_mapping_invariants.py:71-90 | no key is lost |
| DimensionDedup.CleanedTwice | backend/alembic/versions/20260418_02_data_point_dimension_and_mapping_invariants.py:51-90 | the pass run again changes nothing |
| DimensionDedup.StaysIff | backend/alembic/versions/20260418_02_data_point_dimension_and_mapping_invariants.py:44-90 | a dimension stays if and only if no newer one of its data point has the same folded type, the two names of gas types being one; it then has that type |
| MappingDedup.DeduplicateCurrentMappings | backend/alembic/versions/20260418_02_data_point_dimension_and_mapping_invariants.py:93-136 | of the current mappings of a pair the one with the largest version, then id, stays; all others are retired as of today, and nothing else changes |
| MappingDedup.OneCurrentPerPair | backend/alembic/versions/20260418_02_data_point_dimension_and_mapping_invariants.py:93-136 | the partial unique index to be created holds: two current mappings of one pair are one, the best of the start |
| MappingDedup.PairKept | backend/alembic/versions/20260418_02_data_point_dimension_and_mapping_invariants.py:122-129 | every pair that had a current mapping still has one |
| MappingDedup.SettledTwice | backend/alembic/versions/20260418_02_data_point_dimension_and_mapping_invariants.py:93-136 | the pass run again, on whatever day, changes nothing |
| MappingDedup.CurrentAfterIff | backend/alembic/versions/20260418_02_data_point_dimension_and_mapping_invariants.py:93-136 | a mapping is current afterwards if and only if it was and no other current one of its item and element has a larger version, or the same and a larger id; retired ones get today as last day |
| SqlText.QuotedReadsBackIff | backend/scripts/dump_postgres_snapshot.py:23-28 | reading a quoted text gives it back and stops at its end, if and only if no further quote follows |
| SqlText.IdentReadsBack | backend/scripts/dump_postgres_snapshot.py:23-24 | so for a quoted identifier |
| SqlText.QuotedInjective | backend/scripts/dump_postgres_snapshot.py:23-28 | quoting loses nothing, also in the middle of more text |
| SqlText.FormatArray | backend/scripts/dump_postgres_snapshot.py:31-48 | the recursive loop with its list of parts writes the specified literal |
| SqlText.ArrayReadsBack | backend/scripts/dump_postgres_snapshot.py:31-48 | lists of null, booleans, integers, strings and such lists, nested arbitrarily, are read back from their literals, whatever follows |
| SqlText.ValueReadsBack | backend/scripts/dump_postgres_snapshot.py:33-47 | so is every single value that is followed by neither a digit nor a quote |
| Decimal.NatRoundTrip | backend/scripts/import_sasb_pdf.py:272-274 | the number printed into a code can be read back |
| Decimal.IntInjective | backend/app/core/dashboard_cache.py:22-33 | different ids print differently |

## Left out

- Regular expressions, PDF, DOCX and XLSX extraction, Unicode clean-up and case folding: cleaned lines, the page-noise
  tests, `normalize_text`, `strip().lower()` and the slug of item codes are parameters, the slug being any function into words of ASCII capitals
  and digits joined by single dashes. Clause lines are recognised over ASCII digits, letters and spaces.
- SQL execution, sessions, flushes and transactions: rows in maps; a copy that the database refuses leaves the tables to
  the caller's rollback, and what the rollback restores is not modelled.
- Counters of created and updated rows (`stats`), standards, sections and disclosures of the clone and import scripts
  beyond what the listed rows say.
- CacheProtocol.Coherence: a factory that calls the cache it is run by, which waits for its own lock for ever, is not
  modelled; everything else a factory can do (finish, with or without reading data, fail, be cancelled, take any time) is.
- CacheProtocol.InvalidationPublishesChanges: values written with `set` are excluded, since a caller may write old data.
- RuntimeCache.TTLCache.GetOrSet: one caller's uninterrupted run, with the clock read three times; interleavings are the
  business of `CacheProtocol`.
- AiRateGate.AIRateGate.Check: the text of the error messages; ticks are microseconds.
- RateLimit.RateLimitMiddleware.Dispatch: response headers and the response itself.
- CatalogClone.Catalog.CopyRequirementItems: rows are visited in any order, since the result does not depend on the
  query's order when keys are distinct; with equal keys it does not say whose content the merged row ends with.
- CatalogClone.Catalog.LinkParents: when sources are targets as well (a disclosure copied onto itself with equal keys), it
  only says that nothing but parents of targets changes.
- CatalogImport.Catalog.UpsertSharedElement: the defaults for a new element's owner fields beyond the layer.
- CatalogImport.Catalog.ImportDocx: creating the standard and the section, whose ids are given; two current rows with one
  key, for which the source's query raises an error (two current items without a code are no such rows).
- SasbRendering.ClausesToMarkdown: works on the forest as a value; the nodes of a parse stand for one.
- SectionClone.SectionCloner.SplitSections: the disclosures of each visited section, whose items `CatalogClone` copies; and a
  root that bears the umbrella standard's own code, whose target would be the standard being read.
- SectionClone.OneToOneIffNoMerge: target standards that already have rows of other making.
- SectionRerun.SecondRunIff: a second run after a first one that merged sections; `SectionExamples.SecondRunAfterMerge`
  gives the condition for a root with two children, not for every table.
- The whole split run as one operation: sections (`SectionClone`), disclosures and their items (`CatalogClone`) are
  modelled apart, so that a second whole run changes nothing is proved of each part and not of their composition.
- SqlText.FormatArray: floats, decimals, dates, UUIDs, dictionaries and bytes among the elements of a list.
- `clause_leaves` and `serialize_clause` of the SASB script: the former is the same recursion as in the GRI script.
- ClauseExpansion.ExpandLeafClause: the concrete splitters are arbitrary functions; the real ones may lengthen a text, so
  the rounds are proved to end for any rank that splitting lowers, length being one.
- DatasheetRows.ParseRows: one sheet; values, units, footnotes, conflicts and the table of sections are not modelled, nor
  is how a row comes by its depth.
- MetricCodes.Disambiguate: the warning about duplicates and the final sort by section and row.
- RoleBindings.Deduplicate: the query's sort by creation time; the rows are taken in the order it gives.
- DimensionDedup.DeduplicateDimensions: checking for tables and creating the constraint.
- SqlText.QuotedReadsBackIff: PostgreSQL joins two string constants separated by white space with a line break; the reader does not.
- Floats, decimals, dates, UUIDs, dictionaries and bytes in SQL literals.
- Workflow states, assignment SLAs, role checks, the support-mode store, authentication, exports, metrics, storage, LLM
  clients and the frontend: finite tables, single branches or code whose meaning lies in other systems.
