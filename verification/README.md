# Verified model of the iQoQo server's stateful core

This project models the parts of iQoQo that change state in several steps, and proves what those
steps keep. Each component follows the source file named in the table below: pure code as functions,
loops as methods with invariants proved against a specification function, records that are updated in
place as class fields. `dafny verify dfyconfig.toml` checks everything.

| Component | Files |
|---|---|
| Token revocation: a cache in front of a block list, checks and logouts interleaving | `TokenRevocation.dfy` |
| FRBR reconciliation: ISBN arithmetic, four-phase merge, independent auditor | `Isbn.dfy`, `Clusters.dfy`, `Catalogue.dfy`, `Relocation.dfy`, `EtlRun.dfy`, `Reconciliation.dfy`, `Auditor.dfy`, `EtlGuarantees.dfy`, `EtlIdempotence.dfy`, `EtlNames.dfy`, `EtlRows.dfy`, `EtlCounterexamples.dfy` |
| SQL dump conversion: scanners, statement grouping, spool and regroup | `SqlScanner.dfy`, `SqlConverter.dfy`, `SqlStreaming.dfy`, `DumpAgreement.dfy`, `DumpColumns.dfy` |
| Collection forest: ancestor query, create, move, delete | `Ancestry.dfy`, `CollectionForest.dfy`, `CollectionChains.dfy` |
| Deployment mirror with manifest and verification | `DeploySync.dfy` |
| OAuth exchange codes | `ExchangeCodes.dfy`, `ExchangeHistory.dfy` |
| Format rewriting, cover backfill, RUM provisioning, nginx example, env files | `FormatMappings.dfy`, `CoverBackfill.dfy`, `RumProvisioning.dfy`, `NginxExample.dfy`, `EnvFile.dfy`, `EnvUpdate.dfy`, `EnvText.dfy`, `EnvSecrets.dfy`, `EnvStrength.dfy` |
| Text helpers shared by several | `Support.dfy`, `TextLines.dfy` |

## What the proofs show beyond the code's own comments

* **Token revocation.** The cache timeout is `int(exp - now)`, which truncates. On a clock with
  fractions a stale negative answer can therefore enter the cache after a logout's entry has run out
  and before the token does. `GuaranteeExact` proves that a published logout is respected by every
  later check in every interleaving exactly for lookups up to `exp - 1`; `WholeSecondsLogoutHolds`
  proves the full lifetime for a clock that only shows whole seconds. "Expired" follows the `exp`
  claim of section 4.1.4 of RFC 7519, "token" the `jti` claim of section 4.1.7.
* **Reconciliation is not idempotent on all data.** A leader without authors takes over a duplicate's
  `authors`, and with a name that contains "|" it can so arrive at another cluster's key; an ISBN key
  that holds only white space hides a work's other ISBN keys from relocation, and merging can bring
  one of them up. `SecondRunIdleIff`, `AuditorAcceptsWorksIff` and `NoWorkLevelIsbnIff` say, of the
  works before the run, exactly when a second run is idle and when the auditor accepts the works.
  `DisagreementBreaksIdempotence` and `BlankIsbnBreaksIdempotence` show works that need a second run.
  Names without "|" (`PipeFreeAgree`) and ISBN values that are not blank are enough.
* **The two dump parsers cut lines differently.** The in-memory parser uses `splitlines`, the streaming
  converter iterates a file, which ends lines at newlines only. `LinesAgreeIff` proves that the lines
  are the same exactly when newlines are the only line boundaries of the text; then all records agree
  (`ParsersAgree`). A form feed or U+2028 inside a string makes them differ (`CutAddressDiffers`, and
  `FormFeedDiffers` for one statement): the in-memory parser puts a space in its place.
* **Collections.** The guard of a move looks only at rows of the requesting owner. It is exact on
  data whose parent links stay within one owner, which every run from an empty table keeps;
  `CrossOwnerMoveClosesCycle` shows stored data on which an accepted move closes a cycle.
* **Format mappings.** Nothing stops a mapping key from being a canonical format. `SimultaneousIff`,
  `TotalExactIff` and `SecondApplyIff` say exactly, for every mappings file, when one-at-a-time updates
  act as one substitution, when the reported total is the number of rows changed, and when a second
  apply is idle (a chain such as a to b, b to c does not reopen anything; b to c, a to b does). (The file's comment suggests an unquoted `null:` key; YAML reads that as a null and not as
  the text "null", so the script never finds it. The model takes keys as text.)
* **Env files.** The writer escapes for the shell, the reader only strips quotes. `ShellReadsEscaped`
  proves that sourcing the file returns every value; `FileRoundTripIff` that the script's own parser
  returns exactly the values without backslash, double quote, dollar, backtick or line break and
  without a quote at either end. The reader knows `export KEY` by another name than the writer: a good
  value that is only spelled with `export` is replaced by a fresh one (`SpellingKeptIff`), although
  existing values are meant to stay.
* **RUM provisioning.** The docstring says that only 5xx and connection errors are retried. The code
  also retries every other status below 200 or from 400 up except 401, 403 and 404; the model follows
  the code.

## Model

| member | source | states |
|---|---|---|
| `TokenRevocation.CacheTimeout` | app/api/decorators.py:122-126 | the timeout lies between one second and seven days, and beyond one second it never reaches past expiry |
| `TokenRevocation.TimeoutReaches` | app/api/decorators.py:122-126 | for a seven-day token an entry stored now outlives `exp - 1` (on whole seconds, `exp - 0.5`) |
| `TokenRevocation.StepKeepsInv` | app/api/decorators.py:138-179 | every cache, table and clock step keeps the protocol invariant |
| `TokenRevocation.RunKeepsInv` | app/api/auth.py:780-808 | every schedule of any number of checks, logouts and prunes keeps it |
| `TokenRevocation.NoFalseRevocation` | app/api/decorators.py:165-179 | "revoked" is only ever answered for a token whose block list row was committed and, until expiry, is still there |
| `TokenRevocation.PublishedLogoutHolds` | app/api/auth.py:797-804 | once a logout's publish has returned, every check that starts later and looks up by `exp - 1` answers "revoked" while the token lives |
| `TokenRevocation.WholeSecondsLogoutHolds` | app/api/auth.py:797-804 | on a whole-second clock the same holds for the token's whole life |
| `TokenRevocation.LastAccessSeesLogout` | app/api/decorators.py:165-179 | a check that was already under way answers "revoked" too if its last cache access returned after a publish had, by `exp - 1`: a refused `add` is followed by a second look |
| `TokenRevocation.ListedMeansRevoked` | app/api/decorators.py:165-179 | a check that finds the row in the table answers "revoked", whatever the cache does |
| `TokenRevocation.LastSecondMiss` | app/api/decorators.py:168-175 | in the last second a schedule exists in which a published logout is missed |
| `TokenRevocation.GuaranteeExact` | app/api/decorators.py:122-179 | the guarantee holds at an instant, over all schedules, if and only if it is not in the last second |
| `Isbn.NormalizeAgreesWithAuditor` | scripts/etl_frbr_strict.py:77-91 | normalisation returns a value exactly when the auditor's length and checksum rules accept the text, and the value is a valid ISBN-13 that normalises to itself |
| `Isbn.KeyFixed` | scripts/etl_frbr_strict.py:239-241 | the grouping key is its own grouping key |
| `Isbn.SingleErrorRejected10` | scripts/audit_frbr_integrity.py:48-60 | changing any one character of a valid ISBN-10 makes it invalid (mod 11, ISO 2108) |
| `Isbn.SingleErrorRejected13` | scripts/audit_frbr_integrity.py:63-74 | changing any one digit of a valid ISBN-13 makes it invalid (section 7.9 of the GS1 General Specifications) |
| `Isbn.ConversionInjective` | scripts/etl_frbr_strict.py:53-74 | two different valid ISBN-10s never convert to the same ISBN-13 |
| `Isbn.ConversionKeepsDigits` | scripts/etl_frbr_strict.py:53-74 | a valid ISBN-10 becomes the valid ISBN-13 with prefix 978 and the same nine digits |
| `Isbn.CheckEquation13` | scripts/audit_frbr_integrity.py:63-74 | an ISBN-13 is accepted exactly when the digits, weighted 1 and 3 in turn, sum to a multiple of ten (section 7.9 of the GS1 General Specifications) |
| `Isbn.CheckEquation10` | scripts/audit_frbr_integrity.py:48-60 | an ISBN-10 is accepted exactly when the digits, weighted 10 down to 1, sum to a multiple of eleven (ISO 2108) |
| `Isbn.CleanPerCharacter` | scripts/etl_frbr_strict.py:83 | cleaning works character by character, so separators anywhere make no difference |
| `Isbn.CleanOne` | scripts/etl_frbr_strict.py:83 | of one character cleaning keeps a digit or an X, and makes a small x large |
| `Clusters.GroupByKey` | scripts/etl_frbr_strict.py:234-241 | grouping puts every row in exactly the group of its key |
| `Clusters.LeadersDistinct` | scripts/etl_frbr_strict.py:253-262 | a cluster has one leader, and different clusters have different ones |
| `Clusters.AddNext` | scripts/etl_frbr_strict.py:270-287 | merging one more, outranked member keeps every leader and hands it the member's children |
| `Reconciliation.Database.TakeIsbns` | scripts/etl_frbr_strict.py:198-203 | all four ISBN keys that hold anything are removed and the last one's value is taken |
| `Reconciliation.Database.RelocateWorkIsbns` | scripts/etl_frbr_strict.py:192-232 | relocation removes ISBNs from works, gives each one that normalises and is unused to a blank manifestation below where there is one, changes nothing else, and counts the works |
| `Reconciliation.Database.MergeManifestations` | scripts/etl_frbr_strict.py:234-292 | the in-place merge of manifestations is the declarative merge of all clusters, with its three counters |
| `Reconciliation.Database.MergeWorks` | scripts/etl_frbr_strict.py:294-335 | the same for works |
| `Reconciliation.Database.RunPipeline` | scripts/etl_frbr_strict.py:162-346 | a run is relocation followed by the two merges; a dry run restores every row and still reports the counters |
| `EtlRun.ZeroStatsIffTidy` | scripts/etl_frbr_strict.py:176-183 | all six counters are zero if and only if the tables needed nothing, and then nothing changes |
| `EtlGuarantees.MergedIsbns` | scripts/etl_frbr_strict.py:243-292 | merging keeps each manifestation's grouping key on its leader and leaves every key once, in normalised form |
| `EtlGuarantees.LeaderKeyKept` | scripts/etl_frbr_strict.py:324-330 | a work that leads a cluster keeps its key if and only if it has authors or takes over none that count |
| `EtlGuarantees.WorkKeysKept` | scripts/etl_frbr_strict.py:307-335 | every work's title/authors key survives on its leader if and only if no leader takes over counting authors |
| `EtlGuarantees.PipeFreeAgree` | scripts/etl_frbr_strict.py:298-305 | author names that do not contain the separator meet that condition |
| `EtlGuarantees.RelocationLeavesIsbnIff` | scripts/etl_frbr_strict.py:198-208 | relocation leaves an ISBN on a work if and only if the last one there is blank |
| `EtlGuarantees.RunLeavesTidy` | scripts/etl_frbr_strict.py:192-346 | from works whose last ISBN values are not blank and whose clusters agree on their authors, a run leaves no ISBN on a work, unique normalised ISBNs and unique work keys |
| `EtlIdempotence.MergedKeysDifferIff` | scripts/etl_frbr_strict.py:307-335 | merged works have different keys if and only if no leader without authors takes over authors that bring it to another leader's key |
| `EtlIdempotence.MergedIsbn` | scripts/etl_frbr_strict.py:198-208 | after relocation and merging a cluster holds an ISBN under a key exactly when the oldest member that relocation leaves the key on holds one there, and then that one |
| `EtlIdempotence.SecondRunIdleIff` | scripts/etl_frbr_strict.py:192-346 | a second run changes no row and returns six zeros if and only if, in the works before the first one, no adoption of authors collides and no cluster's last surfacing ISBN key is more than blank |
| `EtlGuarantees.SecondRunIdle` | scripts/etl_frbr_strict.py:192-346 | idempotence from any state whose ISBN values on works are not blank and whose clusters agree on their authors |
| `EtlGuarantees.RunConserves` | scripts/etl_frbr_strict.py:270-321 | no item or expression is lost; items keep their manifestation's key through the merge, and expressions their work's key when the clusters agree on their authors |
| `EtlGuarantees.RunMakesNoOrphans` | scripts/audit_frbr_integrity.py:77-127 | a state in which the auditor finds no orphans stays one |
| `EtlGuarantees.CountersMatchRows` | scripts/etl_frbr_strict.py:286-287 | the reconciled counters equal the drop in row counts |
| `EtlRows.CountersMatchChanges` | scripts/etl_frbr_strict.py:243-321 | the other four counters are the items and expressions with a new parent, the remaining manifestations with a new ISBN, and the works that lost one |
| `EtlRows.RemainingManifestation` | scripts/etl_frbr_strict.py:253-262 | of the manifestations of one ISBN key the one with most items remains, the oldest of several |
| `EtlRows.RemainingWork` | scripts/etl_frbr_strict.py:307-314 | of the works of one key the oldest remains |
| `EtlRows.RelocatedKeys` | scripts/etl_frbr_strict.py:198-208 | relocation takes from a work exactly the ISBN keys that hold something, provided the last of them is not blank |
| `EtlRows.ManifestationMetadataKept` | scripts/etl_frbr_strict.py:270-287 | a remaining manifestation keeps its own metadata and gets every metadata key of those merged into it |
| `EtlRows.ManifestationMetadataWinner` | scripts/etl_frbr_strict.py:253-283 | where merged manifestations disagree on a metadata value, the one with most items wins, the oldest of several |
| `EtlRows.WorkMetadataKept` | scripts/etl_frbr_strict.py:316-335 | a remaining work keeps title, authors and metadata and gets every metadata key of those merged into it, ISBNs apart |
| `EtlRows.WorkMetadataWinner` | scripts/etl_frbr_strict.py:311-330 | of the works merged into one the oldest that holds a metadata key, ISBNs apart, gives its value |
| `EtlNames.SameNamesSameKey` | scripts/etl_frbr_strict.py:296-305 | works with the same title and the same authors in any order, up to case and margins, have one key |
| `EtlNames.PlainKeysIff` | scripts/etl_frbr_strict.py:296-305 | without the separator in titles and names, keys are equal exactly for equal titles and equal multisets of names |
| `EtlNames.LowerForgetsCase` | scripts/etl_frbr_strict.py:302-303 | lower-casing forgets the case of ASCII letters and nothing else |
| `EtlNames.SameWorksMerged` | scripts/etl_frbr_strict.py:294-335 | after a run the expressions of two such works belong to one work |
| `EtlNames.OnlySameWorksMerged` | scripts/etl_frbr_strict.py:294-335 | without the separator in titles and names, two expressions share a work afterwards only if they did before or if their works had equal titles and names |
| `EtlNames.AuditorSeesSameWorks` | scripts/audit_frbr_integrity.py:138-160 | the auditor reports two such works as duplicates |
| `EtlGuarantees.AuditorAcceptsManifestations` | scripts/audit_frbr_integrity.py:130-187 | after any run the auditor, which groups by cleaned text, finds no duplicate manifestations and no unnormalised valid ISBN-10 |
| `EtlIdempotence.AuditorAcceptsWorksIff` | scripts/audit_frbr_integrity.py:130-187 | it finds no duplicate works if and only if, in the works before the run, no adoption of authors collides |
| `EtlIdempotence.WorkLevelIsbnIff` | scripts/audit_frbr_integrity.py:250-267 | it reports an ISBN key of a work if and only if the work remains and the key surfaces among the works merged into it |
| `EtlIdempotence.NoWorkLevelIsbnIff` | scripts/audit_frbr_integrity.py:250-267 | it reports no ISBN on any work if and only if no ISBN key surfaces in any cluster before the run |
| `EtlGuarantees.AuditorAcceptsRun` | scripts/audit_frbr_integrity.py:190-267 | after a run from works that meet those two conditions the auditor reports no duplicate clusters, no unnormalised valid ISBN-10 and no ISBN on a work |
| `EtlCounterexamples.DisagreeingExist` | scripts/etl_frbr_strict.py:302-304 | three works of which the oldest takes over an author that brings it to the third one's key, spelled out |
| `EtlCounterexamples.DisagreementBreaksIdempotence` | scripts/etl_frbr_strict.py:302-304 | with such works every second run reports a counter that is not zero |
| `EtlCounterexamples.BlankIsbnWorksExist` | scripts/etl_frbr_strict.py:200-205 | two works of one cluster, one with a blank ISBN value behind another one, spelled out |
| `EtlCounterexamples.BlankIsbnBreaksIdempotence` | scripts/etl_frbr_strict.py:200-205 | with such works every second run reports a counter that is not zero |
| `Auditor.AuditDuplicates` | scripts/audit_frbr_integrity.py:130-187 | the report lists exactly the keys shared by two or more rows, with exactly those rows |
| `Auditor.AuditIsbns` | scripts/audit_frbr_integrity.py:190-269 | the report lists exactly the violations of every manifestation and work |
| `Auditor.ViolationMeans` | scripts/audit_frbr_integrity.py:200-248 | which violation is reported, and that none is, in terms of the cleaned length and of what normalisation returns |
| `SqlScanner.ParseSqlValues` | scripts/sql_to_json.py:68-117 | the index loop computes the values of a row as specified on the unread rest |
| `SqlScanner.SplitRowTuples` | scripts/sql_to_json.py:120-167 | the depth-counting loop computes the rows of a block, whatever nesting or quotes occur |
| `SqlScanner.ParsePrinted` | scripts/sql_to_json.py:68-117 | parsing a printed row gives its values back, trimmed and with NULL as null, whatever the quoted texts contain (quoting as in section 4.1.2.1 of the PostgreSQL documentation) |
| `SqlScanner.SplitPrinted` | scripts/sql_to_json.py:120-167 | splitting a printed block gives the printed rows back |
| `SqlScanner.ScanPrinted` | scripts/sql_to_json.py:68-167 | splitting and then parsing undoes printing |
| `SqlScanner.ReadLosslessIff` | scripts/sql_to_json.py:102-117 | a text comes back unchanged if and only if it is trimmed and is not NULL |
| `SqlConverter.GroupStatements` | scripts/sql_to_json.py:170-215 | the grouping loop emits the specified statements and never holds more than MAX_STATEMENT_LINES + 1 lines |
| `SqlConverter.BufferBounded` | scripts/sql_to_json.py:36-42 | the buffer bound, for every sequence of lines |
| `SqlConverter.GroupDump` | scripts/sql_to_json.py:170-215 | a dump of whole statements between unrelated lines yields exactly those statements, one line each |
| `SqlConverter.MarginsIgnored` | scripts/sql_to_json.py:196-198 | white space around raw lines changes no statement |
| `SqlConverter.UnfinishedLast` | scripts/sql_to_json.py:213-215 | a statement cut off by the end of the dump is kept |
| `SqlConverter.UnfinishedDropped` | scripts/sql_to_json.py:200-205 | a statement cut off by the next INSERT INTO is dropped |
| `SqlConverter.OverlongCut` | scripts/sql_to_json.py:191-196 | a statement whose semicolon does not come is cut after MAX_STATEMENT_LINES + 1 lines, and reading goes on as if it had not been |
| `SqlStreaming.ParseDump` | scripts/sql_to_json.py:433-463 | the in-memory parser collects the records of a text, cut by `splitlines`, per collection in order |
| `SqlStreaming.SpoolDump` | scripts/sql_to_json.py:383-398 | the spools hold one line for each record of the file, in order, and the counts are their numbers |
| `SqlStreaming.WriteArray` | scripts/sql_to_json.py:403-418 | the comma-flag writer writes a plain join of the spooled lines |
| `SqlStreaming.WrittenIsJoin` | scripts/sql_to_json.py:407-417 | a comma before every line but the first is the join of the lines |
| `SqlStreaming.WriteDocument` | scripts/sql_to_json.py:400-420 | the loop over the collections writes the labelled arrays in order, joined by commas |
| `SqlStreaming.LabelNamesTable` | scripts/sql_to_json.py:61-65 | a collection is labelled in the document with its table's name in the plural, and no other table goes there |
| `SqlStreaming.ConvertDump` | scripts/sql_to_json.py:324-430 | the streaming converter's document and counts are those of the file's records, which are the in-memory parser's whenever newlines are the text's only line boundaries |
| `TextLines.LinesAgreeIff` | scripts/sql_to_json.py:218-241 | a file's lines are the `splitlines` of its text if and only if newlines are its only line boundaries |
| `DumpAgreement.ParsersAgree` | scripts/sql_to_json.py:456-461 | on such a text both parsers give the same records, collection by collection, in the same order |
| `DumpAgreement.CutAddressDiffers` | scripts/sql_to_json.py:456-461 | for any other boundary inside an address the streaming converter keeps the character and the in-memory parser has a space there |
| `DumpAgreement.FormFeedDiffers` | scripts/sql_to_json.py:456-461 | one such INSERT statement, spelled out |
| `SqlStreaming.RecordHasCollection` | scripts/sql_to_json.py:268-321 | a record is only made for a table that has a collection, so the two passes skip the same rows |
| `SqlStreaming.PrintedStatementRecords` | scripts/sql_to_json.py:244-265 | a printed statement gives one record for each row that fits its table |
| `DumpColumns.DumpCarries` | scripts/sql_to_json.py:268-321 | over a whole printed dump and with both parsers: a collection holds the rows of its own table that are long enough, in order, every printed column in its own field; `meta` is the loaded object or the empty one, a column that is not there is null |
| `Ancestry.WalkUp` | app/api/collections.py:137-154 | the recursive UNION (section 7.8.2 of the PostgreSQL documentation) ends on every graph, cyclic ones included, with exactly the rows reachable upward within the owner |
| `Ancestry.GetHierarchyIds` | app/api/collections.py:102-174 | a circular reference is reported exactly when the start lies on a cycle; otherwise the result is the reachable set, or "too deep" when it is larger than the cap allows |
| `CollectionForest.MoveAddsNoCycle` | app/api/collections.py:177-196 | hanging a collection under one that does not reach it closes no cycle, on any data |
| `CollectionForest.MoveAddsCycleIff` | app/api/collections.py:177-196 | a move closes a cycle if and only if the new parent reaches the moved collection |
| `CollectionForest.RequestAddsNoCycle` | app/api/collections.py:201-225 | from any stored data, cyclic or not, no update adds a cycle among its owner's rows |
| `CollectionForest.RequestKeepsForest` | app/api/collections.py:57-263 | create, move, rename and delete, accepted or not, keep an owner-consistent forest without dangling parents |
| `CollectionForest.RunKeepsForest` | app/api/collections.py:57-263 | so does every run of requests |
| `CollectionForest.CrossOwnerMoveClosesCycle` | app/api/collections.py:137-154 | on data whose links cross owners an accepted move can close a cycle |
| `CollectionForest.Store.constructor` | app/api/collections.py:57-92 | the empty table is a forest |
| `CollectionForest.Store.CreateCollection` | app/api/collections.py:65-75 | exactly the requests without parent or with a parent of the same owner are carried out, and store one new row |
| `CollectionForest.Store.ValidateParent` | app/api/collections.py:177-196 | the verdict is "existing, own, not itself, not a descendant, not on a cycle, not too deep" |
| `CollectionForest.Store.UpdateCollection` | app/api/collections.py:201-242 | the reply; a request that is not carried out changes nothing, not even the name; one that is sets the name and the parent that were sent and leaves everything else |
| `CollectionForest.Store.DeleteCollection` | app/api/collections.py:247-268 | a collection goes if and only if it is the owner's and has no children |
| `CollectionChains.RenameKeepsChains` | app/api/collections.py:213-225 | a rename stores the name and leaves every ancestor chain of every row as it was |
| `CollectionChains.MoveChains` | app/api/collections.py:213-225 | after a move the collection's ancestors are the new parent and that one's ancestors, and rows that were not below it keep their chains |
| `CollectionChains.DescendantsMoveAlong` | app/api/collections.py:213-225 | everything below a moved collection moves along |
| `CollectionChains.CreateChains` | app/api/collections.py:65-75 | a new collection sits on its parent's chain, and no other chain changes |
| `CollectionChains.DeleteKeepsChains` | app/api/collections.py:247-268 | deleting changes no chain of a row that is left |
| `CollectionChains.CreateThenDelete` | app/api/collections.py:57-268 | deleting what was just created is accepted and restores the table |
| `CollectionChains.ParentAcceptedIff` | app/api/collections.py:137-196 | in a forest a parent is accepted if and only if it is another own collection, not below the moved one, with at most MAX_HIERARCHY_DEPTH ancestors |
| `DeploySync.NoDriftIff` | scripts/sync_deploy_dir.py:227-257 | no drift is reported if and only if every tracked path is a regular file with its content and mode |
| `DeploySync.TamperingSeen` | scripts/sync_deploy_dir.py:227-248 | after a sync, whatever happens to one synced file is reported as missing, as a link, or as changed content or mode, and nothing else is |
| `DeploySync.Deployment.Sync` | scripts/sync_deploy_dir.py:101-208 | the directory afterwards, the manifest, and the three numbers returned |
| `DeploySync.CountsTellChanges` | scripts/sync_deploy_dir.py:150-186 | the three numbers count the paths that became files, the files that changed, and the paths that went away |
| `DeploySync.Deployment.Verify` | scripts/sync_deploy_dir.py:211-257 | the exit code and the exact set of drifts |
| `DeploySync.SyncAllMirrors` | scripts/sync_deploy_dir.py:121-186 | after any syncs the last source is mirrored, everything else ever tracked is gone, and everything never tracked is untouched |
| `DeploySync.RepeatIdle` | scripts/sync_deploy_dir.py:129-208 | repeating a sync creates, updates and removes nothing |
| `DeploySync.SyncSequence` | scripts/sync_deploy_dir.py:101-257 | on one directory: any syncs, then verification returns 0 and the last sync again returns (0, 0, 0) |
| `ExchangeCodes.RunKeepsInv` | app/api/auth.py:264-280 | every interleaving of issues, exchanges and clock steps keeps table, requests and grants consistent |
| `ExchangeCodes.OneTokenPerCode` | app/api/auth.py:652-671 | each code yields at most one token, for its own user, in an exchange begun before it expired and within 60 seconds of being stored |
| `ExchangeCodes.LiveCodeRedeems` | app/api/auth.py:645-671 | an uninterrupted exchange hands out a token exactly for a live code of an active user, so purging loses none early |
| `ExchangeHistory.TokenForRequester` | app/api/auth.py:264-280 | over all schedules: a token goes to the user for whom a request stored its code, in an exchange of that code that began less than 60 seconds after that request and ended while the account was active |
| `ExchangeHistory.CodeLifetime` | app/api/auth.py:264-280 | a code expires exactly 60 seconds after the clock reading of the request that stored it |
| `ExchangeHistory.OneRequesterPerCode` | app/api/auth.py:269-279 | no two requests of a run store the same code |
| `ExchangeHistory.ExchangeUsesUp` | app/api/auth.py:652-671 | an exchange that ends uses its code up for good: for a token if the account is active, for nothing otherwise |
| `ExchangeHistory.IssuePurges` | app/api/auth.py:266-267 | storing a code purges exactly the codes that had expired when its request began |
| `FormatMappings.SimultaneousIff` | scripts/fix_physical_kinds.py:475-506 | sequential UPDATEs act as one substitution on all rows if and only if none changes what an earlier one wrote |
| `FormatMappings.OrderIrrelevant` | scripts/fix_physical_kinds.py:475-506 | then the order of the mappings does not matter |
| `FormatMappings.TotalExactIff` | scripts/fix_physical_kinds.py:467-537 | the total is the number of changed rows on every table if and only if there is no such chain and no identity mapping |
| `FormatMappings.SecondApplyIff` | scripts/fix_physical_kinds.py:475-533 | for every plan: a second apply changes nothing if and only if no UPDATE whose target survives to the end has an earlier one that selects that target and whose chain ends elsewhere |
| `FormatMappings.SecondTotalZeroIff` | scripts/fix_physical_kinds.py:467-533 | for every plan: the second apply reports a total of zero on every table if and only if no UPDATE selects the target of one that ends a chain |
| `FormatMappings.ApplyOnceIsEnough` | scripts/fix_physical_kinds.py:467-533 | with keys that are not canonical: one substitution, an exact total, and a second total of zero |
| `FormatMappings.PlanIndependent` | scripts/fix_physical_kinds.py:469-480 | with keys that are not canonical the validated mappings never touch each other's results |
| `FormatMappings.PlanHolds` | scripts/fix_physical_kinds.py:467-512 | the plan holds an UPDATE for every mapping of the file to a canonical format and for nothing else |
| `FormatMappings.EveryMappingApplied` | scripts/fix_physical_kinds.py:467-533 | with keys that are not canonical, every row the file maps gets the format it is mapped to, and every other row stays |
| `FormatMappings.TotalCountsChanged` | scripts/fix_physical_kinds.py:372-437 | what the UPDATEs' row counts mean: without identities and chains they add up to the number of rows that changed |
| `FormatMappings.Manifestations.ApplyMode` | scripts/fix_physical_kinds.py:445-541 | the final rows and the total of the two loops; a dry run changes nothing and totals zero |
| `CoverBackfill.CandidatesInOrder` | scripts/backfill_legacy_covers.py:69-97 | the rows that match at the start, each once, in increasing key order |
| `CoverBackfill.CountersPartition` | scripts/backfill_legacy_covers.py:126-185 | the counters partition the candidates; in apply mode eligible = processed + failed; all six count what their names say |
| `CoverBackfill.UrlsDecide` | scripts/backfill_legacy_covers.py:62-78 | either cover field makes a row a candidate; it is worked on exactly when one of them has an allowlisted host and its own cover is not a ready local one |
| `CoverBackfill.PageIsNext` | scripts/backfill_legacy_covers.py:85-91 | a page read after earlier rows were rewritten still holds the next initial candidates |
| `CoverBackfill.Table.VisitCandidates` | scripts/backfill_legacy_covers.py:80-187 | paging yields the initial candidates up to the limit, processes each once, and leaves every other row alone |
| `CoverBackfill.Table.RunBackfill` | scripts/backfill_legacy_covers.py:100-187 | the two refusals, and otherwise counters and rows of the whole run |
| `RumProvisioning.WaitUntilReady` | scripts/provision_rum_token.py:433-449 | polling ends; it stops at the first ready answer, and without one not before the deadline |
| `RumProvisioning.FetchRumToken` | scripts/provision_rum_token.py:452-494 | the outcome is that of the last answer, and only retryable answers precede it |
| `RumProvisioning.SharedDeadline` | scripts/provision_rum_token.py:603-612 | two stages under one deadline send at most budget + 2 requests |
| `RumProvisioning.Provision` | scripts/provision_rum_token.py:590-624 | at most budget + 2 requests, none without a credential, none after a 2xx, 3xx, 401, 403 or 404 token answer |
| `NginxExample.StripComments` | scripts/validate_nginx_example.py:161-209 | the index loop computes the specified text, of the same length |
| `NginxExample.StripBlanksExactly` | scripts/validate_nginx_example.py:161-209 | a character becomes a space exactly when it is in a comment or in an escape inside quotes, by a one-character-at-a-time reading; every other one stays |
| `NginxExample.ScrubFixedIff` | scripts/validate_nginx_example.py:161-209 | a text is unchanged if and only if it has no "#" outside quotes and no backslash inside |
| `NginxExample.ScrubStrips` | scripts/validate_nginx_example.py:161-209 | what is left has neither |
| `NginxExample.StripIdempotent` | scripts/validate_nginx_example.py:161-209 | stripping twice is stripping once |
| `NginxExample.CheckBraces` | scripts/validate_nginx_example.py:233-242 | accepted exactly when no prefix closes more braces than it opens and the totals match |
| `EnvFile.ParseEnvFile` | scripts/ensure_env_secrets.py:38-53 | later lines win, comments and blank lines set nothing |
| `EnvFile.NamesRead` | scripts/ensure_env_secrets.py:44-52 | every variable read has a trimmed name without "=", and none comes from a comment |
| `EnvText.ParseAppend` | scripts/ensure_env_secrets.py:43-52 | reading one file after another is reading both, the second one winning |
| `EnvFile.AssignsNameIff` | scripts/ensure_env_secrets.py:47-51 | a line assigns to a name exactly when the parser reads that name |
| `EnvFile.OwnedIff` | scripts/ensure_env_secrets.py:58 | the regular expression selects exactly the lines parsed as the key or as "export" and the key |
| `EnvUpdate.EscapedPerCharacter` | scripts/ensure_env_secrets.py:65 | the four replacements in a row put one backslash before each special character |
| `EnvUpdate.ShellReadsEscaped` | scripts/ensure_env_secrets.py:61-66 | a shell that sources the line gets every value back and expands nothing |
| `EnvUpdate.UpdateEnvLines` | scripts/ensure_env_secrets.py:56-80 | the lines after an update: all owned lines replaced, or one appended |
| `EnvUpdate.UpdateTwice` | scripts/ensure_env_secrets.py:56-80 | writing the same pair twice equals writing it once |
| `EnvUpdate.ParseUpdated` | scripts/ensure_env_secrets.py:38-80 | afterwards every other variable is as before, except the `export` spellings of the key |
| `EnvUpdate.RoundTripIff` | scripts/ensure_env_secrets.py:38-80 | the parser returns the value if and only if it has no special character and no quote at either end |
| `EnvText.WrittenParses` | scripts/ensure_env_secrets.py:135-138 | writing the lines to a file and splitting it again sets the same variables |
| `EnvText.FileKeepsOthers` | scripts/ensure_env_secrets.py:38-80 | the same through the file: other variables survive |
| `EnvText.FileRoundTripIff` | scripts/ensure_env_secrets.py:38-80 | through the file a value survives if and only if, besides, it has no line break |
| `EnvSecrets.EnsureSecretsInEnvFile` | scripts/ensure_env_secrets.py:83-142 | the written file keeps every acceptable secret, gives each other one the supplied value, makes the credential match user and password, leaves every variable outside the six and their `export` spellings as it was, and sets what is returned |
| `EnvSecrets.RunFills` | scripts/ensure_env_secrets.py:83-142 | the same said of the file's text before and after the whole script |
| `EnvSecrets.SecondRunIdle` | scripts/ensure_env_secrets.py:83-142 | one run completes any file, and a second run on its output changes nothing, whatever fresh secrets the second run draws |
| `EnvStrength.SecretsStrong` | scripts/ensure_env_secrets.py:27-35 | after a run the four secrets have at least 32, 32, 24 and 16 characters and hold no placeholder word in any case |
| `EnvStrength.GoodSecretKept` | scripts/ensure_env_secrets.py:83-142 | of the secrets without margins or quotes exactly those that long and without such a word are kept; the others, and missing ones, are supplied |
| `EnvStrength.CredentialMatches` | scripts/ensure_env_secrets.py:110-133 | a user that is not blank is kept, and the stored credential is that of the stored user and password |
| `EnvSecrets.SpellingKeptIff` | scripts/ensure_env_secrets.py:83-142 | an `export` spelling of one of the six variables survives exactly when the run does not write that variable |

## Left out

Token revocation and sessions:

- Early eviction of cache entries, backends whose timeouts are not exact, and a logout whose cache write raised without effect: the guarantee is stated for a publish that returned.
- A block list read that fails: the check then has no answer. The rest of the request gate (signatures, personal access tokens, scopes, account state) is not part of this model.
- Users deleted while codes are outstanding (rows vanish with the user), the callback path, and codes of the wrong length, which are refused before the table is read.
- Hashes are taken as injective, and random codes never repeat.

Catalogue:

- Authors come from one field: the `Authors` alias is not modelled. Metadata values are text; other JSON values, and their `str()` forms, are not.
- EtlGuarantees.SecondRunIdle: a corollary under two simple sufficient conditions; `EtlIdempotence.SecondRunIdleIff` is exact.
- EtlGuarantees.AuditorAcceptsRun: likewise; `AuditorAcceptsManifestations` needs no condition, `AuditorAcceptsWorksIff` and `NoWorkLevelIsbnIff` are exact.
- EtlNames.OnlySameWorksMerged: for titles and names without "|"; with it two different works can have one key, which the code then merges (`SameNamesSameKey` needs no such condition).
- EtlGuarantees.RunConserves: an item's key is compared after relocation, which may give a blank manifestation its ISBN.
- Row order inside one query (which blank manifestation receives an ISBN is left open), unique-constraint timing on `isbn13`, ORM cascades, the backup snapshot and verbose output.
- Lower and upper case and digits are those of ASCII; white space is Python's.

SQL conversion:

- The INSERT pattern, `json.loads` and `json.dumps` are parameters. Strings that span physical lines, temporary files and the final rename are not modelled.
- DumpColumns.DumpCarries: for statements that each stand on one line; `GroupDump` says what becomes of statements on several.
- SqlConverter.GroupDump: for statements whose strings stay on one line, because the grouper looks at line ends without tracking quotes.

Collections:

- Concurrent requests; the depth of a forest (creation does not check it); request validation and response bodies; clearing a parent, which the endpoint does not offer.

Deployment:

- Directories at file targets, symbolic links among parent directories, collecting and refusing source files, timestamps, and the JSON form of the manifest. Digests are equal exactly when contents are.

Smaller components:

- FormatMappings.EveryMappingApplied: for files without chains; for the others `SimultaneousIff` says exactly when the UPDATEs are one substitution, and `PlanHolds` which UPDATEs there are.
- FormatMappings: rows whose `meta` is not an object, on which the PostgreSQL statement counts but does not change a row; reading the YAML file; interactive mode.
- CoverBackfill: the URL tests and the cover pipeline are parameters, and the pipeline changes no row but its own; the confirmation string and the connectivity probe are reduced to one flag.
- RumProvisioning: the endpoint, the clock and the token's shape are parameters; printing, target selection and the unreachable check of the permanent statuses after their own branches are left out.
- NginxExample: the search for required directives, the check of `upstream` inside `server`, and the nginx and docker runs.
- EnvSecrets: random generation, base64 and the database mirror; the six variable names are parameters, required to be distinct plain names; a supplied secret that happens to contain a placeholder word would be replaced by the next run, so supplied values are required to be acceptable.
- Account lifecycle, federation, search, permissions, taxonomy and front-end tooling.
