# Verification model of the ingestion pipeline

The repository moves catalogues and files from open-data portals into a data lake. Its messages are delivered at
least once, in any order, and any process may die between two writes. This project models the parts that must come
to the right result anyway, and proves that they do. Each `.dfy` file is one module.

| modules | what they model |
|---|---|
| `ChildJobs`, `ParquetProcessor` | results of child jobs and the verdict on their parent |
| `CoordinatorRuns`, `CoordinatorAnswers`, `CoordinatorFailures`, `CoordinatorTables` | all runs of several coordinators: verdicts, what the messages say, late failures, and the tables behind a success |
| `ParquetRegistrar` | replacing a table by a newer version |
| `JobFanout` | splitting a parent job into children with stable identities |
| `ResourceForest`, `CatalogRows`, `SourceSync` | discovery of a source, its rows, and recovery from crashes |
| `CatalogIngestion`, `CatalogHistory` | import of snapshots into the lake, and all histories of imports |
| `CsvRecovery`, `CsvRepair` | the retries of the CSV reader, and the repair of a line |
| `FieldIds`, `SchemaUnion`, `ChildMerge`, `CrawlerAggregate` | field numbers and names, and the union of schemas in its two implementations |
| `ArchiveVisit`, `DriveCollector`, `DiscoveryCache` | nested archives under shared limits, Drive folders, the cache of discoveries |
| `Publication`, `ExplorerRuns`, `SessionLimits` | publications of the explorer and their retention, and all runs with requests for sessions |
| `OracleMerge`, `OracleText`, `OracleTranslation`, `OracleEffect` | upserts rewritten for Oracle: text and effect on tables |
| `OracleReading`, `OracleOutcome` | a reader of MERGE statements, and what the text that is sent does to a table |
| `OracleDialect`, `OracleBinding` | numbered placeholders and bound arguments |
| `Common` | shared vocabulary |

Brokers, SQL tables and object stores are maps and sequences. A crash is a number of writes that still happen
(`budget`, `puts`) or a step of a run. The CSV parser, the metadata sniffer, Jev, type casts and letter folding are
arbitrary functions with the assumptions named in the code. Name-based UUIDs (section 5.5 of RFC 9562) are injective
functions of their names.

## Where the code and its description differ

- The reader announces a limit of 2000 Jev repairs, but its test lets 2001 through. `ReadBatches` makes at most 2001,
  and more than 2000 if and only if its run of attempts, never stopped, would demand so many (`LimitExact`);
  `StubbornDemands` gives a parser and a Jev that do.
- A registration is skipped when the table already comes from the same job, even for a newer version. The newest
  version therefore wins in every order only if its job produced no older version. `RegistrationConverges` states
  this with both directions, `SameJobExample` shows a pair.
- Retention leaves no slack for the time between the age test of a request and its signature: 48 hours of admission
  and 15 minutes of validity are all of it. `SessionOutlivesCatalog` is a run in which a session outlives its
  catalogue, `SessionExact` and `SigningTime` give the exact condition on the clock at signing, and `LatencyExact` shows
  that no bound on the delay is enough. Requests signed in the instant of their admission are safe
  (`PromptSessionsInTime`).
- The registrar reads the tags of a table before its transaction, so that an older version can take the place of a
  newer one (`AlwaysOvertakable`). `OvertakingExact` states which outstanding registrations are safe,
  `DisciplineConverges` which ways of working leave the newest version.
- Failures of children are sticky in the table, but not in what is published: a worker that read the table before the
  failed row came still publishes its success. `SuccessAfterFailureExact` states when, in both directions,
  `LateFailureExample` shows a run; `NoSuccessAfterFailure` holds for deliveries that do not overlap.
- A skipped registration is published as a success with the rows that the children report, for a table that it did not
  write. `SuccessIsRegistered` states what the table is then, `FaithfulRows` when the numbers agree.
- A label row with an `id` already in use and a new resource and label is ignored by MySQL but refused by Oracle,
  since the MERGE statement compares only resource and label; it takes a random UUID that repeats. `MergeKeepsEffect`
  states when the two agree, in both directions.
- Writing repaired CSV lines and reading them back is exact only for the lines described in `WriteThenRead`;
  `LostLines` shows two that are not.
- The aggregate writer fails when it has to replace a column `name` that is not text; `NameConflict` runs into it. The
  merge of children has no such column.

## Model

| member | source | states |
|---|---|---|
| `ChildJobs.ChildJobs.Group` | ckan-ingestor-rs/ckan-worker-coordinator/src/child_jobs.rs:121-168 | reading the table back gives, for each child index of the parent, the record of its first failing row or else of its last row, the total of the last row, and `failed` exactly if some row failed; an unknown status is an error |
| `ChildJobs.ChildJobs.Record` | ckan-ingestor-rs/ckan-worker-coordinator/src/child_jobs.rs:66-119 | an invalid result or a failed write changes nothing; otherwise exactly one row is appended, and the verdict is that of the table with it |
| `ChildJobs.GroupUnique` | ckan-ingestor-rs/ckan-worker-coordinator/src/child_jobs.rs:121-168 | the table determines the verdict: any two groups that fit it are equal |
| `ChildJobs.FoldRecords` | ckan-ingestor-rs/ckan-worker-coordinator/src/child_jobs.rs:150-157 | the fold over rows in any number and order keeps one record per index, the one that decides the child |
| `ChildJobs.FailedRecords` | ckan-ingestor-rs/ckan-worker-coordinator/src/child_jobs.rs:160-162 | a record is failed if and only if the table holds a failing row of the parent |
| `ParquetProcessor.Processor.ProcessChild` | ckan-ingestor-rs/ckan-worker-coordinator/src/parquet_message_processor.rs:61-128 | the new table, the merge request and the messages of one child result, for every fault of the store and of the merge: the first message is the result as it was delivered without its file, failed if and only if it was no success or a success without a file; at most one more is about its parent |
| `ParquetProcessor.Processor.Register` | ckan-ingestor-rs/ckan-worker-coordinator/src/parquet_message_processor.rs:130-170 | registered if and only if one of three attempts works, stopping at the first |
| `ParquetProcessor.Processor.Process` | ckan-ingestor-rs/ckan-worker-coordinator/src/parquet_message_processor.rs:45-186 | child results go through the table and are announced as they were delivered; any other result is passed on, as failed if it was a success whose registration failed three times |
| `ParquetProcessor.CountTest` | ckan-ingestor-rs/ckan-worker-coordinator/src/parquet_message_processor.rs:81 | with a fixed number of children the count test holds exactly when every index has arrived |
| `ParquetProcessor.VerdictMeaning` | ckan-ingestor-rs/ckan-worker-coordinator/src/parquet_message_processor.rs:75-126 | a parent success is produced if and only if all children succeeded, none failed and the merge went through; a result is produced if and only if a failure or every index has arrived |
| `ParquetProcessor.MergeInputs` | ckan-ingestor-rs/ckan-worker-coordinator/src/parquet_message_processor.rs:89-94 | the merge receives one success per child, in index order, each with its file |
| `ParquetProcessor.OutputsSay` | ckan-ingestor-rs/ckan-worker-coordinator/src/parquet_message_processor.rs:69-126 | field by field, the message about the child tells what was delivered, and the one about the parent carries the identity of the parent and a success, a failed child, a failed merge or a failed store |
| `ChildJobs.WrittenIsRead` | ckan-ingestor-rs/ckan-worker-coordinator/src/child_jobs.rs:66-157 | what is written for a result and read back tells the result: index, file, rows, name and format, and a success exactly for a success |
| `CoordinatorRuns.SuccessOnlyWhenComplete` | ckan-ingestor-rs/ckan-worker-coordinator/src/parquet_message_processor.rs:61-128 | over all runs with repeated, reordered, interleaved and cut-off deliveries, in which writing a row, reading the table, each message and the merge are steps of their own, a parent success is out only if the table held, at some moment, a success for each of the indices and no failure |
| `CoordinatorRuns.HandledChildrenGetVerdict` | ckan-ingestor-rs/message-processor/src/worker_handler.rs:55-132 | once every child index has been handled and given back, a result for the parent has been published |
| `CoordinatorRuns.GapFillerAnswers` | ckan-ingestor-rs/ckan-worker-coordinator/src/parquet_message_processor.rs:69-126 | a delivery has a parent result to publish if and only if the table it read had every index or a failure, and has published it when it is given back |
| `CoordinatorAnswers.ChildrenAnswered` | ckan-ingestor-rs/ckan-worker-coordinator/src/parquet_message_processor.rs:69-126 | over all runs, each published message about a child has the identity and the status of a delivered result of it (a success without its file being a failure), each message about a parent belongs to a delivered child of it, and no offset is given back without the message about its child |
| `CoordinatorAnswers.MergeGetsDelivered` | ckan-ingestor-rs/ckan-worker-coordinator/src/parquet_message_processor.rs:89-94 | over all runs, what is merged is, for each index in order, a success that was delivered with this index, with its file, rows, name and format |
| `CoordinatorFailures.SuccessAfterFailureExact` | ckan-ingestor-rs/ckan-worker-coordinator/src/parquet_message_processor.rs:69-118 | failures are not always the last word: from a reachable state with a failed row some continuation publishes a success of the parent if and only if a delivery is still on its way that read a clean and complete table before |
| `CoordinatorFailures.PromiseMeaning` | ckan-ingestor-rs/ckan-worker-coordinator/src/parquet_message_processor.rs:75-95 | clean and complete means: when that delivery read the table, every child had succeeded and none failed |
| `CoordinatorFailures.LateFailureExample` | ckan-ingestor-rs/ckan-worker-coordinator/src/parquet_message_processor.rs:69-118 | a run in which the failure of a repeated child arrives between the reading and the publication, and a success can follow it |
| `CoordinatorFailures.NoSuccessAfterFailure` | ckan-ingestor-rs/ckan-worker-coordinator/src/child_jobs.rs:150-162 | if no child of the parent writes its row while another one that has read the table is being answered, nothing published after a failed row is a success of the parent, whatever follows |
| `CoordinatorTables.SuccessIsRegistered` | ckan-ingestor-rs/ckan-worker-coordinator/src/parquet_registrar.rs:201-299 | over all runs, a published parent success means that the table of its resource has been in place in its version, in a newer one or from its own job; the number of rows is the sum over the files of the table written for it, or, if that was skipped, the sum reported by the children of a clean and complete table of results |
| `CoordinatorTables.SuccessStaysCurrent` | ckan-ingestor-rs/ckan-worker-coordinator/src/parquet_registrar.rs:221-241 | if the versions of the resource grow and the job has one version, the table in place at the end of any run is not older than any published success |
| `CoordinatorTables.SkippedVersionLost` | ckan-ingestor-rs/ckan-worker-coordinator/src/parquet_registrar.rs:226-240 | without the second condition a skipped newer version of the same job can be followed by an older one of another job |
| `CoordinatorTables.FaithfulRows` | ckan-ingestor-rs/ckan-worker-coordinator/src/parquet_registrar.rs:240-299 | when the children report the rows of their files, the skipped and the written registration give the same number |
| `ParquetRegistrar.Registrar.Register` | ckan-ingestor-rs/ckan-worker-coordinator/src/parquet_registrar.rs:92-155 | a table is replaced by one with the version, the job and the files of the delivery, with exactly one line in the update log, unless its version is not older or its job is the same; a failed commit changes nothing, and each resource goes through the history of its own deliveries |
| `ParquetRegistrar.Registrar.RegisterChildren` | ckan-ingestor-rs/ckan-worker-coordinator/src/parquet_registrar.rs:201-299 | the same for the merged table of a parent, whose files are the given ones and whose rows are theirs; no children is an error, and a skipped registration reports the rows of the children |
| `ParquetRegistrar.RegistrationConverges` | ckan-ingestor-rs/ckan-worker-coordinator/src/parquet_registrar.rs:92-155 | registered one after the other, every order and repetition of the delivered versions leaves the newest in place, with its own files, if and only if no older version came from the same job |
| `ParquetRegistrar.SameJobExample` | ckan-ingestor-rs/ckan-worker-coordinator/src/parquet_registrar.rs:99-109 | two versions of one job for which the newer one is turned away |
| `ParquetRegistrar.OvertakingExact` | ckan-ingestor-rs/ckan-worker-coordinator/src/parquet_registrar.rs:92-155 | in every reachable state of registrars that read the tags first and commit later: every order of committing or dropping what is outstanding keeps the versions increasing if and only if they increase so far, at most one check is outstanding, and no version that is not older has been committed since |
| `ParquetRegistrar.AlwaysOvertakable` | ckan-ingestor-rs/ckan-worker-coordinator/src/parquet_registrar.rs:92-155 | from every state two registrars that both check first can put an older version in the place of a newer one |
| `ParquetRegistrar.DisciplineConverges` | ckan-ingestor-rs/ckan-worker-coordinator/src/parquet_registrar.rs:92-155 | with one registrar at a time, or a store that refuses a commit to a table other than the one that was checked, every interleaved run ends as the same deliveries registered one after the other: versions increase, and the newest is in place if it owns its job |
| `ParquetRegistrar.VersionsIncrease` | ckan-ingestor-rs/ckan-worker-coordinator/src/parquet_registrar.rs:92-155 | over any run the versions in the update log strictly increase, the last is that of the table, and a delivery adds one exactly when it changes the table |
| `ParquetRegistrar.FileRowsAdd` | ckan-ingestor-rs/ckan-worker-coordinator/src/parquet_registrar.rs:281-299 | the rows of files are the sum of the rows of each, whatever their grouping |
| `JobFanout.FanOut` | ckan-ingestor-rs/ckan-ingestor-consumer/src/job_processor.rs:137-179 | first the number of children, then for each child a pending result followed by its job, with its place, the common total, and the address, format and source that were found |
| `JobFanout.JobIdentity` | ckan-ingestor-rs/ckan-ingestor-consumer/src/job_processor.rs:194-224 | two child jobs share their id if and only if they are the same child of the same parent job, whatever their places |
| `JobFanout.FanOutStable` | ckan-ingestor-rs/ckan-ingestor-lib/src/readers/external_resource_crawler_reader.rs:593-611 | a redelivered parent whose children are found in another order publishes the very same messages: the same jobs, with the same ids, at the same places |
| `ResourceForest.ValidateTree` | ingestor_orchestrator/source-resource-catalog/resource.go:162-180 | accepts exactly the parent maps in which every chain reaches a root, in whatever order the map is iterated |
| `ResourceForest.ForestIsClosedAndAcyclic` | ingestor_orchestrator/source-resource-catalog/resource.go:162-180 | that is the same as: no missing parent and no cycle |
| `CatalogRows.Catalog.ObserveBatch` | ingestor_orchestrator/mysql-repositories/mysql_source_resource_catalog_repository.go:47-68 | one transaction applies the upsert of each resource in turn, or nothing |
| `CatalogRows.Catalog.VersionStatuses` | ingestor_orchestrator/mysql-repositories/mysql_source_resource_catalog_repository.go:76-117 | asked in batches of 200, the answer is the set of resources with a finished job for their version |
| `CatalogRows.Catalog.Complete` | ingestor_orchestrator/mysql-repositories/mysql_source_resource_catalog_repository.go:118-216 | new rows, counts and messages of the closing transaction: in ascending order of their ids, each due resource has its pending result directly followed by its job, then each missing content resource its pending deletion directly followed by the deletion with its dataset and title, and the success of the sync with the counts comes last |
| `CatalogRows.MessagesExact` | ingestor_orchestrator/mysql-repositories/mysql_source_resource_catalog_repository.go:118-216 | a resource gets exactly one job if and only if it is live content seen by this sync with an address and a version that no finished job has; a deletion is announced exactly for content that is missing; the planned number is that of the jobs |
| `CatalogRows.CountsExact` | ingestor_orchestrator/mysql-repositories/mysql_source_resource_catalog_repository.go:118-195 | every reported count is the number of rows of its kind, read off the rows: seen, new, updated, deleted |
| `CatalogRows.CountKinds` | ingestor_orchestrator/mysql-repositories/mysql_source_resource_catalog_repository.go:190-195 | counting the missing identifiers one by one gives the sizes of the sets of missing collections and other resources |
| `SourceSync.Worker.Spool` | ingestor_orchestrator/source-resource-catalog/resource.go:70-96 | a discovery passes if and only if its identities are present, unique and of the source, and its parents form a forest; it is then spooled as it is, under the source |
| `SourceSync.Worker.ObserveInBatches` | ingestor_orchestrator/source-resource-catalog/resource.go:110-141 | batches of 200 observe the resources in order; a worker that dies leaves a prefix observed |
| `SourceSync.Worker.Sync` | ingestor_orchestrator/source-resource-catalog/resource.go:51-160 | a rejected discovery leaves the rows alone; a worker that dies leaves an observed prefix; a finished run leaves the tombstoned rows and announces exactly the due and the missing resources, so that under a new identity the live rows of the source are exactly the discovery |
| `SourceSync.PrefixAbsorbed` | ingestor_orchestrator/mysql-repositories/mysql_source_resource_catalog_repository.go:63 | observing part of a discovery first changes nothing about observing all of it |
| `SourceSync.CompletedAbsorbed` | ingestor_orchestrator/mysql-repositories/mysql_source_resource_catalog_repository.go:63-206 | observing and completing once more after completion changes nothing |
| `SourceSync.CompletionRepeats` | ingestor_orchestrator/mysql-repositories/mysql_source_resource_catalog_repository.go:118-216 | completion run again on the rows it left reports the same counts and the same messages, deletion announcements included |
| `SourceSync.CrashRecovery` | ingestor_orchestrator/source-resource-catalog/resource.go:113-159 | after any number of cut-off attempts one full run ends with the rows, counts and messages of a single clean run |
| `SourceSync.SyncLeavesDiscovery` | ingestor_orchestrator/mysql-repositories/mysql_source_resource_catalog_repository.go:47-216 | afterwards the live rows of the source are exactly the discovered resources, no row is lost, and other sources are unchanged |
| `SourceSync.SyncAnnouncesDiscovery` | ingestor_orchestrator/mysql-repositories/mysql_source_resource_catalog_repository.go:124-206 | under a new identity the jobs are exactly those of the discovered content with address and version that no finished job has, and the deletions exactly the live content that was not discovered |
| `SourceSync.MarksExact` | ingestor_orchestrator/mysql-repositories/mysql_source_resource_catalog_repository.go:52-68 | an observed row is marked as first seen by this sync exactly if it was not known, and as changed exactly if it was not known, was deleted or has another version |
| `SourceSync.ParentsAre` | ingestor_orchestrator/source-resource-catalog/resource.go:70-96 | the tree that is checked has, for each resource, the parent it was discovered with |
| `SourceSync.ContentConserved` | ingestor_orchestrator/mysql-repositories/mysql_source_resource_catalog_repository.go:124 | live content afterwards plus deletions equals live content before plus new plus revived, in the very numbers that are reported |
| `CatalogIngestion.Lake.CheckTree` | analytics/catalog_ingestion.py:111-119 | the walk over the records accepts exactly the same parent maps as the check of the synchronising worker |
| `CatalogIngestion.Lake.CheckSnapshot` | analytics/catalog_ingestion.py:98-119 | accepts exactly the well-formed snapshots |
| `CatalogIngestion.Lake.IngestSnapshot` | analytics/catalog_ingestion.py:97-250 | raises, skips or imports; after an import each listed id has the fields of its record, the others are tombstones with their old fields, each collection ever declared holds the records that name it, and other sources are left alone |
| `CatalogIngestion.MergedRow` | analytics/catalog_ingestion.py:145-172 | a listed resource has the parent, version, collection and body of its record and its title, or the derived one if it has none; the status stays if and only if a live row with a status had the same version, else it is "discovered"; all others keep their fields and become tombstones |
| `CatalogIngestion.ReplacedImports` | analytics/catalog_ingestion.py:145-250 | the replaced state of the source is, field by field, what an import leaves: rows, tombstones, declared names, collections with parent, body, sync and time of each record, and the note of the import |
| `CatalogHistory.CatalogStaysForest` | analytics/catalog_ingestion.py:97-172 | over every sequence of snapshots the stored tree, tombstones included, is closed under parents and acyclic |
| `CatalogHistory.PublicPath` | analytics/publish_lake_snapshot.py:143-153 | the path loop ends; it never raises for a resource that reaches a root, and then gives the titles from the root down |
| `CatalogHistory.ImportsConverge` | analytics/catalog_ingestion.py:133-172 | in every order with repetitions, live rows and collections are, field by field, exactly those of the newest acceptable snapshot, and tombstones exactly what it does not list of the snapshots that were the newest when they came |
| `CatalogHistory.RowsExact` | analytics/catalog_ingestion.py:133-172 | a row exists if and only if some snapshot listed it that was newer than every acceptable one before it |
| `CatalogHistory.LatestIsEnough` | analytics/catalog_ingestion.py:447-494 | importing only the newest snapshot agrees with importing all on every live row except its status, and on its collections |
| `CatalogHistory.IdentifiersKept` | analytics/catalog_ingestion.py:170-172 | no identifier is ever lost |
| `CatalogHistory.OwnTablesSafe` | analytics/catalog_ingestion.py:79-91 | over all histories, no name under which an import fills a table is one of the own tables of the catalogue |
| `CatalogHistory.SelectLatest` | analytics/catalog_ingestion.py:447-459 | one artifact per source, the greatest by collection time and then by key |
| `CatalogHistory.ImportInbox` | analytics/catalog_ingestion.py:460-500 | without an error every source that has one latest artifact ends as if exactly that one had been ingested |
| `CsvRecovery.CsvReader.ReadBatches` | ckan-ingestor-rs/ckan-ingestor-lib/src/readers/csv_reader.rs:269-291 | ends for every behaviour of the parser, the sniffer and Jev, within (C+1)(1+6+2000+1) parse attempts for at most C columns; the attempts follow the run that never refuses a repair up to where it is stopped; at most 2001 repairs are made, more than 2000 if and only if that run demands so many; a result is strict if and only if nothing was promoted or repaired, holds the rows of the last parse, and after a repair comes from a sample of the whole file |
| `CsvRecovery.CsvReader.TryReadCsv` | ckan-ingestor-rs/ckan-ingestor-lib/src/readers/csv_reader.rs:293-404 | the same for any sample, number of repairs and column types, with attempts and repairs bounded by what is left of them |
| `CsvRecovery.CsvReader.TryReadCsvPromotingColumn` | ckan-ingestor-rs/ckan-ingestor-lib/src/readers/csv_reader.rs:406-424 | one attempt less in the budget; the result is not strict |
| `CsvRecovery.CsvReader.TryReadCsvIncreasingMetadataSample` | ckan-ingestor-rs/ckan-ingestor-lib/src/readers/csv_reader.rs:426-453 | one sample less in the budget; strictness is as it was |
| `CsvRecovery.CsvReader.TryReadCsvRepairingWithJev` | ckan-ingestor-rs/ckan-ingestor-lib/src/readers/csv_reader.rs:455-540 | one repair less in the budget, refused after 2001; the result is not strict |
| `CsvRecovery.LimitExact` | ckan-ingestor-rs/ckan-ingestor-lib/src/readers/csv_reader.rs:465-471 | a run that stopped has made more than 2000 repairs if and only if, never stopped, it would |
| `CsvRecovery.RunSteps` | ckan-ingestor-rs/ckan-ingestor-lib/src/readers/csv_reader.rs:293-540 | the run is exactly a sequence of steps: a promotion makes one column text, a larger sample doubles the records or takes all and reads with the types inferred anew, a repair counts and uses new types when the header setting was corrected |
| `CsvRecovery.StoppedExact` | ckan-ingestor-rs/ckan-ingestor-lib/src/readers/csv_reader.rs:293-540 | a run stops where no step is possible, and where another repair would follow more than 2000 |
| `CsvRecovery.StubbornDemands` | ckan-ingestor-rs/ckan-ingestor-lib/src/readers/csv_reader.rs:465-471 | an answer to every wrong number of fields makes the reader go beyond the announced 2000 repairs |
| `CsvRecovery.InitialRank` | ckan-ingestor-rs/ckan-ingestor-lib/src/readers/csv_reader.rs:216-229 | the starting sample grows five times and then becomes the whole file |
| `CsvRecovery.PromotionShrinks` | ckan-ingestor-rs/ckan-ingestor-lib/src/readers/csv_reader.rs:406-424 | promoting a column that is not read as text leaves one fewer to promote |
| `CsvRecovery.BudgetShrinks` | ckan-ingestor-rs/ckan-ingestor-lib/src/readers/csv_reader.rs:426-540 | a larger sample or a repair pays for a whole new round of promotions |
| `CsvRepair.ParseCsvFields` | ckan-ingestor-rs/ckan-ingestor-lib/src/jev_csv_sniffer.rs:223-246 | the scan computes the fields, or the error of an open quote |
| `CsvRepair.FieldsExact` | ckan-ingestor-rs/ckan-ingestor-lib/src/jev_csv_sniffer.rs:223-246 | a line is refused exactly when its quotes are odd in number; otherwise it is cut at each delimiter outside of quotes, and no character but quotes is lost |
| `CsvRepair.FieldsRoundTrip` | ckan-ingestor-rs/ckan-ingestor-lib/src/jev_csv_sniffer.rs:223-257 | parsing the joined escaped fields gives the fields back, for a delimiter that is not the quote |
| `CsvRepair.EscapedExact` | ckan-ingestor-rs/ckan-ingestor-lib/src/jev_csv_sniffer.rs:247-257 | a field is written as it is unless it holds a delimiter, a quote or a line break; then it is put in quotes and only quotes are doubled |
| `CsvRepair.SameDelimiterAndQuote` | ckan-ingestor-rs/ckan-ingestor-lib/src/jev_csv_sniffer.rs:223-257 | it fails if they are the same character |
| `CsvRepair.RepairLine` | ckan-ingestor-rs/ckan-ingestor-lib/src/jev_csv_sniffer.rs:180-214 | the line is replaced, or the repair refused, exactly as its number, fields and choice allow |
| `CsvRepair.ApplyChoice` | ckan-ingestor-rs/ckan-ingestor-lib/src/jev_csv_sniffer.rs:85-95 | the choice is carried out exactly if it names neighbours, counted from 1, that the line has |
| `CsvRepair.MergeKeepsText` | ckan-ingestor-rs/ckan-ingestor-lib/src/jev_csv_sniffer.rs:198-206 | merging neighbours makes one field less with the same delimiter-joined text |
| `CsvRepair.RepairMeaning` | ckan-ingestor-rs/ckan-ingestor-lib/src/jev_csv_sniffer.rs:180-214 | the chosen line parses to its old fields with the two neighbours, at their place, made one by the delimiter; every other line is unchanged |
| `CsvRepair.WriteThenRead` | ckan-ingestor-rs/ckan-ingestor-lib/src/jev_csv_sniffer.rs:207-324 | written lines are read back as they are if and only if the last is not empty and no earlier one ends in a carriage return |
| `CsvRepair.LostLines` | ckan-ingestor-rs/ckan-ingestor-lib/src/jev_csv_sniffer.rs:212-323 | a carriage return at a line end and an empty last line are lost |
| `CsvRepair.RepairedLineIsPhysical` | ckan-ingestor-rs/ckan-ingestor-lib/src/jev_csv_sniffer.rs:180-257 | a repaired line has no line break and is not empty |
| `CsvRepair.RepairedFileReadsBack` | ckan-ingestor-rs/ckan-ingestor-lib/src/jev_csv_sniffer.rs:180-324 | reading the repaired file gives the repaired lines |
| `FieldIds.UniqueName` | ckan-ingestor-rs/ckan-ingestor-lib/src/parquet_output.rs:180-201 | the search ends within one try more than there are names, on the first free candidate |
| `FieldIds.AssignFields` | ckan-ingestor-rs/ckan-ingestor-lib/src/parquet_output.rs:178-203 | siblings are processed in order, numbered on in preorder and given their first free names |
| `FieldIds.SchemaWithFieldIds` | ckan-ingestor-rs/ckan-ingestor-lib/src/parquet_output.rs:177-244 | only types, ids and names change; numbers start at 1 |
| `FieldIds.FinishedSchema` | ckan-ingestor-rs/ckan-ingestor-lib/src/parquet_output.rs:177-244 | the ids are exactly 1 to size in preorder; names at the top and in every struct are non-blank and distinct ignoring case |
| `FieldIds.NameExact` | ckan-ingestor-rs/ckan-ingestor-lib/src/parquet_output.rs:180-201 | the name of a field is the given one, or `column_` and its place if that is blank; if it is used, the first free one with `__2`, `__3` and so on |
| `FieldIds.WellNamedDistinct` | ckan-ingestor-rs/ckan-ingestor-lib/src/parquet_output.rs:180-201 | every field of a finished schema has a name that is not blank and differs from all its siblings ignoring case |
| `FieldIds.SchemaIdempotent` | ckan-ingestor-rs/ckan-ingestor-lib/src/parquet_output.rs:177-244 | processing a finished schema once more returns it unchanged |
| `SchemaUnion.UnionIsJoin` | ckan-ingestor-rs/ckan-worker-coordinator/src/child_merge.rs:46-64 | the fold over all columns gives each name the join of its columns: their type if they agree, else text, and always nullable |
| `SchemaUnion.UnionIgnoresOrder` | ckan-ingestor-rs/ckan-worker-coordinator/src/child_merge.rs:38-64 | the union does not depend on the order or repetition of children |
| `SchemaUnion.ColumnsWiden` | ckan-ingestor-rs/ckan-worker-coordinator/src/child_merge.rs:46-64 | every child column keeps its type or becomes text |
| `SchemaUnion.FreshSourceName` | ckan-ingestor-rs/ckan-worker-coordinator/src/child_merge.rs:65-80 | the search for the source column ends within the number of fields+1 tries on the first unused name |
| `SchemaUnion.AcceptedConverts` | ckan-ingestor-rs/ckan-worker-coordinator/src/child_merge.rs:194-217 | a value of a child column always converts to its column of the union |
| `SchemaUnion.OutCellBecomes` | ckan-ingestor-rs/ckan-worker-coordinator/src/child_merge.rs:194-217 | a value of the right type is kept, another one is cast if there is a cast and else becomes its text; a missing column gives nothing |
| `SchemaUnion.MergedExact` | ckan-ingestor-rs/ckan-worker-coordinator/src/child_merge.rs:38-64 | the merged columns are the names of the union in ascending order, each once with its type |
| `SchemaUnion.WriteFile` | ckan-ingestor-rs/ckan-worker-coordinator/src/child_merge.rs:100-148 | a file is rewritten row by row: no conversion fails, no row is lost or added, and each value is the one of its column |
| `ChildMerge.NormalizeChildren` | ckan-ingestor-rs/ckan-worker-coordinator/src/child_merge.rs:32-169 | succeeds if and only if every child has a file and all are plain or all geographic with equal metadata; the schema is the union, and each output holds the rows of its child in order, with its source in the source column and its own value in every other |
| `CrawlerAggregate.SchemaAccumulator.Add` | ckan-ingestor-rs/ckan-ingestor-lib/src/readers/crawler_aggregate.rs:50-93 | accepts exactly the files that the merge of children accepts together with those before |
| `CrawlerAggregate.SchemaAccumulator.Build` | ckan-ingestor-rs/ckan-ingestor-lib/src/readers/crawler_aggregate.rs:95-133 | gives the same schema and source column as the merge of children |
| `CrawlerAggregate.NameConflict` | ckan-ingestor-rs/ckan-ingestor-lib/src/readers/crawler_aggregate.rs:95-193 | a file whose only column is `name` is accepted and gets a writer, and is appended if and only if the column is text |
| `CrawlerAggregate.AggregateWriter.Append` | ckan-ingestor-rs/ckan-ingestor-lib/src/readers/crawler_aggregate.rs:161-193 | appends the rows of the file in order, each value that of its column, the source in the source column and the file name in a replaced column "name"; it fails exactly when that column is not text |
| `ArchiveVisit.VisitZip` | ckan-ingestor-rs/ckan-ingestor-lib/src/readers/crawler_archive.rs:82-98 | succeeds if and only if the whole tree is within depth, entries, expanded size and archive size; it then visits the matching members once each in preorder and returns their number; otherwise the visits are a prefix of that preorder |
| `ArchiveVisit.VisitZipInner` | ckan-ingestor-rs/ckan-ingestor-lib/src/readers/crawler_archive.rs:100-181 | the same from any depth and any part of the budgets used, and how much of them it uses |
| `ArchiveVisit.VisitMember` | ckan-ingestor-rs/ckan-ingestor-lib/src/readers/crawler_archive.rs:119-178 | one member: refused, entered, visited or passed over |
| `ArchiveVisit.NextMember` | ckan-ingestor-rs/ckan-ingestor-lib/src/readers/crawler_archive.rs:100-181 | the limits for a list of members are those for each member after the ones before it |
| `ArchiveVisit.FormatsExact` | ckan-ingestor-rs/ckan-ingestor-lib/src/readers/crawler_archive.rs:183-203 | the first rule whose word occurs in the format decides by the ending of the name; without one nothing matches |
| `ArchiveVisit.SmallTreeCosts` | ckan-ingestor-rs/ckan-ingestor-lib/src/readers/crawler_archive.rs:100-181 | costs and visits of a tree with a folder, a nested archive and wanted and unwanted files, in numbers and paths |
| `DriveCollector.CollectDriveFiles` | ckan-ingestor-rs/ckan-ingestor-lib/src/readers/external_resource_crawler_reader.rs:698-742 | ends on every finite, possibly cyclic Drive; fails if and only if a link leads nowhere; else returns without duplicates exactly the files of the format reachable from the links |
| `DriveCollector.ClosedSetHasPath` | ckan-ingestor-rs/ckan-ingestor-lib/src/readers/external_resource_crawler_reader.rs:698-742 | a set that has the links and is closed under listing has everything reachable |
| `DriveCollector.NothingAwaited` | ckan-ingestor-rs/ckan-ingestor-lib/src/readers/external_resource_crawler_reader.rs:698-742 | an empty worklist means that exactly the wanted files were taken |
| `DiscoveryCache.DealInverts` | ckan-ingestor-rs/ckan-ingestor-lib/src/readers/external_resource_crawler_reader.rs:241-318 | dealing out the three partitions in the stored order gives the mixed list back |
| `DiscoveryCache.DealDeterminesParts` | ckan-ingestor-rs/ckan-ingestor-lib/src/readers/external_resource_crawler_reader.rs:262-286 | a list that could be dealt out has exactly the stored order and partitions |
| `DiscoveryCache.PartsExact` | ckan-ingestor-rs/ckan-ingestor-lib/src/readers/external_resource_crawler_reader.rs:288-318 | the partitions hold the pages, the archives and the Drive files, each once; the order tells the kind of each source |
| `DiscoveryCache.ReadExact` | ckan-ingestor-rs/ckan-ingestor-lib/src/readers/external_resource_crawler_reader.rs:241-286 | a list is read if and only if the manifest holds its order and the three partitions of its generation are its own |
| `DiscoveryCache.Storage.StoreDiscovery` | ckan-ingestor-rs/ckan-ingestor-lib/src/readers/external_resource_crawler_reader.rs:288-318 | partition by partition and then the manifest, as far as the process lives: which objects are written, what they hold, and that no other changes |
| `DiscoveryCache.Storage.CachedDiscovery` | ckan-ingestor-rs/ckan-ingestor-lib/src/readers/external_resource_crawler_reader.rs:241-286 | nothing without a manifest or for a spoilt one, else the dealt-out list |
| `DiscoveryCache.StoreThenRead` | ckan-ingestor-rs/ckan-ingestor-lib/src/readers/external_resource_crawler_reader.rs:241-318 | a stored discovery is read back identically, whatever was in the store |
| `DiscoveryCache.ReaderSeesOneWriter` | ckan-ingestor-rs/ckan-ingestor-lib/src/readers/external_resource_crawler_reader.rs:241-318 | under every interleaving of crashing writers with fresh generations a reader gets nothing or the complete list of the writer whose manifest it read |
| `Publication.Bucket.PublishSnapshot` | analytics/publish_lake_snapshot.py:405-457 | catalogue, index, manifest and `latest.json`, as far as the budget goes, with their contents; the predecessor is the latest publication, and a repeated publication keeps the one it had |
| `Publication.Bucket.PrunePublications` | analytics/publish_lake_snapshot.py:493-504 | the objects after any number of its deletions, three per expendable publication in order |
| `Publication.PruneExact` | analytics/publish_lake_snapshot.py:460-504 | a pruning that is not cut off removes the three objects of exactly the publications with a manifest that are neither current nor previous and older than 48 h 15 min, and nothing else |
| `Publication.DeletePlanOrder` | analytics/publish_lake_snapshot.py:493-504 | publication after publication, and of each the catalogue, the manifest and then the index |
| `Publication.Bucket.ProtectedFiles` | analytics/publish_lake_snapshot.py:507-519 | the union of the indexes of the visible publications; an error exactly if one is missing |
| `Publication.PublishPlanSafe` | analytics/publish_lake_snapshot.py:405-457 | every prefix of the writes of a publication keeps the bucket consistent |
| `Publication.DeletePlanSafe` | analytics/publish_lake_snapshot.py:493-504 | so does every prefix of the deletions |
| `ExplorerRuns.AlwaysConsistent` | analytics/publish_lake_snapshot.py:405-519 | in every reachable state each visible manifest has its index, and the latest publication and its predecessor are whole |
| `ExplorerRuns.SessionsKeepTheirCatalog` | lake-explorer/worker/index.ts:54-95 | over all runs of publishing, pruning and answering requests step by step, with any time in between and two clocks, a session that ends in time has its catalogue as long as it is valid |
| `ExplorerRuns.SigningTime` | lake-explorer/worker/index.ts:78-90 | in time means: the clock at signing, in whole seconds, is at most 48 h and a microsecond after the creation, less the skew of the clocks |
| `SessionLimits.SessionExact` | analytics/publish_lake_snapshot.py:460-504 | the condition is exact: all ways in which a run can go on keep the catalogue of a valid session if and only if the session is in time |
| `SessionLimits.SessionOutlivesCatalog` | lake-explorer/worker/index.ts:58-78 | a run in which a millisecond between age test and signature lets a session outlive its catalogue, although publications are current or previous for at most 48 h |
| `ExplorerRuns.LatencyExact` | lake-explorer/worker/index.ts:58-78 | no bound on that delay helps: only a delay of zero makes every session in time |
| `ExplorerRuns.PromptSessionsInTime` | lake-explorer/worker/index.ts:54-95 | with one clock, publications displaced within 48 h and requests signed in the instant of their admission, every session is in time and keeps its catalogue |
| `ExplorerRuns.ExpiryWithinRetention` | lake-explorer/worker/index.ts:58-90 | a session signed while the age test holds ends within 48 h 15 min of the creation |
| `ExplorerRuns.RetentionExact` | analytics/publish_lake_snapshot.py:460-467 | for such requests the exact bound on the moment at which a publication is displaced |
| `OracleMerge.SplitExpressions` | ingestor_orchestrator/oracle-repositories/merge.go:60-84 | the scan splits at the commas outside of parentheses and quotes and trims |
| `OracleMerge.SplitInvertsJoin` | ingestor_orchestrator/oracle-repositories/merge.go:60-84 | splitting inverts comma-joining of balanced expressions |
| `OracleMerge.RewriteReference` | ingestor_orchestrator/oracle-repositories/merge.go:47-49 | a reference to a proposed value is rewritten to its own source column and to no other |
| `OracleMerge.BuildMerge` | ingestor_orchestrator/oracle-repositories/merge.go:24-58 | left alone exactly if the numbers of values and columns differ or the table has no keys; else the text of the MERGE statement |
| `OracleText.MergeSql` | ingestor_orchestrator/oracle-repositories/merge.go:9-59 | the whole rewriting of a statement, from the cuts of its text on; what the text then says is read back in `OracleReading` |
| `OracleText.CutUpsert` | ingestor_orchestrator/oracle-repositories/merge.go:10-23 | an upsert or INSERT IGNORE is cut into the very parts it was written from |
| `OracleText.UpsertForm` | ingestor_orchestrator/oracle-repositories/tx.go:92-115 | the form of the statements that are rewritten, in full: ignored on a conflict if there are no assignments |
| `OracleTranslation.MergeOfUpsert` | ingestor_orchestrator/oracle-repositories/merge.go:9-59 | every upsert of the supported form becomes the MERGE statement with its values, keys and assignments |
| `OracleTranslation.OthersUntouched` | ingestor_orchestrator/oracle-repositories/merge.go:10-14 | every other statement is left as it is |
| `OracleReading.ReadsBack` | ingestor_orchestrator/oracle-repositories/merge.go:28-58 | a reader of MERGE statements, written apart from the writer, gives back the table, the source columns, the pairs compared, target against source, the assignments and the inserted columns |
| `OracleEffect.OrderIrrelevant` | ingestor_orchestrator/oracle-repositories/merge.go:42-53 | assigning the columns in order and at once is the same |
| `OracleEffect.MergeKeepsEffect` | ingestor_orchestrator/oracle-repositories/merge.go:28-58 | on every keyed table the MERGE statement does what its upsert did if and only if the row is not new with its other unique index taken |
| `OracleEffect.IndexesAre` | ingestor_orchestrator/oracle-repositories/merge.go:41-58 | the columns that a statement compares are a unique index of its table, and there is at most one other |
| `OracleOutcome.SentIsRead` | ingestor_orchestrator/oracle-repositories/merge.go:9-59 | the text sent for an upsert is read as: each value under its own column, the keys of the table, target against source, each assignment with its own operand, each column filled from its own |
| `OracleOutcome.SentKeepsEffect` | ingestor_orchestrator/oracle-repositories/merge.go:9-59 | the text that is sent, as it is read, does to every keyed table what the upsert did if and only if the row is not new with its other unique index taken |
| `OracleOutcome.HintExample` | ingestor_orchestrator/oracle-repositories/tx.go:114 | the statement that stores a delimiter and its MERGE statement, letter by letter |
| `OracleEffect.TakenIdExample` | ingestor_orchestrator/oracle-repositories/tx.go:102 | the statement that adds a label, should its random id repeat: ignored by MySQL, refused by Oracle |
| `OracleEffect.KeysKept` | ingestor_orchestrator/oracle-repositories/merge.go:41-58 | the table keeps at most one row for each key |
| `OracleEffect.RowHolds` | ingestor_orchestrator/oracle-repositories/merge.go:32-58 | each column holds its own value afterwards |
| `OracleDialect.BindArgs` | ingestor_orchestrator/oracle-repositories/dialect.go:60-79 | the arguments in order, under distinct names, a status as its text, a flag as a number, a long text as a large object |
| `OracleDialect.BytesCounted` | ingestor_orchestrator/oracle-repositories/dialect.go:60-79 | the length that decides about a large object is the number of bytes of the UTF-8 encoding |
| `OracleDialect.NumberPlaceholders` | ingestor_orchestrator/oracle-repositories/dialect.go:32-50 | the loop, with its skip over doubled quotes, numbers the unquoted question marks in order |
| `OracleDialect.RenumberConcat` | ingestor_orchestrator/oracle-repositories/dialect.go:32-50 | numbering goes through a concatenation from left to right |
| `OracleDialect.PlaceholderName` | ingestor_orchestrator/oracle-repositories/dialect.go:44-46 | an unquoted placeholder gets the name of the argument at its place |
| `OracleDialect.TextKept` | ingestor_orchestrator/oracle-repositories/dialect.go:36-43 | a text in quotes is left alone, with the question marks in it, and the numbering goes on behind it |
| `OracleBinding.UpsertNumbered` | ingestor_orchestrator/oracle-repositories/dialect.go:32-50 | numbering an upsert numbers its expressions, values first |
| `OracleBinding.MergeNumbered` | ingestor_orchestrator/oracle-repositories/dialect.go:32-50 | numbering its MERGE statement gives every expression the same names |
| `OracleBinding.NamesFillPositions` | ingestor_orchestrator/oracle-repositories/dialect.go:32-79 | filling the numbered statement by name is filling the statement by position |
| `OracleBinding.OracleSql` | ingestor_orchestrator/oracle-repositories/dialect.go:21-51 | rewriting followed by numbering |
| `OracleBinding.ArgumentsKept` | ingestor_orchestrator/oracle-repositories/dialect.go:21-79 | the statement sent, with arguments bound by name, is the MERGE statement of the upsert with the same arguments bound by position |

## Left out

- Network, S3, Iggy, DuckDB, DuckLake and database drivers, TLS, JWT signing, the web interface, dashboards and configuration: stores are maps, drivers have no state of their own here.
- Arrow, Parquet, GeoParquet, gzip and ZIP formats: a schema is a tree of named types, a batch a sequence of rows, an archive a tree of members with declared sizes.
- ParquetProcessor.Processor.ProcessChild: does not model the texts of interpolated errors, the fields `reader`, `preview`, `resource_url`, `instance_id`, or the merge itself, whose outcome is given; the merge is in `ChildMerge` and `ParquetRegistrar`, and its steps in the runs of `CoordinatorRuns`.
- ChildJobs.ChildJobs.Group: numbers are unbounded, so overflow of 32-bit indices and of row sums is not modelled; a stored artifact always parses.
- CoordinatorRuns.SuccessOnlyWhenComplete: the runs answer child results only, other results appear as the tables they create; the number of children of a parent is fixed over its results, and one read of the table of results sees all rows written before it.
- CoordinatorFailures.NoSuccessAfterFailure: for deliveries that do not overlap, as the code itself does not keep a success from following a failure; recovery of a parent after a failure is not claimed.
- CoordinatorTables.SuccessIsRegistered: the files that a merge registers are as many as its children; that their rows are those of the children is in `ChildMerge`. A commit that succeeds but is reported as an error counts as a crash.
- ParquetRegistrar.RegistrationConverges: deliveries are registered one after the other; `OvertakingExact` is about registrars that interleave, whatever the store does about conflicting commits.
- ParquetRegistrar.Registrar.Register: schema decoding, statistics and source tags are not modelled.
- JobFanout.FanOutStable: for children with distinct ids; with repeated ids the order of discovery would remain.
- JobFanout.JobIdentity: for parents whose job id determines their resource.
- CatalogRows.Catalog.ObserveBatch: MySQL collation, text lengths and timestamps are not modelled; a deletion time is a flag, and the absent parent is the empty text.
- SourceSync.CrashRecovery: the ledger of finished jobs does not change between the attempts.
- SourceSync.ContentConserved: for resources that keep their kind, since new datasets count root collections only while deleted datasets count all.
- SourceSync.Worker.Sync: the lock on the source, the adapter, publishing of the messages and of the snapshot are outside of it.
- CatalogIngestion.Lake.IngestSnapshot: `catalog_sources`, progress events and table links are not modelled; a failing import is refused before it writes, as its transaction is rolled back.
- CatalogHistory.ImportInbox: sources are imported in any order instead of by collection time, as each has one snapshot; artifacts are parsed.
- CsvRecovery.CsvReader.ReadBatches: a type mismatch names a column that is not read as text, as the parser has nothing to mismatch in text; encodings and temporary files are not modelled.
- CsvRepair.ApplyChoice: works on decoded lines and on the two numbers of the choice; the questions to Jev, the format of the choice and the checks of the other answers are not modelled.
- FieldIds.SchemaWithFieldIds: letter folding works character by character, is the identity on ASCII digits and `_`, and a name of the form `column_N` is not blank; the final sigma of Unicode and 32-bit ids are not modelled.
- SchemaUnion.WriteFile: which casts there are depends on the two types only, and what they make of a value is an arbitrary function; batch sizes of the writer are not kept.
- ChildMerge.NormalizeChildren: column names are distinct within one child; names of different children that differ only in case stay different here, while the writer of the file renames the later one.
- ArchiveVisit.VisitZip: the size of a member is the declared one, and the visitor never fails.
- DriveCollector.CollectDriveFiles: the Drive does not change during the walk, and holds everything that it lists.
- DiscoveryCache.ReadExact: for partitions that hold sources of their kind only.
- DiscoveryCache.Storage.CachedDiscovery: freshness by wall clock is not modelled; the depth-limited page crawl, HTML and URL parsing and WARC files are not part of this model.
- ExplorerRuns.AlwaysConsistent: one publisher at a time; uploads are verified, identifiers have the admitted characters, and a name has one creation time.
- ExplorerRuns.SessionsKeepTheirCatalog: a session is honoured by the true time, from which the clocks of publisher and worker differ by at most `skew`; rate limits, the scope of a token and refusals without effect are not steps.
- SessionLimits.SessionExact: for a publication whose manifest is still visible, and with two other publications to be made.
- OracleText.MergeSql: white space is ASCII; a statement on which the source would slice out of range is excluded.
- OracleTranslation.MergeOfUpsert: for the form of the repository's own statements: balanced values without the phrases at which the text is cut, known tables, lower-case columns, assignments of a proposed value or of a text without references.
- OracleOutcome.SentKeepsEffect: for values that are not empty and whose parentheses close in order, and for assignments of texts that are not the name of a column with its row and do not hold the phrase that starts the insertion, as in all statements of the repository.
- OracleEffect.MergeKeepsEffect: NULL, empty texts and collation of the databases are not modelled, values are compared as equal texts, an assignment does not read the old row, and an upsert with assignments goes to a table with one unique index, as all of the repository's do.
- OracleBinding.OracleSql: the replacements of time functions, boolean sums and pagination are not modelled.
- OracleBinding.NamesFillPositions: for statements without a colon outside of quotes and without a letter or digit right after a placeholder.
- The Oracle copy of the catalogue repository repeats the logic of `CatalogRows`; read-only queries, migrations and locks are not part of this model.
