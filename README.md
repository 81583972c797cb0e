# ec2-cost-analysis: the instance aggregation, modelled in Dafny

This project models the in-memory core of the `ec2-cost-analysis` reporting tool (`main.go`).
The tool lists running EC2 instances and reads each one's `Role` and `Environment` tags. It
then groups the instances into per-role report rows of (environment, instance type, count).
The model covers:

- **Extraction** (`Inventory`, file `inventory.dfy`): the loop inside `DescribeInstances`.
  It walks already-fetched pages of reservations and instances. It writes every instance's
  type into a single reused `RawData` value. For an instance in state `"running"` it then
  reads that instance's tags into the value and appends a copy.
- **Order-preserving deduplication** (`Unique`, file `unique.dfy`): `GenerateUniqueStringSlice`,
  with its seen-map and output slice.
- **Aggregation** (`Report`, file `report.dfy`): `GetRoles`, `GetEnvironments` and
  `GenerateCSVData`.
- **Shared definitions**: the record types are in `types.dfy` (`Types`). Sequence helpers,
  such as the last element and occurrence counts, are in `seqs.dfy` (`Seqs`).

Every Go function is a `method` with the same loops. Each method is proved equal to a
recursive specification function. The recursion peels elements off the end of the input,
matching loops that walk front to back and append. The source's promises are then proved as
lemmas about those functions, against reference definitions written directly over the
records, such as `multiset(d)` counts, "some record has this role and environment", and "the
last tag with this key".

`GenerateCSVData` keeps its structure: a loop over roles, then over environments. Three of
its inner loops are separate methods so that each proof stays small:

- `CollectRoleBucket`: the filter of the records by role (main.go:106-113).
- `ScanEnvironment`: the per-environment scan (main.go:116-135).
- `CountMatches`: the count loop that collects matches into `t` (main.go:125-132).

`DescribeInstances` is split the same way: `ExtractInstances` is the loop over one
reservation's instances, and `ReadTags` is the loop over one instance's tags.

The model follows the code as written. In two places the code evidently does not do what it
was written to do; both are listed under "## Findings", with the behaviour as written and a
corrected definition side by side:

- With the environments `GetEnvironments` derives, `GenerateCSVData` emits at most one row
  per (role, environment). That row holds only the distinct type whose first occurrence comes
  last in that bucket (the last element of `Dedup` of the bucket's types). The loop at
  main.go:124-133 computes a type and a count for every distinct type, and each iteration
  overwrites the previous one's, so all but the last are lost; the corrected report keeps
  one row per (role, environment, type).
- A running instance without a `Role` or `Environment` tag keeps the value of an earlier
  running instance. Every other per-item value in this file is declared fresh inside its loop
  (`csvData` and `tempCSVdata` at main.go:102-103, `tempData` at main.go:107, `finalData` at
  main.go:117), but `rawData` is declared once before all loops (main.go:59); the corrected
  extraction starts each instance from an empty record, so a missing tag reads as `""`.

## Model

| member | source | states |
|---|---|---|
| `Unique.Dedup` | ec2-cost-analysis/src/ec2-cost-analysis/main.go:145-155 | the result has no duplicates, holds exactly the input's values, is no longer than the input, and is empty iff the input is |
| `Unique.GenerateUniqueStringSlice` | ec2-cost-analysis/src/ec2-cost-analysis/main.go:145-155 | the seen-map loop returns exactly `Dedup` of its input |
| `Unique.DedupKeepsFirstOccurrenceOrder` | ec2-cost-analysis/src/ec2-cost-analysis/main.go:148-153 | values come out in the order of their first occurrences in the input |
| `Unique.FirstIndex` | ec2-cost-analysis/src/ec2-cost-analysis/main.go:145-155 | helper used to state the output order: the index found holds the value and no earlier index does (first occurrence) |
| `Unique.DedupOfDistinct` | ec2-cost-analysis/src/ec2-cost-analysis/main.go:145-155 | an input without duplicates is returned unchanged |
| `Unique.DedupIdempotent` | ec2-cost-analysis/src/ec2-cost-analysis/main.go:145-155 | deduplicating twice equals deduplicating once |
| `Seqs.CountPositive` | ec2-cost-analysis/src/ec2-cost-analysis/main.go:127-132 | a value is counted at least once iff it occurs |
| `Report.GetRoles` | ec2-cost-analysis/src/ec2-cost-analysis/main.go:157-164 | the result is `Dedup` of the records' roles: no duplicates, each value some record's role and every record's role present, empty for no records |
| `Report.GetEnvironments` | ec2-cost-analysis/src/ec2-cost-analysis/main.go:166-173 | the same for the environments |
| `Report.CollectRoleBucket` | ec2-cost-analysis/src/ec2-cost-analysis/main.go:106-113 | the bucket is the role's records as (environment, type, 0) rows, in input order |
| `Report.CountMatches` | ec2-cost-analysis/src/ec2-cost-analysis/main.go:125-132 | the length of the collected slice is the number of occurrences of the type |
| `Report.ScanEnvironment` | ec2-cost-analysis/src/ec2-cost-analysis/main.go:116-135 | the row left after scanning a bucket for one environment is `FinalData` of that environment's type list |
| `Report.FinalData` | ec2-cost-analysis/src/ec2-cost-analysis/main.go:116-136 | the row's count is positive iff the environment has at least one type in the bucket |
| `Report.GenerateCSVData` | ec2-cost-analysis/src/ec2-cost-analysis/main.go:98-143 | the nested loops return exactly `Aggregate` of the records, roles and environments |
| `Report.Aggregate` | ec2-cost-analysis/src/ec2-cost-analysis/main.go:98-143 | exactly one entry per listed role, entry i has role `roles[i]` and that role's rows (`Report.NoRecordsNoRows` shows such an entry is empty when the role has no records) |
| `Report.BucketTypes` | ec2-cost-analysis/src/ec2-cost-analysis/main.go:106-120 | a role's bucket restricted to one environment gives exactly the types of the records with that role and environment, in input order |
| `Report.TypesInCount` | ec2-cost-analysis/src/ec2-cost-analysis/main.go:118-132 | counting a type in that list counts the records with exactly that role, environment and type |
| `Report.TypesInMembers` | ec2-cost-analysis/src/ec2-cost-analysis/main.go:106-120 | a type is in a role's list for an environment iff a record with that type, role and environment exists |
| `Report.PresentEnvironments` | ec2-cost-analysis/src/ec2-cost-analysis/main.go:115-139 | the listed environments in which the role has a record: membership iff listed and present |
| `Report.PresentEnvironmentsDistinct` | ec2-cost-analysis/src/ec2-cost-analysis/main.go:115-139 | that filter keeps a duplicate-free environment list duplicate-free |
| `Report.RowEnvironments` | ec2-cost-analysis/src/ec2-cost-analysis/main.go:115-139 | the environments of a role's rows are exactly the listed environments in which the role has a record, in the listed order |
| `Report.RowFacts` | ec2-cost-analysis/src/ec2-cost-analysis/main.go:115-137 | each row's environment is listed and has records of the role; its type is the last distinct type of that bucket; its count is at least 1 and equals the number of records with that role, environment and type |
| `Report.RowExistsIff` | ec2-cost-analysis/src/ec2-cost-analysis/main.go:115-139 | a role has a row for an environment iff the environment is listed and some record has that role and environment |
| `Report.AtMostOneRowPerEnvironment` | ec2-cost-analysis/src/ec2-cost-analysis/main.go:115-139 | with distinct listed environments, no two rows of a role share an environment |
| `Report.NoPresentEnvironments` | ec2-cost-analysis/src/ec2-cost-analysis/main.go:115-139 | a role without records is present in no listed environment |
| `Report.NoRecordsNoRows` | ec2-cost-analysis/src/ec2-cost-analysis/main.go:101-140 | a role that no record has gets an entry with no rows |
| `Report.DroppedTypes` | ec2-cost-analysis/src/ec2-cost-analysis/main.go:118-133 | any type of a bucket other than its last distinct one has no row |
| `Report.TwoTypesOneRow` | ec2-cost-analysis/src/ec2-cost-analysis/main.go:118-137 | for records (t2.micro, web, prod) and (t3.large, web, prod) the report is the single row (prod, t3.large, 1) |
| `Report.EveryRecordHasItsRow` | ec2-cost-analysis/src/ec2-cost-analysis/main.go:302-305 | with the lists `GetRoles` and `GetEnvironments` derive, every record's role is listed and its entry has a row for the record's environment, empty tags included |
| `Report.IntendedRowsCounted` | ec2-cost-analysis/src/ec2-cost-analysis/main.go:115-139 | every intended row's environment is listed, and its count is at least 1 and equals the number of records with that role, environment and type |
| `Report.TypeRowsCover` | ec2-cost-analysis/src/ec2-cost-analysis/main.go:118-133 | every type the role has in an environment gets a row among that environment's intended rows |
| `Report.IntendedRowsComplete` | ec2-cost-analysis/src/ec2-cost-analysis/main.go:115-139 | every record of the role in a listed environment has its (environment, type) row among the intended rows |
| `Report.IntendedRowsDistinct` | ec2-cost-analysis/src/ec2-cost-analysis/main.go:115-139 | with distinct listed environments, no (environment, type) pair has two intended rows |
| `Report.IntendedRowsOnce` | ec2-cost-analysis/src/ec2-cost-analysis/main.go:115-139 | with distinct listed environments, a record of the role in a listed environment has exactly one intended row, counting the records equal to it |
| `Report.IntendedReportCountsEveryRecord` | ec2-cost-analysis/src/ec2-cost-analysis/main.go:98-143 | with the lists `GetRoles` and `GetEnvironments` derive, the corrected report counts every record in exactly one row (one role entry, one row), and that row's count is the number of records equal to it |
| `Report.TwoTypesTwoRows` | ec2-cost-analysis/src/ec2-cost-analysis/main.go:115-139 | for the same two records the intended report has both rows (prod, t2.micro, 1) and (prod, t3.large, 1) |
| `Inventory.DescribeInstances` | ec2-cost-analysis/src/ec2-cost-analysis/main.go:57-95 | the page, reservation, instance and tag loops return exactly `Records` of the flattened instance sequence, so only the concatenation of the pages matters |
| `Inventory.LastIndexOf` | ec2-cost-analysis/src/ec2-cost-analysis/main.go:81-87 | the position found holds a tag with the key and no later tag has it; -1 only when no tag has it |
| `Inventory.LastValueOrMeaning` | ec2-cost-analysis/src/ec2-cost-analysis/main.go:81-87 | the value read for a key is the default when no tag has the key, else the value of the last tag with the key (last write wins) |
| `Inventory.LastValueOrAppend` | ec2-cost-analysis/src/ec2-cost-analysis/main.go:81-87 | reading two tag lists one after the other, the later list wins where it has the key |
| `Inventory.ReadTags` | ec2-cost-analysis/src/ec2-cost-analysis/main.go:81-87 | the tag loop leaves exactly `ApplyTags` of the record and the instance's tags |
| `Inventory.ExtractInstances` | ec2-cost-analysis/src/ec2-cost-analysis/main.go:74-89 | continuing from the record and record list of the instances seen so far, the instance loop leaves those of the seen instances followed by this reservation's |
| `Inventory.ApplyTagsReads` | ec2-cost-analysis/src/ec2-cost-analysis/main.go:81-87 | writing an instance's tags keeps the type and sets role and environment to the last matching tag, else leaves them as they were |
| `Inventory.FinalReads` | ec2-cost-analysis/src/ec2-cost-analysis/main.go:59-89 | the reused record holds the last Role and Environment tag values over all running instances so far, "" if none |
| `Inventory.RecordsAreSnapshots` | ec2-cost-analysis/src/ec2-cost-analysis/main.go:59-89 | one record per running instance, in order, with that instance's type and the last Role and Environment values among the running instances up to it ("" if none) |
| `Inventory.NewestSnapshot` | ec2-cost-analysis/src/ec2-cost-analysis/main.go:75-88 | the copy appended for a running instance is the snapshot at that instance's own position |
| `Inventory.NonRunningIgnored` | ec2-cost-analysis/src/ec2-cost-analysis/main.go:77-79 | an instance that is not running adds no record |
| `Inventory.UntaggedInheritsTags` | ec2-cost-analysis/src/ec2-cost-analysis/main.go:59-89 | an untagged running instance after one tagged web/prod is recorded as web/prod; the intended record is ""/"" |
| `Inventory.RunningOnly` | ec2-cost-analysis/src/ec2-cost-analysis/main.go:74-79 | the running instances: each is running, and an instance is kept iff it is among the input and running |
| `Inventory.FullyTaggedAsIntended` | ec2-cost-analysis/src/ec2-cost-analysis/main.go:59-89 | when every running instance has both a Role and an Environment tag, the records as written equal the corrected fresh-record ones, so the reused record matters only through missing tags |
| `Inventory.IntendedUntagged` | ec2-cost-analysis/src/ec2-cost-analysis/main.go:81-88 | under the intended extraction an untagged running instance has role "" and environment "" |

## Left out

- `pricing.go` is not part of this model. It makes an HTTP request, decodes JSON and parses floating-point strings.
- `GenerateCSV` is not part of this model. It multiplies floating-point rates, formats them with `%.2f`, builds a timestamped file name and writes a CSV file.
- `UploadToS3`, `Handler`, `NewAwsClient`, `usage` and `main` are not modelled. They are S3, logging, process-exit and flag-parsing plumbing.
- `Inventory.DescribeInstances` leaves out the SDK calls to fetch pages, the `NextToken` pagination control and the error return ("Could not get instance details : …"). Pages are given as already-fetched values, so no page fetch can fail.
- `aws.StringValue` turns nil pointers into `""`. The model's instance fields are plain strings, so a nil field is modelled as `""`.
- A nil `State` pointer makes main.go:77 dereference nil and panic. The model's instance always has a state, so that panic is not modelled.
- `Types.Data.instanceCount` is an unbounded integer. Go's `int` cannot overflow here, because a count never exceeds the number of records.
- Go's distinction between a nil slice and an empty slice is not modelled. For example, `GenerateCSVData` with no roles returns nil, and the model returns `[]`.

## Findings

| source | as written | input that shows it | evidently intended | confidence | as-written member | corrected member |
|---|---|---|---|---|---|---|
| ec2-cost-analysis/src/ec2-cost-analysis/main.go:118-134 | `finalData` is overwritten for every distinct type, so a (role, environment) bucket yields one row, for the distinct type whose first occurrence comes last (the last element of `Dedup` of the bucket's types); the other types' instances appear in no row | records (t2.micro, web, prod) and (t3.large, web, prod), roles [web], environments [prod]: the report is only (prod, t3.large, 1) | one row per distinct type of each bucket, with its count, so that every instance is counted (proved in `Report.IntendedReportCountsEveryRecord`, from `Report.IntendedRowsCounted`, `Report.IntendedRowsComplete` and `Report.IntendedRowsDistinct`) | high; not executed | `Report.TwoTypesOneRow` | `Report.IntendedAggregate` |
| ec2-cost-analysis/src/ec2-cost-analysis/main.go:59 | `rawData` is declared once outside the loops, so a running instance without a Role or Environment tag keeps an earlier instance's value | running t2.micro tagged Role=web, Environment=prod, then running t3.large with no tags: the second record is (t3.large, web, prod) | a fresh record per instance, with "" for a missing tag (proved in `Inventory.IntendedUntagged`; `Inventory.FullyTaggedAsIntended` shows it agrees with the code whenever no tag is missing) | medium; not executed | `Inventory.UntaggedInheritsTags` | `Inventory.IntendedRecords` |
