# atlas-cli status engine, modelled in Dafny

This project models the core of `atlas-cli`, a command-line client for the Atlas
cluster-management REST API. At its centre is the `clusters status` report:

- `StatusModule` lists the processes of a group.
- For each process it fetches the latest `CONNECTIONS` and `DB_DATA_SIZE_TOTAL` and
  sums the used and free space over all disk partitions.
- It builds one row per process, with a blank separator row wherever the replica set
  changes.
- It renders the rows as a column-aligned, tab-separated text table.
- The whole report can be repeated on a refresh interval.

Around it, the model covers:

- the shared command layer (`CliModule`): the server address, validation of the first
  argument, credentials from the command line or the saved configuration, and the
  order of `execute`;
- the `user:apiKey` credential parser (`Identity`);
- the two routing modules (`AtlasModule`, `ClustersModule`);
- the listing URL (`ListModule`);
- the binary two-decimal size formatter (`StorageFormatUtil`).

## How the pieces map to Dafny

- The Java values are modelled as datatypes: processes, measurements, disks, identities,
  command lines and exceptions.
- `long` is an `int` in the signed 64-bit range (`JavaLang.Long`). Every `+=` of the disk
  sums wraps explicitly (`WrapLong`).
- The HTTP requests are not modelled. Each request is a parameter instead: its outcome is
  either a JSON-shaped value or the exception it raised. A `getStatus` run is therefore a
  function of the process-list response and of each process's and disk's responses.
- Java exceptions are `Err` values (`JavaLang.JavaException`): `NullPointer`,
  `ArrayIndexOutOfBounds(index, length)`, `IllegalArgument(message)`,
  `IllegalState(message)`, `IO(message)` and `JSON(message)` (org.json's `JSONException`).
- The code that mutates a local map or string in a loop is modelled as Dafny methods with
  loop invariants, each proved equal to a specification function. These are `mapMetrics`,
  the size-measuring and rendering loops of `toTextTable`, the disk loop and the process
  loop of `getStatus`.
- The properties are proved about those specification functions:
  - the map keeps the latest value per name, and a later series overrides an earlier one;
  - each column width is the longest cell of its column;
  - every cell is padded to the width plus two;
  - the rows keep the process order, with separators exactly at replica-set changes;
  - the first failing request decides the error;
  - the formatted sizes read back to the quotient or the rounded hundredths.

## Model

Source paths are relative to the repository root.

| member | source | states |
|---|---|---|
| JavaLang.WrapLong | src/main/java/com/mongodb/atlas/cli/clusters/StatusModule.java:137-138 | a `long` result: a sum already within the 64-bit range is unchanged |
| JavaLang.WrapLongAdd | src/main/java/com/mongodb/atlas/cli/clusters/StatusModule.java:127-138 | wrapping after every `+=` gives the same `long` as wrapping the exact total once |
| JavaLang.IntToString | src/main/java/com/mongodb/atlas/cli/clusters/StatusModule.java:152 | `toString` of an integer: non-empty decimal digits, with a leading `-` exactly for negatives |
| JavaLang.ParseLongAccepts | src/main/java/com/mongodb/atlas/cli/clusters/StatusModule.java:56 | `parseLong` accepts exactly an optional `+` or `-` followed by one or more ASCII digits whose signed value fits in a `long`, and returns that value |
| JavaLang.ParseLongRejectsLetters | src/main/java/com/mongodb/atlas/cli/clusters/StatusModule.java:56 | "abc" and "1a" are rejected |
| JavaLang.ParseLongRejectsEmpty | src/main/java/com/mongodb/atlas/cli/clusters/StatusModule.java:56 | "", "-" and "+" are rejected |
| JavaLang.ParseLongSigned | src/main/java/com/mongodb/atlas/cli/clusters/StatusModule.java:56 | "+7" reads as 7 and "-12" as -12 |
| JavaLang.ParseLongRoundTrip | src/main/java/com/mongodb/atlas/cli/clusters/StatusModule.java:56 | `parseLong` reads back every `long` that `toString` prints |
| JavaLang.IndexOf | src/main/java/com/mongodb/atlas/cli/clusters/StatusModule.java:120 | `indexOf` is -1 exactly when the character is absent, else the position of its first occurrence |
| JavaLang.Pad | src/main/java/com/mongodb/atlas/cli/clusters/StatusModule.java:178 | `%-Ns`: the text first, then spaces up to width N, never truncated |
| JavaLang.SplitJoinRoundTrip | src/main/java/com/mongodb/atlas/cli/CliModule.java:231-235 | splitting a join at the separator gives back the pieces when none holds the separator |
| JavaLang.SplitFirstTwo | src/main/java/com/mongodb/atlas/cli/Identity.java:30-32 | `split(":")` has two pieces exactly when a `:` is later followed by another character; the pieces are the text before the first `:` and up to the next |
| JavaLang.StringValueOf | src/main/java/com/mongodb/atlas/cli/clusters/ListModule.java:39-43 | `%s` prints a string as itself and `null` as "null" |
| CommandLines.GetOptionValue | src/main/java/com/mongodb/atlas/cli/clusters/ListModule.java:37 | an option has a value only when it was given |
| Identities.FromCommandLine | src/main/java/com/mongodb/atlas/cli/Identity.java:29-35 | a missing `u` value is a NullPointerException; a success carries the `g` value as the group |
| Identities.FromCommandLineSucceeds | src/main/java/com/mongodb/atlas/cli/Identity.java:30-32 | success exactly when `u` holds a `:` later followed by a non-`:`; any failure is an index error at 0 or 1 |
| Identities.FromCommandLinePieces | src/main/java/com/mongodb/atlas/cli/Identity.java:30-32 | the user is the text before the first `:`, the key the text up to the next `:`; neither holds a `:` |
| Identities.FromCommandLineJoined | src/main/java/com/mongodb/atlas/cli/Identity.java:29-35 | `user:key` parses back to that user and key |
| Identities.FromCommandLineIgnoresRest | src/main/java/com/mongodb/atlas/cli/Identity.java:30-32 | `user:key:anything` gives that user and key; later pieces are ignored |
| Identities.FromCommandLineUserAndKey | src/main/java/com/mongodb/atlas/cli/Identity.java:30-34 | "alice:secret" gives user alice, key secret |
| Identities.FromCommandLineExtraPieces | src/main/java/com/mongodb/atlas/cli/Identity.java:30-32 | "a:b:c" gives user a, key b |
| Identities.FromCommandLineEmptyUser | src/main/java/com/mongodb/atlas/cli/Identity.java:30-32 | ":k" gives the empty user and key k |
| Identities.FromCommandLineNoColon | src/main/java/com/mongodb/atlas/cli/Identity.java:30-32 | "alice" fails on index 1 of a one-piece array |
| Identities.FromCommandLineTrailingColon | src/main/java/com/mongodb/atlas/cli/Identity.java:30-32 | `user:` has its trailing empty piece dropped and fails on index 1 |
| Identities.FromCommandLineOnlyColon | src/main/java/com/mongodb/atlas/cli/Identity.java:30-31 | ":" splits into no pieces and fails on index 0 |
| CliModule.BaseUrl | src/main/java/com/mongodb/atlas/cli/CliModule.java:38-39 | `scheme://host`, then `:port` unless the port is 80 or 443, then `/api/atlas/v1.0/groups` |
| CliModule.BaseUrlValue | src/main/java/com/mongodb/atlas/cli/CliModule.java:32-39 | with the configured constants the prefix is `http://localhost:8080/api/atlas/v1.0/groups` |
| CliModule.ToValidArgsRoundTrip | src/main/java/com/mongodb/atlas/cli/CliModule.java:231-235 | `toValidArgs` (`ToValidArgs`): the newline-joined command list splits back into the commands |
| CliModule.Validate | src/main/java/com/mongodb/atlas/cli/CliModule.java:216-229 | succeeds exactly when the first argument is an accepted command; otherwise the "No valid command" or the "Uncrecognized command" IllegalArgumentException with the accepted list |
| CliModule.ValidateFirstOnly | src/main/java/com/mongodb/atlas/cli/CliModule.java:218-222 | only the first argument is examined |
| CliModule.ValidateUnknownExample | src/main/java/com/mongodb/atlas/cli/CliModule.java:222-226 | "foo" against list/status: the message names foo and lists both commands on separate lines |
| CliModule.GetIdentity | src/main/java/com/mongodb/atlas/cli/CliModule.java:77-101 | the command line is used when no configuration exists or both `-u` and `-g` are given (`hasIdentity`, modelled as `HasIdentity`); otherwise an IOException, the "Invalid config file" IllegalStateException, or the three configured properties |
| CliModule.GetIdentityCommandLineWins | src/main/java/com/mongodb/atlas/cli/CliModule.java:77-82 | with `-u` and `-g` given, the configuration file makes no difference |
| CliModule.GetIdentityGroup | src/main/java/com/mongodb/atlas/cli/CliModule.java:90-100 | an identity without a group can only come from a `-g` given without a value |
| CliModule.GetIdentityErrors | src/main/java/com/mongodb/atlas/cli/CliModule.java:81-101 | the only failures are NullPointer, index, IO and the invalid-configuration error |
| CliModule.ExecuteSteps | src/main/java/com/mongodb/atlas/cli/CliModule.java:147-153 | help is printed exactly when `-h` is given, always before the module body, which always runs last |
| CliModule.Tail | src/main/java/com/mongodb/atlas/cli/ClustersModule.java:26 | `copyOfRange(args, 1, length)`: the arguments after the first, in order |
| AtlasModule.Route | src/main/java/com/mongodb/atlas/cli/AtlasModule.java:19-29 | routing fails exactly when validation against config/clusters fails, with the same error |
| AtlasModule.RouteRunsOne | src/main/java/com/mongodb/atlas/cli/AtlasModule.java:22-28 | a success runs exactly one sub-module, chosen by the first argument, on the remaining arguments |
| AtlasModule.RouteClustersExample | src/main/java/com/mongodb/atlas/cli/AtlasModule.java:24-27 | `clusters list` runs the clusters module on `list` |
| ClustersModule.Route | src/main/java/com/mongodb/atlas/cli/ClustersModule.java:20-34 | routing fails exactly when validation against list/status fails, with the same error |
| ClustersModule.RouteRunsOne | src/main/java/com/mongodb/atlas/cli/ClustersModule.java:26-33 | a success runs the status module exactly for `status` and the list module exactly for `list`, on the remaining arguments |
| ClustersModule.RouteNoCommand | src/main/java/com/mongodb/atlas/cli/ClustersModule.java:21 | no arguments is the "No valid command specified." error |
| ListModule.ClusterPart | src/main/java/com/mongodb/atlas/cli/clusters/ListModule.java:43 | the cluster segment is empty without `-cn`, else `/` and the name |
| ListModule.ListUrl | src/main/java/com/mongodb/atlas/cli/clusters/ListModule.java:39-43 | base, `/`, group id, `/clusters` and the optional cluster segment, `?pretty=true`: each part at its place, and nothing else |
| ListModule.ListUrlRoundTrip | src/main/java/com/mongodb/atlas/cli/clusters/ListModule.java:39-43 | the group id and the cluster name can be read back from the URL when the group id holds no `/` |
| ListModule.ListRequest | src/main/java/com/mongodb/atlas/cli/clusters/ListModule.java:35-44 | an identity failure is the module's failure; otherwise the request goes to the listing URL for the `cn` value |
| ListModule.ListUrlGroupExample | src/main/java/com/mongodb/atlas/cli/clusters/ListModule.java:39-43 | group g1 lists `/g1/clusters?pretty=true` |
| ListModule.ListUrlClusterExample | src/main/java/com/mongodb/atlas/cli/clusters/ListModule.java:43 | cluster c0 of group g1 is `/g1/clusters/c0?pretty=true` |
| ListModule.ListUrlNullGroupExample | src/main/java/com/mongodb/atlas/cli/clusters/ListModule.java:42 | a missing group prints as `null` in the path |
| StatusMetrics.LatestValue | src/main/java/com/mongodb/atlas/cli/clusters/StatusModule.java:197-203 | a series has no value exactly when all its points are null |
| StatusMetrics.LatestValueAt | src/main/java/com/mongodb/atlas/cli/clusters/StatusModule.java:197-203 | the value taken is that of the last point holding one |
| StatusMetrics.MetricsKeys | src/main/java/com/mongodb/atlas/cli/clusters/StatusModule.java:189-204 | a name is in the map exactly when some series of that name has a non-null point |
| StatusMetrics.MetricsValue | src/main/java/com/mongodb/atlas/cli/clusters/StatusModule.java:189-204 | the value under a name comes from the last series of that name that has one |
| StatusMetrics.GetOrZero | src/main/java/com/mongodb/atlas/cli/clusters/StatusModule.java:137 | `getOrDefault(name, 0)` |
| StatusMetrics.MapMetrics | src/main/java/com/mongodb/atlas/cli/clusters/StatusModule.java:186-207 | the loops build exactly the latest-value-per-name map |
| StatusMetrics.MetricsOverwriteExample | src/main/java/com/mongodb/atlas/cli/clusters/StatusModule.java:200 | two series of one name: the later one's latest value (3) wins |
| TextTables.RowWidthsAt | src/main/java/com/mongodb/atlas/cli/clusters/StatusModule.java:166-172 | one row raises a column's width to its cell length when longer; an empty cell adds no entry |
| TextTables.ColumnWidthsAreMaxima | src/main/java/com/mongodb/atlas/cli/clusters/StatusModule.java:164-173 | each recorded width is the longest cell of its column; a column is recorded exactly when that is non-zero |
| TextTables.ColumnWidthsKeys | src/main/java/com/mongodb/atlas/cli/clusters/StatusModule.java:167-171 | a column has a width exactly when some cell in it is non-empty |
| TextTables.RenderCells | src/main/java/com/mongodb/atlas/cli/clusters/StatusModule.java:177-180 | the cells render exactly when every column so far has a width, else a NullPointerException |
| TextTables.RenderLine | src/main/java/com/mongodb/atlas/cli/clusters/StatusModule.java:176-182 | a row renders exactly when all its columns have widths, else a NullPointerException |
| TextTables.RenderLines | src/main/java/com/mongodb/atlas/cli/clusters/StatusModule.java:175-183 | the table renders exactly when every row does, else a NullPointerException |
| TextTables.TextTableSucceeds | src/main/java/com/mongodb/atlas/cli/clusters/StatusModule.java:163-184 | `toTextTable` succeeds exactly when every column that a row reaches has a non-empty cell somewhere; otherwise the NullPointerException of line 178 |
| TextTables.RenderCellsJoin | src/main/java/com/mongodb/atlas/cli/clusters/StatusModule.java:177-180 | the cells so far are the padded cells joined by tabs, plus a tab when more follow |
| TextTables.RenderLineJoin | src/main/java/com/mongodb/atlas/cli/clusters/StatusModule.java:176-182 | a rendered row is its padded cells joined by tabs, then a newline |
| TextTables.PaddedCellsExact | src/main/java/com/mongodb/atlas/cli/clusters/StatusModule.java:178 | every cell is left-justified to its column's longest cell plus two, filled with spaces |
| TextTables.MeasureColumns | src/main/java/com/mongodb/atlas/cli/clusters/StatusModule.java:164-173 | the width loop computes exactly the column widths |
| TextTables.RenderRow | src/main/java/com/mongodb/atlas/cli/clusters/StatusModule.java:176-182 | the cell loop for one row renders exactly that row's line or fails like it |
| TextTables.ToTextTable | src/main/java/com/mongodb/atlas/cli/clusters/StatusModule.java:163-184 | the method computes exactly the specified table or its failure |
| StatusModule.FormatSize | src/main/java/com/mongodb/atlas/cli/clusters/StatusModule.java:291-310 | suffix T, G, M, K or B exactly for the 1000-based ranges; the number before it is the floor quotient by that unit |
| StatusModule.FormatSizeReadBack | src/main/java/com/mongodb/atlas/cli/clusters/StatusModule.java:292-309 | the digits parse back to a `long` q with q·unit ≤ size < (q+1)·unit |
| StatusModule.FormatSizeExamples | src/main/java/com/mongodb/atlas/cli/clusters/StatusModule.java:291-310 | 999 gives "999B", 1000 "1K", 999999 "999K", 1500000 "1M", 10^12 "1T" |
| StatusModule.HostLabel | src/main/java/com/mongodb/atlas/cli/clusters/StatusModule.java:120 | the label is a prefix; it is the whole id exactly when there is no `.` or the id starts with one; otherwise it ends right before the first `.` |
| StatusModule.HostLabelDomain | src/main/java/com/mongodb/atlas/cli/clusters/StatusModule.java:120 | `host.domain` shows as `host` |
| StatusModule.HostLabelLeadingDot | src/main/java/com/mongodb/atlas/cli/clusters/StatusModule.java:120 | an id starting with `.` is shown whole |
| StatusModule.HostLabelNoDot | src/main/java/com/mongodb/atlas/cli/clusters/StatusModule.java:120 | "h1:27017" is shown whole |
| StatusModule.Percent | src/main/java/com/mongodb/atlas/cli/clusters/StatusModule.java:156 | `Math.round(used/total·100)`: the nearest integer to 100·used/total, halves up; 0 when the total is 0 |
| StatusModule.PercentBounds | src/main/java/com/mongodb/atlas/cli/clusters/StatusModule.java:156 | between 0 and 100 for used within total, 100 when full |
| StatusModule.PercentExamples | src/main/java/com/mongodb/atlas/cli/clusters/StatusModule.java:156 | 50 of 200 is 25, 1 of 8 is 13, 0 of 0 is 0 |
| StatusModule.Utilisation | src/main/java/com/mongodb/atlas/cli/clusters/StatusModule.java:156 | the cell ends in `%` and its number parses back to the percentage |
| StatusModule.ConnectionsCell | src/main/java/com/mongodb/atlas/cli/clusters/StatusModule.java:152 | empty exactly when there is no connection count, else text that parses back to it |
| StatusModule.DataRow | src/main/java/com/mongodb/atlas/cli/clusters/StatusModule.java:149-157 | a data row has the seven columns of the header in header order (replica set, host label, connections, data size, used, total, utilisation), and its Data cell is never empty |
| StatusModule.DiskTotal | src/main/java/com/mongodb/atlas/cli/clusters/StatusModule.java:147 | the total is `used + free` exactly whenever that fits in a `long` |
| StatusModule.FormatSizeZero | src/main/java/com/mongodb/atlas/cli/clusters/StatusModule.java:153 | a data size of 0 shows as "0B" |
| StatusModule.NodeStatusValue | src/main/java/com/mongodb/atlas/cli/clusters/StatusModule.java:117-139 | in terms of the series the server sent: a connection count exactly when some `CONNECTIONS` series has a non-null point, and then the latest point of the last such series; the same for `DB_DATA_SIZE_TOTAL`, and 0 when no series of it has a point; the space is the partitions' totals |
| StatusModule.NodeRowCells | src/main/java/com/mongodb/atlas/cli/clusters/StatusModule.java:120-157 | each cell of a fetched process's row comes from its responses: the connections cell is blank exactly when `CONNECTIONS` is missing and otherwise reads back to it, and a missing data size is "0B" |
| StatusModule.LayoutLength | src/main/java/com/mongodb/atlas/cli/clusters/StatusModule.java:141-149 | one row per process plus one separator per replica-set change |
| StatusModule.LayoutWithoutSeparators | src/main/java/com/mongodb/atlas/cli/clusters/StatusModule.java:141-157 | with the separators removed, the rows are the data rows in process order |
| StatusModule.LayoutEnds | src/main/java/com/mongodb/atlas/cli/clusters/StatusModule.java:141-145 | no separator before the first row or after the last |
| StatusModule.LayoutPlaces | src/main/java/com/mongodb/atlas/cli/clusters/StatusModule.java:141-157 | process k's row sits after k rows and one separator per change up to it; the row just before it is a separator exactly when the replica set changes there, else the previous process's row |
| StatusModule.LayoutWidths | src/main/java/com/mongodb/atlas/cli/clusters/StatusModule.java:142 | separators have seven cells like the data rows |
| StatusModule.NoTransitionsInOneReplicaSet | src/main/java/com/mongodb/atlas/cli/clusters/StatusModule.java:141-143 | processes all of one replica set get no separator |
| StatusModule.StatusRowCount | src/main/java/com/mongodb/atlas/cli/clusters/StatusModule.java:87-158 | no `results` gives the header only; otherwise 1 + processes + changes rows; a failed list request is the failure |
| StatusModule.StatusRowsOrder | src/main/java/com/mongodb/atlas/cli/clusters/StatusModule.java:108-158 | header first, then each process's data row in order, the first directly after the header |
| StatusModule.HeaderNamesAll | src/main/java/com/mongodb/atlas/cli/clusters/StatusModule.java:89-97 | seven header names, none empty |
| StatusModule.HeaderedTableRenders | src/main/java/com/mongodb/atlas/cli/clusters/StatusModule.java:160 | a seven-column table under the header always renders |
| StatusModule.StatusRowsShape | src/main/java/com/mongodb/atlas/cli/clusters/StatusModule.java:89-157 | every built table starts with the header and has seven cells in every row |
| StatusModule.StatusReportRenders | src/main/java/com/mongodb/atlas/cli/clusters/StatusModule.java:84-161 | the report fails only when building the rows fails; rendering never does |
| StatusModule.StatusFailsAtFirstFailure | src/main/java/com/mongodb/atlas/cli/clusters/StatusModule.java:108-139 | the report fails with the error of the first process whose requests fail |
| StatusModule.DiskTotalsExact | src/main/java/com/mongodb/atlas/cli/clusters/StatusModule.java:127-138 | used and free are the exact sums over the partitions whenever those fit in a `long` |
| StatusModule.ProcessRowsOk | src/main/java/com/mongodb/atlas/cli/clusters/StatusModule.java:108-158 | when every process so far succeeds, the rows are the header and the laid-out data rows |
| StatusModule.ProcessRowsFirstError | src/main/java/com/mongodb/atlas/cli/clusters/StatusModule.java:108-139 | the first failure is what the loop returns |
| StatusModule.ProcessRowsAgree | src/main/java/com/mongodb/atlas/cli/clusters/StatusModule.java:108-158 | the step-by-step loop specification agrees with the all-at-once assembly |
| StatusModule.SumDiskSpace | src/main/java/com/mongodb/atlas/cli/clusters/StatusModule.java:125-139 | the disk loop computes exactly the wrapped sums or the first failed request |
| StatusModule.FetchNode | src/main/java/com/mongodb/atlas/cli/clusters/StatusModule.java:109-139 | the requests for one process give exactly its node status, whose values `NodeStatusValue` and whose cells `NodeRowCells` state, or the first failure |
| StatusModule.AddProcess | src/main/java/com/mongodb/atlas/cli/clusters/StatusModule.java:109-157 | one loop iteration, with outcome `i` being process `i`'s row outcome, extends the rows exactly as the loop specification says |
| StatusModule.BuildRows | src/main/java/com/mongodb/atlas/cli/clusters/StatusModule.java:108-158 | the method builds exactly the specified rows |
| StatusModule.GetStatus | src/main/java/com/mongodb/atlas/cli/clusters/StatusModule.java:84-161 | `getStatus` returns exactly the specified report or its failure |
| StatusModule.RefreshInterval | src/main/java/com/mongodb/atlas/cli/clusters/StatusModule.java:52-65 | no value gives 5000 ms; a non-number gives "Invalid refresh uration specified: " and the value; a number gives its 64-bit wrapped product by 1000 |
| StatusModule.RefreshIntervalSeconds | src/main/java/com/mongodb/atlas/cli/clusters/StatusModule.java:56 | a printed number of seconds, without overflow, gives that many thousand milliseconds |
| StatusModule.RefreshPlan | src/main/java/com/mongodb/atlas/cli/clusters/StatusModule.java:50-65 | one pass without `-r`; with `-r`, the interval or its error |
| StatusModule.StatusFirstPass | src/main/java/com/mongodb/atlas/cli/clusters/StatusModule.java:47-81 | the identity error first, then the interval error, then the report's; a single pass prints the report and a newline; a refreshing pass clears the screen, prints, then pauses |
| StatusModule.InvalidRefreshFailsFirst | src/main/java/com/mongodb/atlas/cli/clusters/StatusModule.java:54-61 | an unparsable interval fails the same way whatever the server would answer |
| StatusModule.RefreshDefault | src/main/java/com/mongodb/atlas/cli/clusters/StatusModule.java:62-65 | `-r` without a value refreshes every 5000 ms |
| StorageFormatUtil.HalfEven | src/main/java/com/mongodb/atlas/cli/util/StorageFormatUtil.java:14 | HALF_EVEN rounding: within half a unit of the exact quotient, even on a tie |
| StorageFormatUtil.HalfEvenUnique | src/main/java/com/mongodb/atlas/cli/util/StorageFormatUtil.java:14 | no other integer meets that description |
| StorageFormatUtil.TwoDecimals | src/main/java/com/mongodb/atlas/cli/util/StorageFormatUtil.java:14 | the pattern `0.00` on hundredths h: the whole part h/100, a dot, then two digits worth h mod 100 |
| StorageFormatUtil.FormatSize | src/main/java/com/mongodb/atlas/cli/util/StorageFormatUtil.java:8-26 | suffix T exactly above 1024³, G above 1024², M above 1024, else K; always two decimals |
| StorageFormatUtil.FormatSizeReadBack | src/main/java/com/mongodb/atlas/cli/util/StorageFormatUtil.java:10-24 | the text reads back to the HALF_EVEN hundredths of size divided by the chosen unit |
| StorageFormatUtil.FormatSizeKiloExamples | src/main/java/com/mongodb/atlas/cli/util/StorageFormatUtil.java:22-24 | 500, 0, -5 and 1024 print as "500.00K", "0.00K", "-5.00K", "1024.00K" |
| StorageFormatUtil.FormatSizePowerExamples | src/main/java/com/mongodb/atlas/cli/util/StorageFormatUtil.java:16-21 | 1024², 1024³ and 2048 print as "1024.00M", "1024.00G", "2.00M" |
| StorageFormatUtil.FormatSizeHalfEvenExamples | src/main/java/com/mongodb/atlas/cli/util/StorageFormatUtil.java:14-21 | 1152 (1.125) prints "1.12M" and 1408 (1.375) prints "1.38M", rounding ties to even |

## Left out

- HTTP transport and digest authentication: every request is a parameter of the model, given as its JSON-shaped outcome or the exception it raised. The request builders (`StatusModule.java:209-289`) are not modelled.
- The fixed look-back window and granularity of the measurement requests (`LOOKBACK`, the ISO timestamps) and the clock are not modelled. They only shape the request URLs, which are parameters here.
- The refresh loop itself (`StatusModule.java:67-77`) is not modelled: it repeats forever, sleeps, and stops on interruption. `StatusFirstPass` describes one pass, which is what every later pass repeats. A negative interval, which would make `Thread.sleep` throw, is not modelled either.
- JSON typing is not modelled. Values are taken to be integers in the `long` range, and the casts at lines 121, 123 and 137 are assumed to succeed. A `CONNECTIONS` value that is not an `Integer`, which would be a ClassCastException, is not modelled.
- The model assumes the string keys a response is read with are present: `id` and `replicaSetName` of a process (lines 110, 115), `partitionName` of a disk (134) and `name` of a measurement (200). `Process`, `Disk` and `Measurement` hold them as plain strings, so the `JSONException` that `getString` raises for a missing one is not modelled. A missing `measurements` or `results` array (lines 118, 126, 136) is modelled: it is a `JSON` outcome of that request.
- Floating point is not modelled:
  - `StatusModule.FormatSize` uses exact integer division where the source divides doubles. The two agree for sizes below 2^53.
  - `StatusModule.Percent` uses exact rationals where `Math.round` works on doubles.
  - `StorageFormatUtil.FormatSize` applies exact HALF_EVEN rounding to the exact quotient. The binary expansion of the double is not modelled.
- Lengths are counted in Unicode code points, not UTF-16 units. Only ASCII digits are parsed. The default locale's decimal separator is taken to be `.`.
- commons-cli parsing is not modelled: `buildOptions`, `getCommandLine` and the content of `printHelp`. A command line is modelled as the options it holds and their values.
- `ConfigModule`, `CreateModule`, `AtlasCliApp` and the properties-file format are not part of this model. The configuration is given as its loaded map or its IOException.
- `validate`'s check for a null argument array is not modelled, because Dafny sequences are never null.
- Output printed before an exception aborts a pass is not modelled, and neither is a `URISyntaxException`.
- The `Identity` constructor and getters (`Identity.java:11-27`) only store and return their three fields. They are modelled as the constructor and destructors of the `Identity` datatype.
- The listing-URL lemmas are stated for any base address. `CliModule.BaseUrlValue` fixes the actual one.
- The decimal `formatSize` floors: 1500000 is "1M".
