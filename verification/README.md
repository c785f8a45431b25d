# hdfs-mesos core in Dafny

A model of the core of hdfs-mesos. The framework runs HDFS namenodes and datanodes as tasks on a Mesos cluster. The model covers four parts:

- **Nodes** (`nodes.dfy`, `ranges.dfy`). On the scheduler side, a node decides whether a resource offer suits it (`matches`). It then takes cpus, mem and the lowest free ports from the offer (`reserve`, `reservePort`). When placed, it gets its runtime identity and filesystem URI (`initRuntime`). A datanode borrows that URI from a namenode in the registry. The registry is a `seq<Node>`. The free ports of an offer are a sorted list of disjoint closed intervals. The `Node` class itself is not part of this model. Its behaviour is taken from what its unit tests (`NodeTest.java`) assert.
- **Util** (`util.dfy`, `text.dfy`). `Util.Period` parses durations such as "30s", "5m" or "100ms" into milliseconds and compares them by length. Also modelled: `capitalize`, `Str.suffix` and `Str.id`.
- **HdfsProcess** (`hdfs_process.dfy`, `files.dfy`). This builds the core-site and hdfs-site property maps: defaults first, then the node's overrides. It escapes names and values and renders the `<configuration>` documents. It resolves the namenode and datanode dirs and decides whether the namenode needs a format. `start` is a plan: write, write, format, launch. `waitFor` depends on how far `start` got.
- **Executor** (`executor.dfy`). This covers the statuses a task reports: STARTING, then RUNNING once operable, then FINISHED/FAILED by exit code, or ERROR with the stack trace. These statuses form a small protocol automaton. Also modelled:
  - the `launchTask` thread (statuses, driver stop, exit with v1);
  - the `--driver` option;
  - the hadoop 1.x / 2.x layout;
  - the version taken from the hadoop dir name;
  - the `findJavaHome` search: jre dir, then JAVA_HOME, then the PATH entries, which are trimmed, unquoted and split as Java does.

`java.io.File` path building is modelled in `files.dfy`. `new File(s)` collapses repeated '/' and drops a trailing one. `new File(parent, child)` joins with one '/'. `getName` returns what follows the last '/'. Java's nulls and exceptions are `Option` and `Result` (`wrappers.dfy`).

The inputs that cannot be computed become parameters:
- the file-system probes (`isDirectory`, the hadoop and jre dir search, `readlink` behind `javaHomeOf`);
- the inherited process environment;
- the order in which `HashMap` yields its keys;
- `Version.compareTo`;
- the exit codes of the spawned processes;
- whether the process turned operable;
- fresh task and executor ids.

## Model

| member | source | states |
|---|---|---|
| Ranges.ReservePort | src/test/net/elodina/mesos/hdfs/NodeTest.java:77-93 | a reserved port was free before and lies inside the request |
| Ranges.ReservePortLowest | src/test/net/elodina/mesos/hdfs/NodeTest.java:82-91 | the port reserved is the lowest free port the request admits; the reservation fails exactly when no free port is admitted |
| Ranges.ReservePortRest | src/test/net/elodina/mesos/hdfs/NodeTest.java:83-92 | the free list afterwards holds every port it held before except the reserved one, and stays sorted and disjoint |
| Ranges.ReservePortShape | src/test/net/elodina/mesos/hdfs/NodeTest.java:83-92 | only the interval that held the port changes: it is replaced by the zero, one or two pieces around the port, and every other interval is kept in place |
| Ranges.ReserveEachDistinct | src/test/net/elodina/mesos/hdfs/NodeTest.java:82-92 | successive reservations on one free list never return a port twice; each port returned was free at the start and inside its own request |
| Ranges.ReservePortExample | src/test/net/elodina/mesos/hdfs/NodeTest.java:77-93 | the unit test's walk: 10..20 gives 10, 0..0 gives 0, 100..200 gives 100 and 50..60 gives 50, each leaving the asserted free list |
| Ranges.ReserveAnyPort | src/test/net/elodina/mesos/hdfs/NodeTest.java:68-73 | a request for any port gets the first port of the first interval, leaving one port fewer; it fails only on an empty free list |
| Nodes.Matches | src/test/net/elodina/mesos/hdfs/NodeTest.java:17-53 | an offer is accepted exactly when cpus suffice, mem suffices and a datanode has a running or external namenode; the checks run in that order, and each rejection holds exactly when the earlier checks pass and its own fails |
| Nodes.MatchesExample | src/test/net/elodina/mesos/hdfs/NodeTest.java:23-24 | a namenode needing 0.5 cpus and 500 mem is refused "cpus < 0.5" by a 0.1-cpu offer and "mem < 500" by a 0.5/400 offer |
| Nodes.ReasonTexts | src/test/net/elodina/mesos/hdfs/NodeTest.java:23-24 | the rejection texts print 500 millicores as "0.5" and 500 MB as "500" |
| Nodes.MatchesNamenodeExample | src/test/net/elodina/mesos/hdfs/NodeTest.java:33-52 | the unit test's sequence: a namenode is accepted; a datanode is refused "no namenode", then "no running or external namenode" with only an idle namenode, then accepted once that namenode is external or running |
| Nodes.MatchedDatanodeInitializes | src/test/net/elodina/mesos/hdfs/NodeTest.java:48-52 | when `matches` accepts a datanode and every running namenode has a runtime, `initRuntime` finds a filesystem URI |
| Nodes.Reserve | src/test/net/elodina/mesos/hdfs/NodeTest.java:55-74 | cpus and mem are each the smaller of the node's and the offer's; only the node's own logical ports are reserved |
| Nodes.AssignPortsSpec | src/test/net/elodina/mesos/hdfs/NodeTest.java:68-73 | with distinct names: exactly the first PortCount names get a port; every port given was offered; ports rise in declared order; no free port left over lies below a port given out |
| Nodes.AssignPortsEmpty | src/test/net/elodina/mesos/hdfs/NodeTest.java:62-65 | an offer without ports reserves none |
| Nodes.ReservePorts | src/test/net/elodina/mesos/hdfs/NodeTest.java:55-74 | `reserve` assigns the node's ports lowest-first in declared order while free ports last, only from offered ports, and none when the offer has no ports |
| Nodes.ReserveExample | src/test/net/elodina/mesos/hdfs/NodeTest.java:55-74 | the unit test: a 0.3/300 offer gives 0.3/300 and no ports; a 0.7/1000 offer with 0..10 gives the node's 0.5/400 and exactly HTTP=0, IPC=1 |
| Nodes.FirstPlaced | src/test/net/elodina/mesos/hdfs/NodeTest.java:132-136 | the result is the first node that has a runtime, or None when none has one |
| Nodes.FirstExternal | src/test/net/elodina/mesos/hdfs/NodeTest.java:138-142 | the result is the first external node, or None when none is external |
| Nodes.InitRuntime | src/test/net/elodina/mesos/hdfs/NodeTest.java:95-143 | a placed node has a runtime with the given ids and the offer's slave, host and attributes, and the reservation of `reserve`; nothing else about the node changes; a namenode always succeeds with a URI that contains the offer's host; a datanode fails exactly when no namenode URI can be found |
| Nodes.DatanodeWithoutNamenode | src/test/net/elodina/mesos/hdfs/NodeTest.java:127-130 | a datanode with no namenode registered fails with a message containing "no namenode" |
| Nodes.DatanodeUsesPlacedNamenode | src/test/net/elodina/mesos/hdfs/NodeTest.java:132-136 | a datanode takes the URI of the first registered namenode that has a runtime |
| Nodes.DatanodeUsesExternalNamenode | src/test/net/elodina/mesos/hdfs/NodeTest.java:138-142 | with no namenode runtime, a datanode takes exactly the declared URI of the first external namenode |
| Nodes.FirstPlacedNamenode | src/test/net/elodina/mesos/hdfs/NodeTest.java:132-136 | if registry[k] is the first namenode with a runtime, the search over the namenodes finds it |
| Nodes.FirstExternalNamenode | src/test/net/elodina/mesos/hdfs/NodeTest.java:138-142 | if registry[k] is the first external namenode, the search over the namenodes finds it |
| Nodes.DatanodeAfterNamenode | src/test/net/elodina/mesos/hdfs/NodeTest.java:132-136 | a datanode placed after a namenode's `initRuntime` gets that namenode's URI, which contains the namenode's host |
| Text.IntToString | src/java/net/elodina/mesos/hdfs/Util.java:54 | the decimal text of a number ends in a digit and starts with '-' exactly for negative numbers |
| Text.ParseLong | src/java/net/elodina/mesos/hdfs/Util.java:31 | text is accepted exactly when it is an optional sign and at least one digit whose value lies in the 64-bit range, and the result is that value ("+007" is 7) |
| Text.ParseLongPadded | src/java/net/elodina/mesos/hdfs/Util.java:31 | "+007" parses to 7 and "-0" to 0; "+", "" and "1-" are rejected |
| Text.ParseLongOfIntToString | src/java/net/elodina/mesos/hdfs/Util.java:54 | printing a long and parsing it back gives the same long |
| Util.ParsePeriod | src/java/net/elodina/mesos/hdfs/Util.java:24-46 | the error carries the input; on success the unit is a known one and ms is value times that unit's factor; the text is the value's digits followed by the unit; the unit is "ms" when the text ends in "ms" and one character otherwise |
| Util.ParsePeriodAccepts | src/java/net/elodina/mesos/hdfs/Util.java:24-46 | every long written in decimal (optional sign, leading zeros allowed) followed by a known unit parses, to that value, that unit and value times the unit's factor in ms |
| Util.ParseZero | src/java/net/elodina/mesos/hdfs/Util.java:29-35 | "0" parses as value 0, unit "ms", 0 ms |
| Util.ParsePeriodText | src/java/net/elodina/mesos/hdfs/Util.java:24-54 | parsing the `toString` of any parsed period gives that very period back |
| Util.SixtySecondsIsOneMinute | src/java/net/elodina/mesos/hdfs/Util.java:52 | "60s" and "1m" are equal periods although their value and unit differ |
| Util.ParseSixtySeconds | src/java/net/elodina/mesos/hdfs/Util.java:40 | "60s" is 60 seconds, 60000 ms |
| Util.ParseOneMinute | src/java/net/elodina/mesos/hdfs/Util.java:41 | "1m" is 1 minute, 60000 ms |
| Util.ParsePeriodRejectsBareUnit | src/java/net/elodina/mesos/hdfs/Util.java:25-32 | the empty text and the bare units "s" and "d" are rejected |
| Util.ParsePeriodRejectsBareMillis | src/java/net/elodina/mesos/hdfs/Util.java:27-32 | "ms" alone is rejected: its number is empty |
| Util.ParsePeriodRejectsNoUnit | src/java/net/elodina/mesos/hdfs/Util.java:27-44 | a number without a unit ("5", "10") is rejected |
| Util.ParsePeriodRejectsUnknownUnit | src/java/net/elodina/mesos/hdfs/Util.java:38-44 | an unknown unit ("5x") is rejected |
| Util.ParsePeriodRejectsFraction | src/java/net/elodina/mesos/hdfs/Util.java:31-32 | a number that is not an integer ("1.5s") is rejected |
| Util.ParsedEndsInUnit | src/java/net/elodina/mesos/hdfs/Util.java:27-45 | every accepted text is "0" or ends in one of ms, s, m, h, d behind a non-empty number |
| Util.Capitalize | src/java/net/elodina/mesos/hdfs/Util.java:12-17 | the length is kept, the first character is upper-cased and the rest is unchanged; "" stays "" |
| Util.CapitalizeIdempotent | src/java/net/elodina/mesos/hdfs/Util.java:12-17 | capitalizing twice is capitalizing once |
| Util.CapitalizeChanges | src/java/net/elodina/mesos/hdfs/Util.java:12-17 | capitalizing changes a string exactly when it starts with a lower-case letter, and then changes only that letter, to upper case |
| Util.Suffix | src/java/net/elodina/mesos/hdfs/Util.java:275 | the result is all of `s` when `s` is short enough, otherwise its last `maxLen` characters; it is always a suffix of `s` |
| Util.SuffixIdempotent | src/java/net/elodina/mesos/hdfs/Util.java:275 | shortening a suffix again changes nothing |
| Util.Id | src/java/net/elodina/mesos/hdfs/Util.java:273 | "#" followed by the last five characters of the id, or the whole id when it is no longer than five |
| Files.Normalize | src/java/net/elodina/mesos/hdfs/Executor.java:167 | `new File(s)` yields a normal path that is `s` with every '/' that follows another '/' left out (the `Squeeze` reference), less a trailing '/' unless that leaves nothing; only '/' characters are removed, and a normal path is kept |
| Files.NormalizeIdempotent | src/java/net/elodina/mesos/hdfs/Executor.java:167 | normalizing twice is normalizing once |
| Files.Resolve | src/java/net/elodina/mesos/hdfs/HdfsProcess.java:51 | `new File(parent, child)` puts one '/' between a parent and a relative child and appends a child starting with '/' as is; an empty parent stands for the root and an empty child yields the parent; the result is normal unless the child is the root |
| Files.ResolveIsNormalizedJoin | src/java/net/elodina/mesos/hdfs/HdfsProcess.java:51 | joining a parent and any child other than "" and "/" names the same path as normalizing parent + "/" + child |
| Files.ResolveLeadingSlash | src/java/net/elodina/mesos/hdfs/Executor.java:42 | "/bin/hdfs" and "bin/hdfs" below a dir give the same path, "dir/bin/hdfs" |
| Files.LastIndexOf | src/java/net/elodina/mesos/hdfs/Executor.java:152 | the index holds the character and nothing after it does; -1 when the character is absent |
| Files.BaseName | src/java/net/elodina/mesos/hdfs/Executor.java:152 | `getName` is the part after the last '/', which holds no '/' and ends the path |
| Files.BaseNameOfResolve | src/java/net/elodina/mesos/hdfs/Executor.java:152 | the name of `new File(parent, name)` is `name` |
| HdfsProcess.Overlay | src/java/net/elodina/mesos/hdfs/HdfsProcess.java:46-49 | `putAll`: the keys are those of both maps, every override wins, and every default that is not overridden stays |
| HdfsProcess.NameNodeDir | src/java/net/elodina/mesos/hdfs/HdfsProcess.java:90-93 | the "dfs.name.dir" override as a path when present; otherwise a dir named "namenode" directly below the data dir, `dataDir + "/namenode"`, or "/namenode" when the data dir is empty or the root |
| HdfsProcess.DataNodeDir | src/java/net/elodina/mesos/hdfs/HdfsProcess.java:95-98 | the "dfs.data.dir" override as a path when present; otherwise a dir named "datanode" directly below the data dir, `dataDir + "/datanode"`, or "/datanode" when the data dir is empty or the root |
| HdfsProcess.CoreSite | src/java/net/elodina/mesos/hdfs/HdfsProcess.java:46-49 | the keys are hadoop.tmp.dir, fs.default.name and the overrides; overrides win; otherwise the tmp dir is "tmp" below the data dir and the default filesystem is the runtime's URI |
| HdfsProcess.NameNodeDefaults | src/java/net/elodina/mesos/hdfs/HdfsProcess.java:58-60 | a namenode's defaults are exactly dfs.http.address = host:HTTP port and dfs.name.dir |
| HdfsProcess.DataNodeDefaults | src/java/net/elodina/mesos/hdfs/HdfsProcess.java:61-66 | a datanode's defaults are exactly its HTTP, data and IPC addresses, each host:reserved port, and dfs.data.dir |
| HdfsProcess.HdfsSite | src/java/net/elodina/mesos/hdfs/HdfsProcess.java:56-68 | the keys are the type's defaults plus the overrides; overrides win; a default address that is not overridden is host:port of the matching reserved port |
| HdfsProcess.ConfiguredDirsAgree | src/java/net/elodina/mesos/hdfs/HdfsProcess.java:58-66 | the dir written into hdfs-site, read back as a path, is the dir the format check and the daemon use, overridden or not |
| HdfsProcess.ReplaceChar | src/java/net/elodina/mesos/hdfs/HdfsProcess.java:88 | a one-character text is replaced when it is the target and kept otherwise; a text without the target is unchanged; no character absent from both the text and the replacement appears in the result |
| HdfsProcess.ReplaceCharAppend | src/java/net/elodina/mesos/hdfs/HdfsProcess.java:88 | replacing in a concatenation replaces in each part, so with the one-character case the replacement works character by character |
| HdfsProcess.EscapeXmlTextIsPerChar | src/java/net/elodina/mesos/hdfs/HdfsProcess.java:88 | the two whole-text replacements equal escaping each character on its own: '<' to "&lt;", '>' to "&gt;", the rest kept |
| HdfsProcess.EscapeXmlTextSafe | src/java/net/elodina/mesos/hdfs/HdfsProcess.java:88 | the escaped text holds no '<' or '>', and a text holding neither is unchanged |
| HdfsProcess.EscapeXmlTextNotInjective | src/java/net/elodina/mesos/hdfs/HdfsProcess.java:88 | '&' is not escaped, so "&lt;" and "<" escape alike and the escape has no inverse |
| HdfsProcess.EscapedPairs | src/java/net/elodina/mesos/hdfs/HdfsProcess.java:77-82 | one pair per key in iteration order, each the escaped name and escaped value |
| HdfsProcess.ReadPropertiesXml | src/java/net/elodina/mesos/hdfs/HdfsProcess.java:77-82 | the `<property>` blocks read back as the escaped pairs, in order |
| HdfsProcess.PropsXmlReadsBack | src/java/net/elodina/mesos/hdfs/HdfsProcess.java:74-86 | the written document reads back between "<configuration>\n" and "</configuration>" as exactly one block per key of the map, with its escaped name and value |
| HdfsProcess.KeyOrderCount | src/java/net/elodina/mesos/hdfs/HdfsProcess.java:77 | iterating the key set visits as many keys as the map holds |
| HdfsProcess.FormatAction | src/java/net/elodina/mesos/hdfs/HdfsProcess.java:109-113 | the format runs "<hadoop> namenode -format -force" with the inherited environment plus JAVA_HOME |
| HdfsProcess.LaunchAction | src/java/net/elodina/mesos/hdfs/HdfsProcess.java:119-136 | the launch runs "<hadoop> namenode" or "<hadoop> datanode"; it sets JAVA_HOME; it sets HADOOP_OPTS only when the node has hadoop JVM options, and otherwise inherits it unchanged; nothing else changes; output goes to "<type>.out" and "<type>.err" |
| HdfsProcess.ConfigWrites | src/java/net/elodina/mesos/hdfs/HdfsProcess.java:45-72 | `start` begins with exactly two file writes, to conf/core-site.xml and then conf/hdfs-site.xml below the hadoop dir |
| HdfsProcess.ConfigWritesReadBack | src/java/net/elodina/mesos/hdfs/HdfsProcess.java:45-85 | conf/core-site.xml below the hadoop dir reads back as the core-site map, and conf/hdfs-site.xml as the hdfs-site map |
| HdfsProcess.PlanOf | src/java/net/elodina/mesos/hdfs/HdfsProcess.java:23-29 | the plan writes the node's two config files, then formats with the format command, then launches with the node's launch command; the format is due exactly for a namenode whose dir holds no "current" directory |
| HdfsProcess.FormatDecision | src/java/net/elodina/mesos/hdfs/HdfsProcess.java:100-105 | `start` runs the format exactly for a namenode without a "current" directory in its dir; with no "dfs.name.dir" override that is `dataDir + "/namenode/current"` |
| HdfsProcess.FormatRuns | src/java/net/elodina/mesos/hdfs/HdfsProcess.java:26 | a plan runs its format step exactly when one is due |
| HdfsProcess.DefaultFormatMarker | src/java/net/elodina/mesos/hdfs/HdfsProcess.java:100 | with no "dfs.name.dir" override, the directory probed for an earlier format is "namenode/current" below the data dir |
| HdfsProcess.Start | src/java/net/elodina/mesos/hdfs/HdfsProcess.java:23-29 | the writes come first, then the format when due; `start` fails with "Failed to format namenode: process exited with <code>" exactly when a due format exits non-zero (the writes and the spawn are taken to succeed); otherwise it ends with the launch, the only launch |
| HdfsProcess.NoFormatWhenFormatted | src/java/net/elodina/mesos/hdfs/HdfsProcess.java:100-105 | with no format due, the format's exit code plays no part and nothing is formatted |
| HdfsProcess.DataNodeNeverFormats | src/java/net/elodina/mesos/hdfs/HdfsProcess.java:26 | a datanode's plan never formats |
| HdfsProcess.WaitForAfterStart | src/java/net/elodina/mesos/hdfs/HdfsProcess.java:23-38 | after `start`, `waitFor` yields the exit code exactly when the last step was the launch, that is, when no due format failed; otherwise it fails with "!started" |
| Executor.ExitStatus | src/java/net/elodina/mesos/hdfs/Executor.java:109-111 | the end status is terminal and never ERROR; it is FINISHED, without a message, exactly for 0 and 143; otherwise it is FAILED with a message starting "process exited with " |
| Executor.ExitStatusNamesCode | src/java/net/elodina/mesos/hdfs/Executor.java:111 | the FAILED message gives the exit code back |
| Executor.WalkEnds | src/java/net/elodina/mesos/hdfs/Executor.java:93-111 | a walk that completes the protocol ends at its last status, which is terminal, and at no earlier one |
| Executor.ProtocolShape | src/java/net/elodina/mesos/hdfs/Executor.java:93-111 | a complete status history holds one terminal status, the last, and begins with STARTING unless it is a lone ERROR |
| Executor.RunHdfs | src/java/net/elodina/mesos/hdfs/Executor.java:93-112 | `runHdfs` throws exactly when a step fails; otherwise its last status is the exit status; it never sends ERROR; what it sends follows the protocol up to where it stopped |
| Executor.Statuses | src/java/net/elodina/mesos/hdfs/Executor.java:72-80 | the statuses of a task form a complete protocol history; STARTING comes first exactly when the start succeeded; RUNNING appears exactly when the process turned operable; it ends in ERROR, carrying the first failure's trace, exactly when something was thrown; it ends in FINISHED exactly for exit 0 or 143 |
| Executor.LaunchTask | src/java/net/elodina/mesos/hdfs/Executor.java:63-91 | the thread sends the statuses, then stops the driver, then exits with 0 exactly under the v1 driver |
| Executor.DriverOptionDecidesExit | src/java/net/elodina/mesos/hdfs/Executor.java:235-242 | after an accepted `--driver` option, a task's thread ends by exiting with 0 exactly when the option was "v1", and otherwise ends with the driver stop; no option keeps v0, which never exits |
| Executor.ParsedDriverIsKnown | src/java/net/elodina/mesos/hdfs/Executor.java:31-32 | an accepted driver is v1 exactly when it is not the default v0 |
| Executor.Hdfs | src/java/net/elodina/mesos/hdfs/Executor.java:42 | the binary is bin/hadoop below the hadoop dir for 1.x and bin/hdfs otherwise |
| Executor.ConfDir | src/java/net/elodina/mesos/hdfs/Executor.java:44 | for any hadoop dir, the conf dir is `hadoopDir + "/conf"` for 1.x and `hadoopDir + "/etc/hadoop"` otherwise, an empty or root hadoop dir giving "/conf" or "/etc/hadoop"; the result is a normal path |
| Executor.LayoutBelowHadoopDir | src/java/net/elodina/mesos/hdfs/Executor.java:40-44 | below a named dir, these are "dir/bin/hadoop" or "dir/bin/hdfs", and "dir/conf" or "dir/etc/hadoop" |
| Executor.VersionOfName | src/java/net/elodina/mesos/hdfs/Executor.java:152-154 | none exactly when the name holds no '-'; otherwise the version holds no '-' and the name is stem + "-" + version |
| Executor.VersionOfNameOf | src/java/net/elodina/mesos/hdfs/Executor.java:152-154 | a name built from a stem, '-' and a version without '-' gives that version back |
| Executor.HadoopVersion | src/java/net/elodina/mesos/hdfs/Executor.java:152-154 | the version is taken from the dir's own name; a name without '-' is the error "Can't extract version from <dir>" |
| Executor.DataDirPath | src/java/net/elodina/mesos/hdfs/Executor.java:156 | the data dir is "./data" |
| Executor.InitDirs | src/java/net/elodina/mesos/hdfs/Executor.java:147-160 | no hadoop dir gives "hadoop-.* not found in current dir"; success exactly when the dir, its version and the java home are all found, and then the layout holds each of them |
| Executor.SkipBlanks | src/java/net/elodina/mesos/hdfs/Executor.java:171 | the first non-blank index from `st` on, with only blanks skipped |
| Executor.DropBlanks | src/java/net/elodina/mesos/hdfs/Executor.java:171 | the end moved down past trailing blanks only, and no further than `st` |
| Executor.Trim | src/java/net/elodina/mesos/hdfs/Executor.java:171 | the result is a piece of the text with only blanks around it, and it neither begins nor ends with a blank |
| Executor.TrimPadded | src/java/net/elodina/mesos/hdfs/Executor.java:171 | trimming any padding of a core without blank ends gives the core back |
| Executor.Unquote | src/java/net/elodina/mesos/hdfs/Executor.java:172-173 | a quote at both ends is stripped from each; an unquoted entry is kept; the lone entry `"` throws "String index out of range: -1", the message of JDK 8 (JDK 9 and later word it "begin 1, end 0, length 1") |
| Executor.UnquoteQuoted | src/java/net/elodina/mesos/hdfs/Executor.java:172-173 | unquoting a quoted text gives the inside back |
| Executor.Pieces | src/java/net/elodina/mesos/hdfs/Executor.java:170 | at least one piece, none holding the separator |
| Executor.JoinPieces | src/java/net/elodina/mesos/hdfs/Executor.java:170 | joining the pieces with the separator gives the text back |
| Executor.DropTrailingEmpty | src/java/net/elodina/mesos/hdfs/Executor.java:170 | the result is a prefix that drops only empty pieces, and it does not end in one |
| Executor.Split | src/java/net/elodina/mesos/hdfs/Executor.java:170 | a text without the separator is its own single piece; otherwise the pieces without the trailing empty ones; no piece holds the separator |
| Executor.Candidate | src/java/net/elodina/mesos/hdfs/Executor.java:171-175 | an entry fails exactly when it trims to a lone `"` |
| Executor.LookQuoted | src/java/net/elodina/mesos/hdfs/Executor.java:170-175 | a padded, quoted dir is looked up as the dir; a padded lone `"` throws |
| Executor.LookPlain | src/java/net/elodina/mesos/hdfs/Executor.java:170-175 | a padded, unquoted dir is looked up as the file "java" in that dir, `new File(dir, "java")` |
| Executor.SearchPath | src/java/net/elodina/mesos/hdfs/Executor.java:169-180 | no result exactly when every entry misses; otherwise the first entry that does not miss decides |
| Executor.FindJavaHome | src/java/net/elodina/mesos/hdfs/Executor.java:162-183 | the jre dir wins, then JAVA_HOME as a path, then PATH; the search fails with "Can't resolve JAVA_HOME / find jre" exactly when every PATH entry misses; otherwise the first entry that does not miss gives the java home or the exception |

## Left out

- `Node` JSON round-trips, `newTask`/`newExecutor` and `Reservation.toResources`: the serializer and the Mesos protobuf code are not part of this model.
- Nodes.Matches: the constraint check and the guard for external nodes are left out. The `Constraint` class and the `Node` source are not part of this model, and the unit tests do not exercise them.
- Failover, stickiness and the scheduler's state machine live in `Node.java` and `Scheduler.java` and are not modelled.
- `NodeCli`, `Util.IO` and the `Util.Str` formatters over Mesos protobufs: these are presentation, file-system I/O and foreign types.
- The effects themselves: writing the config files, spawning the format and the daemon, `process.destroy` (`stop`, `killTask`), the `launchTask` thread, `System.exit`, logging and `initLogging`. The model returns them as data: `Action`, `Event`, `Started`.
- `waitForOperable` is not defined in `HdfsProcess.java`, and `Executor.hadoop()` is not defined in `Executor.java`; neither is part of this model. Operability is an input of `Run`, and the hadoop binary is `Dirs.hadoopBin`.
- Executor.RunHdfs: the task data decode (UTF-8, Base64 under v1, JSON, `new Node(json)`) and `process.start()` are folded into one outcome, `Run.start`. The message of a throwable is its printed stack trace, given as a string.
- Executor.LaunchTask: a `DriverException` from sending the ERROR status, and a driver nulled by `disconnected`, are not modelled.
- `main` and `parseArgs` beyond the `--driver` check: the help text, joptsimple errors and the `--debug` flag.
- `javaHomeDir` (`readlink -f` and two `getParentFile` calls) and the `isFile`/`canRead` test are the parameter `javaHomeOf`. `IO.findDir` is the parameters `found` and `jreDir`.
- `Version` and its `compareTo` are the parameter `compare`.
- HashMap key order in `writePropsXml` is a parameter (`KeyOrders`). Any order that lists each key once is allowed.
- Nodes.Reserve: cpus are thousandths of a core (`nat`), not a `double`, so rounding is not modelled. `CpusText` prints them as Java's `Double.toString` does for up to three decimals and below 10^7 cores; from 10^7 cores up Java prints "1.0E7" notation and the model does not.
- Util.ParsePeriod: ms is an unbounded integer. Java's `long` multiplication can wrap for huge values and the model does not wrap.
- Text.ParseLong: accepts ASCII digits only. Java's `Long.parseLong` also accepts other Unicode decimal digits.
- Util.Capitalize: upper-cases ASCII letters only. `Character.toUpperCase` maps all of Unicode.
- Util.Suffix: lengths count code points, while Java's `length()` and `substring` count UTF-16 units, so on a string with a supplementary character Java can split a surrogate pair and the model cannot. A negative `maxLen` throws `StringIndexOutOfBoundsException` in Java; the `nat` parameter rules it out.
- Util.Id: inherits `Suffix`'s code-point lengths.
- HdfsProcess.Start: the config writes and `ProcessBuilder.start()` are assumed to succeed. In Java either can throw an `IOException`, which also ends `start`.
- Files.Resolve: the child must already be in normal form. Every child passed in this model is a constant or a normalized path, as Java's `File(String, String)` would make it.
- `Version("2.0")` and the hadoop version are passed to `compare` as text. The model does not parse versions.
- `Node.initRuntime` serves the namenode's IPC port in its `hdfs://host:port` URI. The unit tests only pin the host, and reserve HTTP and IPC for a namenode. A datanode uses the first namenode that has a runtime, whatever its state (`NodeTest.java` lines 133-136), while `matches` asks for a running or external namenode.
