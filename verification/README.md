# SSM cmdlet dispatch and metastore utilities in Dafny

This project models two parts of SSM (Smart Storage Management for HDFS).

**The Hazelcast executor service.** The SSM server uses it to dispatch cmdlets to the worker members of its Hazelcast cluster. It keeps two registries keyed by worker uuid:

- `masterToWorkers` maps each worker to the topic used to reach it.
- `scheduledCmdlets` maps each worker to the set of cmdlet ids it was given.

Its operations work on these registries:

- `execute` picks a worker by a random index and publishes the launch on that worker's topic.
- `stop` publishes a `StopCmdlet` to every worker whose set holds the id.
- The membership listener adds a registry entry when a member joins and destroys the member's topic when it leaves.
- Status messages from the status topic are handed to the cmdlet manager.

The service state is an immutable `Service` value. It holds the two maps, the log of publications, and the status messages handed on. Each operation is a pure transition. A Java exception is modelled as `Threw(fault, state)`, where `state` is the state at the point of the throw: `execute` may publish before it fails. The module `ExecutorTraces` proves properties that hold over any sequence of events.

**The metastore utilities.** These are the pure parts of `MetaStoreUtils`:

- `sqlCompatibility` rewrites a table-creation statement for MySQL. It limits path-index lengths and makes tables with long keys dynamic on releases before 5.7. It also renames `AUTOINCREMENT`.
- `getKey` is a reverse lookup in an id-to-name map.
- The quoted table-name list used by `getTableSetNum`.
- The `DROP TABLE IF EXISTS` list of `initializeDataBase`.
- The refusal of MySQL's system database names in `getDBAdapter`.

The regular expression `(\d{3,})(.{2,15})(PRIMARY|UNIQUE)` is modelled as Java's backtracking `find()` runs it. The module is `KeyLengthPattern`. `JavaLang` holds the Java semantics the code relies on:

- truncating `/` and `%`
- `String.replace`, `startsWith` and `contains`
- `StringUtils.join`
- `Integer.valueOf` and `Integer.toString`
- HashMap iteration order, as an explicit enumeration of the keys

Several things are parameters of the model rather than computed:

- The value of `nextInt()` is the parameter `draw`. Any `int` is allowed.
- HashMap iteration orders are parameters constrained by `EnumeratesKeys`.
- The cluster's worker list is a parameter, and so is the metastore URL's database name.
- So are the MySQL-release flag and the configured `characterTakeUpBytes`.

Notes on the code's behaviour:

- A departing worker's registry entries are not removed. Its topic is only destroyed, and the worker stays selectable by `execute`.
- `canAcceptMore` reads the cluster's member list, not the registry.
- Status messages are forwarded without touching the registry.
- `memberAdded` registers any joining member, not only workers.

## Model

| member | source | states |
|---|---|---|
| JavaLang.Rem | smart-server/src/main/java/org/smartdata/server/cmdlet/hazelcast/HazelcastExecutorService.java:85 | Java's `%`: the remainder is smaller than the divisor in magnitude and takes the sign of the dividend, so it can be negative |
| JavaLang.DivRemIdentity | smart-metastore/src/main/java/org/smartdata/metastore/utils/MetaStoreUtils.java:417 | the truncated quotient and remainder reassemble the dividend, which with their bounds fixes both values |
| JavaLang.Div | smart-metastore/src/main/java/org/smartdata/metastore/utils/MetaStoreUtils.java:417 | Java's integer `/` truncates toward zero: the magnitude is the quotient of the magnitudes, and the sign is negative iff the operands' signs differ |
| JavaLang.Replace | smart-metastore/src/main/java/org/smartdata/metastore/utils/MetaStoreUtils.java:421 | `String.replace` leaves a string that does not contain the target unchanged |
| JavaLang.ReplaceIsJoinOfSplit | smart-metastore/src/main/java/org/smartdata/metastore/utils/MetaStoreUtils.java:421-437 | `String.replace` equals splitting at every occurrence of the target, scanning left to right, and joining the pieces with the replacement: each occurrence is replaced and every other character is kept in order |
| JavaLang.ReplaceRemovesTarget | smart-metastore/src/main/java/org/smartdata/metastore/utils/MetaStoreUtils.java:436-437 | after `replace`, no occurrence of the target remains when the replacement cannot recreate it |
| JavaLang.Join | smart-metastore/src/main/java/org/smartdata/metastore/utils/MetaStoreUtils.java:127 | `StringUtils.join` starts with the first part, and its length is the parts' total plus one separator between each pair of neighbours; an empty list joins to `""` |
| JavaLang.SplitJoinRoundTrip | smart-metastore/src/main/java/org/smartdata/metastore/utils/MetaStoreUtils.java:127 | `StringUtils.join` with a separator that no part's characters start is undone by splitting at the separator |
| JavaLang.NatToString | smart-metastore/src/main/java/org/smartdata/metastore/utils/MetaStoreUtils.java:421 | the decimal text concatenated for `maxLong` is non-empty, all digits, without a leading zero, and reads back as the number |
| JavaLang.IntToString | smart-metastore/src/main/java/org/smartdata/metastore/utils/MetaStoreUtils.java:421 | the text concatenated for an `int` is its decimal digits without a leading zero, after a `-` when negative, and reads back as the number |
| JavaLang.ParseInt | smart-metastore/src/main/java/org/smartdata/metastore/utils/MetaStoreUtils.java:427 | `Integer.valueOf` on a digit string succeeds iff its value fits in an `int`, and then returns that value |
| HazelcastExecutor.Register | smart-server/src/main/java/org/smartdata/server/cmdlet/hazelcast/HazelcastExecutorService.java:66-68 | the two `put` calls add the worker to both maps, with its `worker_` topic and an empty set, leave every other entry and the logs alone, and keep the registry invariant |
| HazelcastExecutor.RegisterAll | smart-server/src/main/java/org/smartdata/server/cmdlet/hazelcast/HazelcastExecutorService.java:64-70 | after the loop, the registry holds exactly the old workers plus the listed ones; each listed worker has its own topic and an empty set, and the other entries are unchanged |
| HazelcastExecutor.InitChannels | smart-server/src/main/java/org/smartdata/server/cmdlet/hazelcast/HazelcastExecutorService.java:64-70 | both maps have exactly the cluster's workers as keys, each topic is named `worker_` + uuid and is live, every set is empty, and nothing is published |
| HazelcastExecutor.IsLocalService | smart-server/src/main/java/org/smartdata/server/cmdlet/hazelcast/HazelcastExecutorService.java:72-75 | the service is never local |
| HazelcastExecutor.CanAcceptMore | smart-server/src/main/java/org/smartdata/server/cmdlet/hazelcast/HazelcastExecutorService.java:77-80 | more work is accepted iff the cluster's worker list is non-empty |
| HazelcastExecutor.Publish | smart-server/src/main/java/org/smartdata/server/cmdlet/hazelcast/HazelcastExecutorService.java:86 | `publish` on a worker's topic appends exactly one message, on that worker's current topic, and changes neither map |
| HazelcastExecutor.Assign | smart-server/src/main/java/org/smartdata/server/cmdlet/hazelcast/HazelcastExecutorService.java:86-87 | the launch is published on the worker's topic, and the worker's set gains the id; without a set for the worker, the call throws a null dereference after publishing |
| HazelcastExecutor.Execute | smart-server/src/main/java/org/smartdata/server/cmdlet/hazelcast/HazelcastExecutorService.java:83-88 | throws a division by zero with the state untouched iff no worker is registered; throws an out-of-bounds index iff the draw is negative and not a multiple of the worker count; on success the worker at index `draw % n` got the launch and the id, and nothing else changed; both throws before the array access leave the state untouched; on a consistent registry it dispatches iff a worker is registered and the index is non-negative, and never gives a null dereference |
| HazelcastExecutor.ExecuteCorrected | smart-server/src/main/java/org/smartdata/server/cmdlet/hazelcast/HazelcastExecutorService.java:83-88 | with a floor-mod index, the dispatch fails iff no worker is registered, and otherwise launches on the worker at the non-negative index |
| HazelcastExecutor.StopFrom | smart-server/src/main/java/org/smartdata/server/cmdlet/hazelcast/HazelcastExecutorService.java:91-97 | over entries in iteration order: publishes `StopCmdlet(id)` exactly to the entries whose set holds the id, once each, on their topics; no map changes; throws iff some such entry has no topic |
| HazelcastExecutor.Stop | smart-server/src/main/java/org/smartdata/server/cmdlet/hazelcast/HazelcastExecutorService.java:91-97 | stops exactly the holders of the id and changes neither map; never throws on a consistent registry; is a no-op when no set holds the id |
| HazelcastExecutor.NoHolderNoStop | smart-server/src/main/java/org/smartdata/server/cmdlet/hazelcast/HazelcastExecutorService.java:92-95 | when no entry's set holds the id, the loop publishes nothing |
| HazelcastExecutor.OnStatusMessage | smart-server/src/main/java/org/smartdata/server/cmdlet/hazelcast/HazelcastExecutorService.java:103-105 | the message is handed to the manager as the next status update; the registry and the publications are unchanged |
| HazelcastExecutor.MemberAdded | smart-server/src/main/java/org/smartdata/server/cmdlet/hazelcast/HazelcastExecutorService.java:114-122 | a known uuid changes nothing; a new one gains a `worker_` topic and an empty set, and every other entry is unchanged |
| HazelcastExecutor.MemberRemoved | smart-server/src/main/java/org/smartdata/server/cmdlet/hazelcast/HazelcastExecutorService.java:124-131 | only the departing worker's topic is marked destroyed; neither map loses a key and no set changes; an unknown uuid changes nothing |
| HazelcastExecutor.MemberAttributeChanged | smart-server/src/main/java/org/smartdata/server/cmdlet/hazelcast/HazelcastExecutorService.java:133-135 | an attribute change leaves the state unchanged |
| HazelcastExecutor.OnMessage | smart-server/src/main/java/org/smartdata/server/cmdlet/hazelcast/HazelcastExecutorService.java:138-143 | a delivery on the status topic appends its payload, unchanged, to the manager's status updates, whoever published it; neither map nor the publications change |
| ExecutorTraces.ApplyPreservesValid | smart-server/src/main/java/org/smartdata/server/cmdlet/hazelcast/HazelcastExecutorService.java:64-135 | every event keeps both maps on the same key set, with each topic named after its worker |
| ExecutorTraces.RunPreservesValid | smart-server/src/main/java/org/smartdata/server/cmdlet/hazelcast/HazelcastExecutorService.java:64-135 | the key-set invariant holds after any admissible trace, including traces with exceptions |
| ExecutorTraces.ValidNeverThrowsNullPointer | smart-server/src/main/java/org/smartdata/server/cmdlet/hazelcast/HazelcastExecutorService.java:86-94 | on a consistent registry, no event dereferences a missing map entry |
| ExecutorTraces.ApplyKeepsOwnership | smart-server/src/main/java/org/smartdata/server/cmdlet/hazelcast/HazelcastExecutorService.java:83-97 | an event keeps every id in at most one set, and starts tracking no id except the one it submits |
| ExecutorTraces.RunKeepsOwnership | smart-server/src/main/java/org/smartdata/server/cmdlet/hazelcast/HazelcastExecutorService.java:83-97 | single ownership holds after any trace whose submitted ids are new and pairwise distinct |
| ExecutorTraces.SubmittedOnceOwnedOnce | smart-server/src/main/java/org/smartdata/server/cmdlet/hazelcast/HazelcastExecutorService.java:64-97 | starting from the seeded registry, submitting each id at most once keeps every id in at most one worker's set |
| ExecutorTraces.StopAtMostOnce | smart-server/src/main/java/org/smartdata/server/cmdlet/hazelcast/HazelcastExecutorService.java:91-97 | under single ownership, `stop` publishes at most one message |
| ExecutorTraces.ApplyForwardsStatus | smart-server/src/main/java/org/smartdata/server/cmdlet/hazelcast/HazelcastExecutorService.java:138-143 | an event adds to the status updates exactly the payload it delivers, and other events add nothing |
| ExecutorTraces.StatusFanIn | smart-server/src/main/java/org/smartdata/server/cmdlet/hazelcast/HazelcastExecutorService.java:103-143 | over any trace, the manager gets every delivered status message exactly once, unchanged and in delivery order |
| ExecutorTraces.AttributeChangesInvisible | smart-server/src/main/java/org/smartdata/server/cmdlet/hazelcast/HazelcastExecutorService.java:133-135 | dropping the attribute-change events from a trace leaves it admissible and gives the same final state |
| ExecutorTraces.MemberAddedIdempotent | smart-server/src/main/java/org/smartdata/server/cmdlet/hazelcast/HazelcastExecutorService.java:114-122 | a repeated join notification changes nothing, and the member is registered after the first |
| ExecutorTraces.DepartedWorkerStillStopped | smart-server/src/main/java/org/smartdata/server/cmdlet/hazelcast/HazelcastExecutorService.java:91-131 | after a worker leaves, `stop` for one of its cmdlets still succeeds and publishes to it on its destroyed topic |
| ExecutorTraces.DepartedWorkerStillSelected | smart-server/src/main/java/org/smartdata/server/cmdlet/hazelcast/HazelcastExecutorService.java:83-131 | after a worker leaves, the draw equal to its key position still launches the cmdlet on its destroyed topic |
| ExecutorTraces.CanAcceptMoreIgnoresRegistry | smart-server/src/main/java/org/smartdata/server/cmdlet/hazelcast/HazelcastExecutorService.java:77-88 | after the only worker leaves, `canAcceptMore` is false, yet `execute` still dispatches to that worker |
| ExecutorTraces.NegativeDrawThrows | smart-server/src/main/java/org/smartdata/server/cmdlet/hazelcast/HazelcastExecutorService.java:85-86 | with two workers, the draw -1 gives the index -1, and the array access throws |
| ExecutorTraces.CorrectedDispatchKeepsInvariants | smart-server/src/main/java/org/smartdata/server/cmdlet/hazelcast/HazelcastExecutorService.java:83-88 | the corrected dispatch succeeds for every draw once a worker is registered, and keeps the key-set invariant and single ownership |
| KeyLengthPattern.TryGap | smart-metastore/src/main/java/org/smartdata/metastore/utils/MetaStoreUtils.java:424-426 | backtracking over `.{2,15}` succeeds iff some gap length in range is free of line terminators and is followed by PRIMARY or UNIQUE |
| KeyLengthPattern.DigitRun | smart-metastore/src/main/java/org/smartdata/metastore/utils/MetaStoreUtils.java:424 | the greedy `\d` run is all digits and maximal |
| KeyLengthPattern.TryDigits | smart-metastore/src/main/java/org/smartdata/metastore/utils/MetaStoreUtils.java:424-426 | backtracking over the digit group picks the longest count of at least three that completes a match, or reports that none does |
| KeyLengthPattern.TryStart | smart-metastore/src/main/java/org/smartdata/metastore/utils/MetaStoreUtils.java:424-426 | at one start, it returns the longest feasible digit group, and None iff no match starts there |
| KeyLengthPattern.FindFrom | smart-metastore/src/main/java/org/smartdata/metastore/utils/MetaStoreUtils.java:425-426 | `find()` returns the leftmost start with a match and the longest digit group there, and None iff no start matches |
| KeyLengthPattern.FirstKeyLength | smart-metastore/src/main/java/org/smartdata/metastore/utils/MetaStoreUtils.java:424-427 | group 1 is absent iff the pattern matches nowhere; otherwise it is the substring at the first match, as Java chooses it |
| KeyLengthPattern.FirstKeyLengthIsDigits | smart-metastore/src/main/java/org/smartdata/metastore/utils/MetaStoreUtils.java:424-427 | group 1 is at least three ASCII digits |
| MetaStoreUtils.KeyLength | smart-metastore/src/main/java/org/smartdata/metastore/utils/MetaStoreUtils.java:424-427 | the key length is absent iff the pattern does not match; otherwise group 1 is all digits, and the result is its decimal value when that is at most `Integer.MAX_VALUE` and a `NumberFormatException` above it |
| MetaStoreUtils.OldReleaseRewrite | smart-metastore/src/main/java/org/smartdata/metastore/utils/MetaStoreUtils.java:417-433 | the old-release stage fails iff a key statement's length overflows `int`; it changes a statement only when it contains `);` and is a path index or has a key longer than `maxLong`; a long key leaves no `);` behind |
| MetaStoreUtils.SqlCompatibility | smart-metastore/src/main/java/org/smartdata/metastore/utils/MetaStoreUtils.java:410-441 | non-MySQL statements are unchanged; a MySQL result contains no `AUTOINCREMENT`; it fails iff on an old release either `characterTakeUpBytes` is 0 or a key statement's length overflows `int`; division by zero happens exactly in the first case |
| MetaStoreUtils.RenamesCannotReintroduce | smart-metastore/src/main/java/org/smartdata/metastore/utils/MetaStoreUtils.java:429-437 | neither replacement can recreate the text it replaces, so one pass leaves none behind |
| MetaStoreUtils.OldReleaseComposition | smart-metastore/src/main/java/org/smartdata/metastore/utils/MetaStoreUtils.java:415-438 | on an old release the result is the index/key rewrite followed by the AUTOINCREMENT rename |
| MetaStoreUtils.NewReleaseOnlyRenamesAutoIncrement | smart-metastore/src/main/java/org/smartdata/metastore/utils/MetaStoreUtils.java:435-438 | on a current release the only change is AUTOINCREMENT becoming AUTO_INCREMENT, and a statement without it is unchanged |
| MetaStoreUtils.PathIndexGetsLengthLimit | smart-metastore/src/main/java/org/smartdata/metastore/utils/MetaStoreUtils.java:417-421 | on an old release, a path or src index has every `);` replaced by `(767/characterTakeUpBytes));` |
| MetaStoreUtils.DefaultIndexLimit | smart-metastore/src/main/java/org/smartdata/metastore/utils/MetaStoreUtils.java:417-421 | with one byte per character, the suffix is `(767));` |
| MetaStoreUtils.KeyStatementDynamicIffLong | smart-metastore/src/main/java/org/smartdata/metastore/utils/MetaStoreUtils.java:422-433 | a key statement is made dynamic iff the first matched length exceeds `maxLong`, and then no `);` remains |
| MetaStoreUtils.UnmatchedKeyStatementUnchanged | smart-metastore/src/main/java/org/smartdata/metastore/utils/MetaStoreUtils.java:422-433 | a key statement the pattern does not match only has AUTOINCREMENT renamed |
| MetaStoreUtils.GetKey | smart-metastore/src/main/java/org/smartdata/metastore/utils/MetaStoreUtils.java:575-582 | a returned key maps to the value and is the first such key in iteration order; null iff no key maps to the value |
| MetaStoreUtils.TableList | smart-metastore/src/main/java/org/smartdata/metastore/utils/MetaStoreUtils.java:127 | the list is framed by `('` and `')`, and for a non-empty list of quote-free names it parses back to the same names in order; an empty list gives `('')` |
| MetaStoreUtils.TableListExample | smart-metastore/src/main/java/org/smartdata/metastore/utils/MetaStoreUtils.java:127 | the tables `a` and `b` give `('a','b')` |
| MetaStoreUtils.TablesetListRoundTrip | smart-metastore/src/main/java/org/smartdata/metastore/utils/MetaStoreUtils.java:69-94 | the 24 metastore tables are recovered from their quoted list |
| MetaStoreUtils.DroppedTable | smart-metastore/src/main/java/org/smartdata/metastore/utils/MetaStoreUtils.java:160 | a statement names a dropped table iff it starts with `DROP TABLE IF EXISTS `, and is that prefix followed by the name |
| MetaStoreUtils.DropStatements | smart-metastore/src/main/java/org/smartdata/metastore/utils/MetaStoreUtils.java:158-162 | one statement per table, in order, each dropping exactly that table |
| MetaStoreUtils.CheckDbName | smart-metastore/src/main/java/org/smartdata/metastore/utils/MetaStoreUtils.java:509-518 | a name is refused iff it equals one of the six system names exactly, with the message naming it; a missing name fails with a null dereference |
| MetaStoreUtils.CheckMetastoreUrl | smart-metastore/src/main/java/org/smartdata/metastore/utils/MetaStoreUtils.java:508-519 | only a `jdbc:mysql:` URL has its database name checked |
| MetaStoreUtils.ReservedNamesAreCaseSensitive | smart-metastore/src/main/java/org/smartdata/metastore/utils/MetaStoreUtils.java:57-65 | the comparison is case-sensitive: `mysql` is refused but `MYSQL` is not |

## Left out

- Hazelcast itself is not modelled: the topics, message delivery, cluster membership and `HazelcastUtil.getWorkerMembers`. A topic is its name plus a destroyed flag. Publishing appends to a log, so what a destroyed topic does with a message is not modelled.
- Concurrency is left out. The listeners and `execute`/`stop` are modelled as running one at a time, in some order.
- `java.util.Random` is left out; its `nextInt()` value is the `draw` parameter.
- The constructor wiring and `shutdown` are not modelled. The constructor registers the status listener, then runs `initChannels` (which is modelled), then registers the membership listener. `shutdown` has an empty body.
- `CmdletExecutorService` is not modelled. It is the abstract base class and holds only the manager and factory references.
- `cmdletManager.updateStatue` is not modelled. The message handed to it is recorded in `statusUpdates`.
- JDBC, the `druid.xml` reading, SHA-512 hashing, the CREATE TABLE text constants and logging of `MetaStoreUtils` are not modelled; they are I/O or fixed data. The database-name check runs only when `druid.xml` exists (MetaStoreUtils.java:490, 508-518); the `druid-template.xml` path (lines 553-572) never checks the name, so `CheckMetastoreUrl` models the `druid.xml` path only.
- `getMysqlDBName` is not modelled; the database name is an input. `None` stands for a URL it cannot name.
- The MySQL version query is not modelled; `mysqlOldRelease` is an input.
- Reading `characterTakeUpBytes` from the configuration is not modelled; the value is an input.
- Null map values and null list elements are left out: `getKey` with a null value in the map, and `StringUtils.join` over nulls. The model's strings are never null.
- JavaLang.Div: does not model the overflow of `Integer.MIN_VALUE / -1`, which Java returns as `Integer.MIN_VALUE`; the only division in the model is 767 by the configured byte count, which cannot overflow.
- MetaStoreUtils.GetKey: a `HashMap`'s iteration order is not modelled. Any enumeration of the keys is allowed, so "first" means first in the given order.
- MetaStoreUtils.TableList: the round trip only covers names without a single quote. Such a name would make the list ambiguous, and none of the metastore's tables contains one.

## Findings

| source | as written | input that shows it | evidently intended | confidence | as-written member | corrected member |
|---|---|---|---|---|---|---|
| smart-server/src/main/java/org/smartdata/server/cmdlet/hazelcast/HazelcastExecutorService.java:85 | `new Random().nextInt() % members.length` is negative for a negative draw, so `members[index]` throws | two registered workers, `nextInt()` returning -1: the index is -1 and `execute` throws `ArrayIndexOutOfBoundsException` instead of dispatching | an index in `[0, members.length)`, as `nextInt(members.length)` or `Math.floorMod` gives, so dispatch succeeds whenever a worker is registered | not executed | HazelcastExecutor.Execute (counterexample ExecutorTraces.NegativeDrawThrows) | HazelcastExecutor.ExecuteCorrected (ExecutorTraces.CorrectedDispatchKeepsInvariants) |
