# redisBackup, modelled in Dafny

`redisBackup.py` backs up a fixed list of Redis replicas. The script does the following in order:

- takes a lock file;
- creates a timestamped directory under `/data/redis/backups`;
- for each configured instance:
  - checks that the instance answers and is a replica (`role == "slave"`);
  - reads its `dir` setting;
  - waits while a background save is already running;
  - triggers its own `bgsave`;
  - waits for that save to finish;
  - pulls `dump.rdb` with `rsync` into the backup directory;
- releases the lock.

Each failure appends `"addr:port"` to the global list `FAILED_BACKUP`.

The model has four modules:

- `Decimal` (decimal.dfy): Python's `%d` on integers. It renders numbers without padding, and `ParseNat`/`ParseInt` read them back. The round trip makes rendering injective.
- `Formats` (formats.dfy): the string builders. These are the backup directory, the `"addr:port"` failure entry, the log line, the dump path and the two rsync operands. Each builder has a lemma saying that its output determines its inputs: the log line determines the message for a given instance, the dump path determines the `dir` setting, and, within one backup directory, the rsync destination determines the address and the port. There are sample values for the first configured instance.
- `Backup` (backup.dfy): the per-instance procedure as specification functions over an oracle `Remote`. The oracle holds:
  - the answer to `r.info()['role']`, which is `Unreachable` or a role name;
  - the `dir` setting;
  - the successive values of `rdb_bgsave_in_progress` before and after the trigger.

  The effects of a run are a sequence of `Effect`s: printed lines, the creation and removal of the lock file, `makedirs`, log lines, `config_get`, `bgsave` and `rsync`. The module also proves the properties of the procedure.
- `Script` (script.dfy): the class `BackupScript`. It holds the lock flag, FAILED_BACKUP and the effect trace, and its methods follow the script's functions and its main block with its loops. Each method's postcondition states the new state through the functions of `Backup`.

The wait loops follow the code as written. Once `it` has passed 30, a busy answer appends another failure entry and the `continue` polls again. So a busy instance is not skipped: it is triggered and transferred once it finally answers "not busy" (`Backup.TimeoutDoesNotSkip`). The timeout messages at redisBackup.py:102 and :117 end in "skipping...", but the `continue` at :104 and :119 only starts the next iteration of the same `while`, which asks the instance again. The model follows what the code does, not what the messages announce.

FAILED_BACKUP is held as the sequence of instances its entries name. `BackupScript.FailedBackup` renders it as the `"addr:port"` strings. `Backup.TagInjective` shows that the two forms determine each other.

## Model

| member | source | states |
|---|---|---|
| Decimal.NatToString | redisBackup.py:55 | `%d` of a natural, most significant digit first; its properties are the lemmas below |
| Decimal.IntToString | redisBackup.py:88 | `%d` of an integer, with a `-` for negatives; its properties are the lemmas below |
| Decimal.NatToStringDigits | redisBackup.py:55 | `%d` of a natural is a non-empty digit string with no leading zero |
| Decimal.IntToStringShape | redisBackup.py:88 | `%d` of an integer is its digits, after a `-` exactly when it is negative |
| Decimal.ParseNatToString | redisBackup.py:55 | reading back a rendered natural gives the natural (round trip) |
| Decimal.ParseIntToString | redisBackup.py:88 | reading back a rendered integer gives the integer (round trip) |
| Decimal.IntToStringInjective | redisBackup.py:88 | distinct ports render differently |
| Decimal.NatToStringInjective | redisBackup.py:55 | distinct date fields render differently |
| Decimal.SeparatorNotInNumber | redisBackup.py:123-124 | the separators `/`, `:`, `_` never occur inside a rendered number |
| Formats.BackupDirectory | redisBackup.py:55 | the backup directory lies under the root, right after a `/` |
| Formats.BackupDirectoryInjective | redisBackup.py:55 | two different minutes (or roots) never share a backup directory |
| Formats.SampleBackupDirectory | redisBackup.py:54-55 | at 14:22 on 5 March 2024 the directory is `/data/redis/backups/2024/3/5/14/22`, with no zero padding |
| Formats.LogLine | redisBackup.py:73-74 | a log line is `[`, the instance's failure entry, `] ` and the message |
| Formats.LogLineInjective | redisBackup.py:73-74 | for one instance, two log lines are equal only when their messages are |
| Formats.SampleLogLine | redisBackup.py:73-74 | the first configured instance's lines start with `[127.0.0.1:6379] ` |
| Formats.FailureTag | redisBackup.py:88 | the `"%s:%d"` entry of an instance; its partner is FailureTagInjective |
| Formats.FailureTagInjective | redisBackup.py:88 | the `addr:port` entry determines the address and the port |
| Formats.SampleTag | redisBackup.py:88 | the first configured instance is recorded as `127.0.0.1:6379` |
| Formats.DumpPath | redisBackup.py:93 | the dump path is the `dir` setting followed directly by `dump.rdb`, with no separator added |
| Formats.DumpPathInjective | redisBackup.py:93 | two `dir` settings never give the same dump path |
| Formats.RsyncSource | redisBackup.py:123-124 | the rsync source `addr::redis_backups/port/dump.rdb`; its partner is RsyncSourceInjective |
| Formats.RsyncDestination | redisBackup.py:123-124 | the rsync destination `dir/addr_port.rdb`; its partner is RsyncDestinationInjective |
| Formats.RsyncSourceInjective | redisBackup.py:123-124 | the rsync source determines the address and the port |
| Formats.RsyncDestinationInjective | redisBackup.py:123-124 | within one backup directory, two instances never write the same file |
| Formats.SampleSource | redisBackup.py:123-124 | the first instance is pulled from `127.0.0.1::redis_backups/6379/dump.rdb` |
| Formats.SampleDestination | redisBackup.py:123-124 | the first instance's dump lands at `<backup dir>/127.0.0.1_6379.rdb` |
| Backup.IsRedisAvailable | redisBackup.py:31-46 | true exactly when the role query answers and the role is `"slave"`; SkippedInstance and AvailableInstanceCounts state its consequences |
| Backup.SkipMessage | redisBackup.py:38-46 | the reason logged for a turned-down instance: "Unable to connect, skipping instance" (:41) when the role query fails, "Not slave, skipping instance" (:44) otherwise; its partner is SkippedInstance |
| Backup.IsBackupRunning | redisBackup.py:62-70 | true exactly when `rdb_bgsave_in_progress` is nonzero; BusyAnswers states its consequences |
| Backup.MessageText | redisBackup.py:41-121 | the text of each message `print_log` writes for an instance, the counter rendered by `%d` |
| Backup.MessageTextInjective | redisBackup.py:41-121 | distinct messages, counters included, are written differently |
| Backup.OutputDeterminesMessage | redisBackup.py:73-74 | for one instance, the printed line determines the message and its counter |
| Backup.FirstInstanceSample | redisBackup.py:10 | the first configured instance is `127.0.0.1:6379`, and that is its FAILED_BACKUP entry |
| Backup.FirstInstanceLogSample | redisBackup.py:97 | its first waiting line is `[127.0.0.1:6379] Another dump is already in progress, please wait 0/30` |
| Backup.FirstInstanceTransferSample | redisBackup.py:123-124 | at 14:22 on 5 March 2024 it is pulled from `127.0.0.1::redis_backups/6379/dump.rdb` into `/data/redis/backups/2024/3/5/14/22/127.0.0.1_6379.rdb` |
| Backup.BusyAnswers | redisBackup.py:62-70 | a wait loop consumes exactly the busy answers (`rdb_bgsave_in_progress != 0`) before the first idle one |
| Backup.Retries | redisBackup.py:95-99 | `it` never exceeds 31; it equals the number of busy answers up to 31; every busy answer beyond that is an overrun |
| Backup.Overruns | redisBackup.py:95-104 | the busy answers a wait consumes after `it` has stopped at 31, each of which appends a failure entry; its partner is Retries, which proves `Retries(k) + Overruns(k) == k` |
| Backup.PollLog | redisBackup.py:95-119 | the line logged for busy answer `j`: the "please wait j/30" message of the phase while `j <= 30` (:96-97, :112-113), the phase's timeout message otherwise (:100-102, :116-117); its partners are WaitTraceAt and WaitStep |
| Backup.WaitTrace | redisBackup.py:95-119 | the log lines one wait loop writes, one per busy answer, in order; its partners are WaitTraceAt and WaitStep |
| Backup.WaitFailures | redisBackup.py:95-119 | the entries one wait loop appends to FAILED_BACKUP (:103, :118), one per overrun, all naming the instance; its partner is InstanceFailureCount |
| Backup.WaitTraceAt | redisBackup.py:95-119 | busy answer `j` logs "please wait j/30" while `j <= 30` and the timeout message after that |
| Backup.WaitStep | redisBackup.py:95-119 | one more busy answer adds one log line, and either one retry or one failure entry, never both |
| Backup.WaitTraceOnlyLogs | redisBackup.py:95-119 | a wait loop only logs: no config query, trigger or transfer |
| Backup.Tags | redisBackup.py:88 | FAILED_BACKUP holds one `addr:port` entry per recorded failure, in order |
| Backup.TagInjective | redisBackup.py:88 | distinct instances have distinct FAILED_BACKUP entries |
| Backup.TagsMembership | redisBackup.py:88 | an instance's entry is in FAILED_BACKUP exactly when the instance was recorded |
| Backup.InstanceTrace | redisBackup.py:80-124 | what one iteration of the main loop does, in order; its properties are the lemmas below |
| Backup.InstanceFailures | redisBackup.py:80-124 | what one iteration of the main loop appends to FAILED_BACKUP; its properties are the lemmas below |
| Backup.RunTrace | redisBackup.py:80-124 | the iterations' effects, concatenated in configuration order |
| Backup.RunFailures | redisBackup.py:80-124 | the iterations' FAILED_BACKUP entries, concatenated in configuration order |
| Backup.SkippedInstance | redisBackup.py:87-89 | an unreachable or non-replica instance is recorded once, logs its reason, and gets no `config_get`, `bgsave` or rsync |
| Backup.AvailableInstanceCounts | redisBackup.py:91-124 | an available replica is queried once, triggered once and transferred once |
| Backup.AvailableInstanceOrder | redisBackup.py:91-124 | for an available replica: config query, the first wait's lines, the trigger only after the first wait, the second wait's lines, and the rsync last |
| Backup.InstanceFailureCount | redisBackup.py:87-119 | an instance adds only its own entries to FAILED_BACKUP: one if skipped, otherwise one per overrun in either wait |
| Backup.InstanceSucceeds | redisBackup.py:87-119 | an instance adds nothing to FAILED_BACKUP iff it is an available replica and neither wait saw more than 31 busy answers |
| Backup.AvailableDumpPath | redisBackup.py:92-93 | an available instance's dump path comes from its own `dir` setting, and distinct settings give distinct paths |
| Backup.RsyncOperandsDistinct | redisBackup.py:123-124 | two transfers of distinct instances into one backup directory use distinct sources and distinct destination files |
| Backup.TimeoutDoesNotSkip | redisBackup.py:100-104 | after more than 31 busy answers before the trigger, the instance is recorded as failed and still triggered and transferred |
| Backup.FailedInstanceRecorded | redisBackup.py:80-124 | every failed configured instance ends up in FAILED_BACKUP |
| Backup.RecordedFailureWitness | redisBackup.py:80-124 | every entry of FAILED_BACKUP comes from a configured instance that failed |
| Backup.RunFailuresMembership | redisBackup.py:80-124 | an instance's entry is in FAILED_BACKUP after the run iff some configured instance equal to it failed |
| Backup.RunTriggersAndTransfers | redisBackup.py:80-124 | over a run, `config_get`, `bgsave` and rsync each happen once per available instance and never otherwise |
| Backup.RunTraceLockFree | redisBackup.py:80-124 | the main loop neither creates nor removes the lock file |
| Backup.LockedRunTrace | redisBackup.py:76-127 | a run that takes the lock: create the lock file, create the directory if absent, the main loop, remove the lock file |
| Backup.LockBracketsRun | redisBackup.py:76-127 | in a run that takes the lock, the lock file is created first and removed last and at no other point, so it exists while every instance is processed |
| Script.BackupScript.constructor | redisBackup.py:11 | a fresh process starts with FAILED_BACKUP empty and nothing done |
| Script.BackupScript.FailedBackup | redisBackup.py:11 | FAILED_BACKUP as strings: entry `i` is the `addr:port` of the `i`-th recorded instance |
| Script.BackupScript.GetLock | redisBackup.py:17-23 | a held lock prints the message and yields exit code 2; otherwise the lock file is created and the lock is held; FAILED_BACKUP is untouched |
| Script.BackupScript.ReleaseLock | redisBackup.py:26-28 | the held lock file is removed and nothing else changes |
| Script.BackupScript.CreateBackupDirectory | redisBackup.py:49-59 | returns the timestamped path and creates it only when it is absent |
| Script.BackupScript.PollUntilIdle | redisBackup.py:95-119 | the loop ends with `it` = Retries(busy answers) and appends exactly the wait's log lines and overrun entries; each line's counter is the loop's `it` |
| Script.BackupScript.BackupInstance | redisBackup.py:80-124 | one loop iteration appends exactly the instance's trace and failure entries |
| Script.BackupScript.BackupAll | redisBackup.py:80-124 | the main loop appends the instances' traces and failures in configuration order |
| Script.BackupScript.Run | redisBackup.py:76-127 | a held lock gives exit 2 and changes nothing else; otherwise exit 0, the lock is released, FAILED_BACKUP grows by the run's failures and the trace by LockedRunTrace, so by LockBracketsRun the lock file exists throughout the main loop |

## Left out

- The Redis client (`redis.Redis`, `info`, `config_get`, `bgsave`) is replaced by the `Remote` oracle. A `ConnectionError` raised by `config_get`, `bgsave` or a later `info` call is not modelled; only the first role query can fail.
- A remote that stays busy forever makes the source loop forever. The model cannot express it, because an oracle's answers past its end read as "not busy".
- `sleep(1)` and `sleep(5)` are left out: only the number of polls is modelled.
- `os.mknod`, `os.remove`, `os.makedirs` and `os.system` are not executed. The lock is a boolean whose creation and removal are `LockCreated` and `LockRemoved` effects, directory creation is a `MakeDirs` effect, and rsync is an `Rsync` effect whose operands `RsyncOperands` renders. The `-t` flag and the shell command line are not modelled.
- `datetime.datetime.now()` is a `Timestamp` parameter. `os.path.exists` on the backup directory is a boolean parameter.
- `print` is an effect in the trace; `Output` gives the line written.
- `exit` is a returned code.
- Script.BackupScript.Run: its "exit 0, lock released" outcome holds only for a run in which no call raises. Nothing between `get_lock()` (redisBackup.py:77) and `release_lock()` (:126) is guarded by `try`/`finally`. An exception from `config_get`, `bgsave` or an `info` call therefore ends the process with the lock file still present, and every later run exits 2. Such exceptions include any exception other than `ConnectionError` from the role query at :39, which :40 does not catch. The model has no exceptions, so it does not capture this.
- Exclusion between processes through the lock file is not modelled: the model has one owner of a flag.
- `dump_dir` (redisBackup.py:93) is computed and never used by the script. The model keeps the `dir` answer in the `ConfigGet` effect, and `DumpPathOf` renders the path.
- FAILED_BACKUP is never printed or otherwise used after the loop. The model keeps it as a field.
