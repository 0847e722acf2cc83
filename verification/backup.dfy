/** The per-instance backup procedure of the script, as specification
    functions over an oracle that stands for the remote Redis instance, and
    the properties of that procedure.

    For each configured instance the script checks that the instance answers
    and is a replica ("slave"), reads its dump directory, waits while a prior
    background save is in progress, triggers its own background save, waits
    for that save, and pulls the dump file with rsync. Every failure appends
    "addr:port" to FAILED_BACKUP. The two waits keep a retry counter `it`:
    while `it <= 30` a busy answer increments it; after that, a busy answer
    appends a failure entry and the loop asks again, so an instance that
    stays busy is not skipped. */
module Backup {
  import opened Decimal
  import opened Formats

  /** One entry of REDIS_INSTANCES. */
  datatype Instance = Instance(addr: string, port: int)

  const REDIS_INSTANCES: seq<Instance> := [Instance("127.0.0.1", 6379), Instance("127.0.0.2", 6380)]

  /** The largest value of `it` at which a busy answer is still a retry. */
  const MAX_RETRY := 30

  /** What `r.info()['role']` yields: a connection error or a role name. */
  datatype RoleAnswer = Unreachable | Role(name: string)

  /** The remote instance as seen by the script: its role answer, the `dir`
      entry of its configuration, and the successive values of
      `rdb_bgsave_in_progress` it reports before and after the trigger.
      Answers beyond the end of a sequence read as "not busy". */
  datatype Remote = Remote(role: RoleAnswer, dir: string, beforeTrigger: seq<int>, afterTrigger: seq<int>)

  /** `is_redis_available`: reachable and in the replica role. */
  predicate IsRedisAvailable(role: RoleAnswer) {
    match role
    case Unreachable => false
    case Role(name) => name == "slave"
  }

  /** `is_backup_running`, on the value of `rdb_bgsave_in_progress`. */
  predicate IsBackupRunning(bgsaveInProgress: int) {
    bgsaveInProgress != 0
  }

  /** The number of busy answers a wait loop consumes before it sees "not busy". */
  function BusyAnswers(polls: seq<int>): (k: nat)
    ensures k <= |polls|
    ensures forall j :: 0 <= j < k ==> IsBackupRunning(polls[j])
    ensures k < |polls| ==> !IsBackupRunning(polls[k])
  {
    if polls == [] || !IsBackupRunning(polls[0]) then 0 else 1 + BusyAnswers(polls[1..])
  }

  /** The two wait loops: before the trigger (a save the script did not
      start) and after it (the script's own save). */
  datatype Phase = PriorDump | OwnDump

  /** The messages `print_log` writes for an instance. */
  datatype Message =
    | UnableToConnect
    | NotSlave
    | PriorDumpWait(it: nat)
    | PriorDumpTimeout
    | StartDump
    | OwnDumpWait(it: nat)
    | OwnDumpTimeout
    | DumpDone

  function MessageText(m: Message): string {
    match m
    case UnableToConnect => "Unable to connect, skipping instance"
    case NotSlave => "Not slave, skipping instance"
    case PriorDumpWait(it) => "Another dump is already in progress, please wait " + NatToString(it) + "/30"
    case PriorDumpTimeout => "Another dump is already in progress, too many retries, skipping..."
    case StartDump => "Start backgroup dump"
    case OwnDumpWait(it) => "Dump in progress, please wait " + NatToString(it) + "/30"
    case OwnDumpTimeout => "Dump took too many time, skipping..."
    case DumpDone => "Dump done"
  }

  /** A counter message determines its counter. */
  lemma WaitTextInjective(prefix: string, i: nat, j: nat)
    requires prefix + NatToString(i) + "/30" == prefix + NatToString(j) + "/30"
    ensures i == j
  {
    SuffixCancel(prefix + NatToString(i), prefix + NatToString(j), "/30");
    PrefixCancel(prefix, NatToString(i), NatToString(j));
    NatToStringInjective(i, j);
  }

  /** The message about a prior dump ends in its counter, which follows a
      space at position 48. */
  lemma PriorDumpWaitShape(i: nat)
    ensures var text := MessageText(PriorDumpWait(i));
      |text| >= 53 && text[48] == ' ' && text[|text| - 1] == '0'
  {
    NatToStringDigits(i);
    assert MessageText(PriorDumpWait(i)) == "Another dump is already in progress, please wait " + NatToString(i) + "/30";
  }

  /** The message about the script's own dump has its counter from position 30. */
  lemma OwnDumpWaitShape(i: nat)
    ensures var text := MessageText(OwnDumpWait(i));
      && |text| >= 34 && text[|text| - 1] == '0'
      && forall k :: 30 <= k < |text| - 3 ==> IsDigit(text[k])
  {
    var text := MessageText(OwnDumpWait(i));
    NatToStringDigits(i);
    assert text == "Dump in progress, please wait " + NatToString(i) + "/30";
    forall k | 30 <= k < |text| - 3
      ensures IsDigit(text[k])
    {
      assert text[k] == NatToString(i)[k - 30];
    }
  }

  /** No fixed message ends in a digit. */
  lemma FixedMessageEnd(m: Message)
    requires !m.PriorDumpWait? && !m.OwnDumpWait?
    ensures var text := MessageText(m); |text| > 0 && text[|text| - 1] != '0'
  {
  }

  /** The fixed messages differ from each other. */
  lemma FixedMessagesDistinct(m1: Message, m2: Message)
    requires !m1.PriorDumpWait? && !m1.OwnDumpWait? && !m2.PriorDumpWait? && !m2.OwnDumpWait?
    ensures MessageText(m1) == MessageText(m2) ==> m1 == m2
  {
  }

  /** Distinct messages are written differently, so a printed line tells
      which step the script was at. */
  lemma MessageTextInjective(m1: Message, m2: Message)
    ensures MessageText(m1) == MessageText(m2) ==> m1 == m2
  {
    if MessageText(m1) == MessageText(m2) {
      if m1.PriorDumpWait? && m2.PriorDumpWait? {
        WaitTextInjective("Another dump is already in progress, please wait ", m1.it, m2.it);
      } else if m1.OwnDumpWait? && m2.OwnDumpWait? {
        WaitTextInjective("Dump in progress, please wait ", m1.it, m2.it);
      } else if !m1.PriorDumpWait? && !m1.OwnDumpWait? && !m2.PriorDumpWait? && !m2.OwnDumpWait? {
        FixedMessagesDistinct(m1, m2);
      } else {
        MessageEnd(m1);
        MessageEnd(m2);
        if m1.PriorDumpWait? && m2.OwnDumpWait? {
          PriorDumpWaitShape(m1.it);
          OwnDumpWaitShape(m2.it);
        } else if m1.OwnDumpWait? && m2.PriorDumpWait? {
          OwnDumpWaitShape(m1.it);
          PriorDumpWaitShape(m2.it);
        }
      }
    }
  }

  /** Only the two counter messages end in a digit. */
  lemma MessageEnd(m: Message)
    ensures var text := MessageText(m);
      |text| > 0 && (text[|text| - 1] == '0' <==> m.PriorDumpWait? || m.OwnDumpWait?)
  {
    if m.PriorDumpWait? {
      PriorDumpWaitShape(m.it);
    } else if m.OwnDumpWait? {
      OwnDumpWaitShape(m.it);
    } else {
      FixedMessageEnd(m);
    }
  }

  /** Why `is_redis_available` turned the instance down. */
  function SkipMessage(role: RoleAnswer): Message {
    if role.Unreachable? then UnableToConnect else NotSlave
  }

  const LOCK_PRESENT_MESSAGE := "Lock file already present, exit script"

  /** What the script does to the world, in order. */
  datatype Effect =
    | Print(text: string)
    | MakeDirs(path: string)
    | Log(inst: Instance, msg: Message)
    | ConfigGet(inst: Instance, configDir: string)
    | BgSave(inst: Instance)
    | Rsync(inst: Instance, backupDir: string)
    | LockCreated
    | LockRemoved

  /** The dump path derived from a `config_get("dir")` answer. */
  function DumpPathOf(e: Effect): string
    requires e.ConfigGet?
  {
    DumpPath(e.configDir)
  }

  /** The two operands of the `rsync -t` command an rsync effect runs. */
  function RsyncOperands(e: Effect): (string, string)
    requires e.Rsync?
  {
    (RsyncSource(e.inst.addr, e.inst.port), RsyncDestination(e.backupDir, e.inst.addr, e.inst.port))
  }

  /** The line a `print` or `print_log` effect writes to standard output. */
  function Output(e: Effect): string
    requires e.Print? || e.Log?
  {
    if e.Print? then e.text else LogLine(e.inst.addr, e.inst.port, MessageText(e.msg))
  }

  datatype Kind = PrintKind | MakeDirsKind | LogKind | ConfigGetKind | BgSaveKind | RsyncKind | LockCreatedKind | LockRemovedKind

  function KindOf(e: Effect): Kind {
    match e
    case Print(_) => PrintKind
    case MakeDirs(_) => MakeDirsKind
    case Log(_, _) => LogKind
    case ConfigGet(_, _) => ConfigGetKind
    case BgSave(_) => BgSaveKind
    case Rsync(_, _) => RsyncKind
    case LockCreated => LockCreatedKind
    case LockRemoved => LockRemovedKind
  }

  /** How many effects of kind `k` a trace holds. */
  function Count(t: seq<Effect>, k: Kind): nat {
    if t == [] then 0
    else Count(t[..|t| - 1], k) + (if KindOf(t[|t| - 1]) == k then 1 else 0)
  }

  /** The FAILED_BACKUP entry of an instance. */
  function Tag(inst: Instance): string {
    FailureTag(inst.addr, inst.port)
  }

  /** The FAILED_BACKUP entries naming the given instances, in order. The
      model keeps FAILED_BACKUP as the sequence of instances its entries
      name; by TagInjective the two determine each other. */
  function Tags(failed: seq<Instance>): (tags: seq<string>)
    ensures |tags| == |failed|
    ensures forall i :: 0 <= i < |failed| ==> tags[i] == Tag(failed[i])
  {
    if failed == [] then [] else Tags(failed[..|failed| - 1]) + [Tag(failed[|failed| - 1])]
  }

  /** Distinct instances have distinct FAILED_BACKUP entries. */
  lemma TagInjective(a: Instance, b: Instance)
    requires Tag(a) == Tag(b)
    ensures a == b
  {
    FailureTagInjective(a.addr, a.port, b.addr, b.port);
  }

  /** An instance's entry is in FAILED_BACKUP exactly when the instance is. */
  lemma TagsMembership(failed: seq<Instance>, inst: Instance)
    ensures Tag(inst) in Tags(failed) <==> inst in failed
  {
    var tags := Tags(failed);
    if Tag(inst) in tags {
      var i :| 0 <= i < |tags| && tags[i] == Tag(inst);
      TagInjective(failed[i], inst);
    }
    if inst in failed {
      var i :| 0 <= i < |failed| && failed[i] == inst;
      assert tags[i] == Tag(inst);
    }
  }

  function Repeat<T>(x: T, n: nat): (r: seq<T>)
    ensures |r| == n && forall i :: 0 <= i < n ==> r[i] == x
  {
    if n == 0 then [] else Repeat(x, n - 1) + [x]
  }

  /** The value of `it` once a wait loop has consumed `k` busy answers. */
  function Retries(k: nat): (it: nat)
    ensures it <= MAX_RETRY + 1
    ensures it + Overruns(k) == k
    ensures k <= MAX_RETRY + 1 ==> it == k
  {
    if k <= MAX_RETRY + 1 then k else MAX_RETRY + 1
  }

  /** The busy answers a wait loop consumes after `it` has stopped growing;
      each appends one failure entry. */
  function Overruns(k: nat): nat {
    if k <= MAX_RETRY + 1 then 0 else k - (MAX_RETRY + 1)
  }

  /** The log line written for the busy answer numbered `j` (from 0). */
  function PollLog(inst: Instance, phase: Phase, j: nat): Effect {
    Log(inst, match phase
      case PriorDump => if j <= MAX_RETRY then PriorDumpWait(j) else PriorDumpTimeout
      case OwnDump => if j <= MAX_RETRY then OwnDumpWait(j) else OwnDumpTimeout)
  }

  /** What a wait loop writes for `k` busy answers: one log line each. */
  function WaitTrace(inst: Instance, phase: Phase, k: nat): (t: seq<Effect>)
    ensures |t| == k
  {
    if k == 0 then [] else WaitTrace(inst, phase, k - 1) + [PollLog(inst, phase, k - 1)]
  }

  /** The line for the busy answer numbered `j` is the `j`-th of the wait. */
  lemma {:induction false} WaitTraceAt(inst: Instance, phase: Phase, k: nat, j: nat)
    requires j < k
    ensures WaitTrace(inst, phase, k)[j] == PollLog(inst, phase, j)
    decreases k
  {
    if j < k - 1 {
      WaitTraceAt(inst, phase, k - 1, j);
    }
  }

  /** What a wait loop appends to FAILED_BACKUP for `k` busy answers. */
  function WaitFailures(inst: Instance, k: nat): seq<Instance> {
    Repeat(inst, Overruns(k))
  }

  /** One more busy answer: one more log line, and either one more retry
      or one more failure entry. */
  lemma WaitStep(inst: Instance, phase: Phase, i: nat)
    ensures WaitTrace(inst, phase, i + 1) == WaitTrace(inst, phase, i) + [PollLog(inst, phase, i)]
    ensures i <= MAX_RETRY ==> Retries(i + 1) == Retries(i) + 1 && WaitFailures(inst, i + 1) == WaitFailures(inst, i)
    ensures i > MAX_RETRY ==> Retries(i + 1) == Retries(i) && WaitFailures(inst, i + 1) == WaitFailures(inst, i) + [inst]
  {
  }

  /** Everything the main loop does for one instance. */
  function InstanceTrace(inst: Instance, remote: Remote, backupDir: string): seq<Effect> {
    if !IsRedisAvailable(remote.role) then
      [Log(inst, SkipMessage(remote.role))]
    else
      [ConfigGet(inst, remote.dir)]
      + WaitTrace(inst, PriorDump, BusyAnswers(remote.beforeTrigger))
      + [Log(inst, StartDump), BgSave(inst)]
      + WaitTrace(inst, OwnDump, BusyAnswers(remote.afterTrigger))
      + [Log(inst, DumpDone),
         Rsync(inst, backupDir)]
  }

  /** What the main loop appends to FAILED_BACKUP for one instance. */
  function InstanceFailures(inst: Instance, remote: Remote): seq<Instance> {
    if !IsRedisAvailable(remote.role) then [inst]
    else WaitFailures(inst, BusyAnswers(remote.beforeTrigger)) + WaitFailures(inst, BusyAnswers(remote.afterTrigger))
  }

  /** Everything the main loop does for the instances in order. */
  function RunTrace(instances: seq<Instance>, remotes: seq<Remote>, backupDir: string): seq<Effect>
    requires |remotes| == |instances|
  {
    if instances == [] then []
    else
      var n := |instances| - 1;
      RunTrace(instances[..n], remotes[..n], backupDir) + InstanceTrace(instances[n], remotes[n], backupDir)
  }

  /** FAILED_BACKUP at the end of the main loop. */
  function RunFailures(instances: seq<Instance>, remotes: seq<Remote>): seq<Instance>
    requires |remotes| == |instances|
  {
    if instances == [] then []
    else
      var n := |instances| - 1;
      RunFailures(instances[..n], remotes[..n]) + InstanceFailures(instances[n], remotes[n])
  }

  /** Running one more instance extends the run's trace and failures by that instance's. */
  lemma RunStep(instances: seq<Instance>, remotes: seq<Remote>, backupDir: string, n: nat)
    requires |remotes| == |instances| && n < |instances|
    ensures RunTrace(instances[..n + 1], remotes[..n + 1], backupDir)
         == RunTrace(instances[..n], remotes[..n], backupDir) + InstanceTrace(instances[n], remotes[n], backupDir)
    ensures RunFailures(instances[..n + 1], remotes[..n + 1])
         == RunFailures(instances[..n], remotes[..n]) + InstanceFailures(instances[n], remotes[n])
  {
    assert instances[..n + 1][..n] == instances[..n];
    assert remotes[..n + 1][..n] == remotes[..n];
  }

  /** The number of remotes that pass the availability check. */
  function AvailableCount(remotes: seq<Remote>): nat {
    if remotes == [] then 0
    else AvailableCount(remotes[..|remotes| - 1]) + (if IsRedisAvailable(remotes[|remotes| - 1].role) then 1 else 0)
  }

  // ---------------------------------------------------------------------
  // Properties

  lemma {:induction false} CountAppend(a: seq<Effect>, b: seq<Effect>, k: Kind)
    ensures Count(a + b, k) == Count(a, k) + Count(b, k)
    decreases |b|
  {
    if b == [] {
      assert a + b == a;
    } else {
      assert (a + b)[..|a + b| - 1] == a + b[..|b| - 1];
      assert (a + b)[|a + b| - 1] == b[|b| - 1];
      CountAppend(a, b[..|b| - 1], k);
    }
  }

  lemma CountSingle(e: Effect, k: Kind)
    ensures Count([e], k) == if KindOf(e) == k then 1 else 0
  {
    assert [e][..0] == [];
  }

  lemma CountPair(d: Effect, e: Effect, k: Kind)
    ensures Count([d, e], k) == Count([d], k) + Count([e], k)
  {
    assert [d, e] == [d] + [e];
    CountAppend([d], [e], k);
  }

  /** A wait loop writes log lines only: it neither triggers nor transfers. */
  lemma {:induction false} WaitTraceOnlyLogs(inst: Instance, phase: Phase, k: nat, kind: Kind)
    requires kind != LogKind
    ensures Count(WaitTrace(inst, phase, k), kind) == 0
    decreases k
  {
    if k > 0 {
      var t := WaitTrace(inst, phase, k);
      assert t[..|t| - 1] == WaitTrace(inst, phase, k - 1);
      WaitTraceOnlyLogs(inst, phase, k - 1, kind);
    }
  }

  /** An unreachable or non-replica instance gets exactly one failure entry,
      one log line giving the reason, and no config query, trigger or
      transfer. */
  lemma SkippedInstance(inst: Instance, remote: Remote, backupDir: string)
    requires !IsRedisAvailable(remote.role)
    ensures InstanceFailures(inst, remote) == [inst]
    ensures InstanceTrace(inst, remote, backupDir) == [Log(inst, SkipMessage(remote.role))]
    ensures Count(InstanceTrace(inst, remote, backupDir), ConfigGetKind) == 0
    ensures Count(InstanceTrace(inst, remote, backupDir), BgSaveKind) == 0
    ensures Count(InstanceTrace(inst, remote, backupDir), RsyncKind) == 0
    ensures Count(InstanceTrace(inst, remote, backupDir), LockCreatedKind) == 0
    ensures Count(InstanceTrace(inst, remote, backupDir), LockRemovedKind) == 0
  {
  }

  /** The trace of an available instance, piece by piece. */
  lemma AvailableTraceShape(inst: Instance, remote: Remote, backupDir: string)
    requires IsRedisAvailable(remote.role)
    ensures InstanceTrace(inst, remote, backupDir)
      == [ConfigGet(inst, remote.dir)]
       + WaitTrace(inst, PriorDump, BusyAnswers(remote.beforeTrigger))
       + [Log(inst, StartDump), BgSave(inst)]
       + WaitTrace(inst, OwnDump, BusyAnswers(remote.afterTrigger))
       + [Log(inst, DumpDone),
          Rsync(inst, backupDir)]
  {
  }

  /** An available instance is queried for its configuration once, triggered
      once and transferred once. */
  lemma AvailableInstanceCounts(inst: Instance, remote: Remote, backupDir: string)
    requires IsRedisAvailable(remote.role)
    ensures Count(InstanceTrace(inst, remote, backupDir), ConfigGetKind) == 1
    ensures Count(InstanceTrace(inst, remote, backupDir), BgSaveKind) == 1
    ensures Count(InstanceTrace(inst, remote, backupDir), RsyncKind) == 1
    ensures Count(InstanceTrace(inst, remote, backupDir), LockCreatedKind) == 0
    ensures Count(InstanceTrace(inst, remote, backupDir), LockRemovedKind) == 0
  {
    var k1, k2 := BusyAnswers(remote.beforeTrigger), BusyAnswers(remote.afterTrigger);
    var head := [ConfigGet(inst, remote.dir)];
    var w1 := WaitTrace(inst, PriorDump, k1);
    var mid := [Log(inst, StartDump), BgSave(inst)];
    var w2 := WaitTrace(inst, OwnDump, k2);
    var tail := [Log(inst, DumpDone),
                 Rsync(inst, backupDir)];
    AvailableTraceShape(inst, remote, backupDir);
    forall kind | kind != LogKind
      ensures Count(InstanceTrace(inst, remote, backupDir), kind) == Count(head, kind) + Count(mid, kind) + Count(tail, kind)
    {
      WaitTraceOnlyLogs(inst, PriorDump, k1, kind);
      WaitTraceOnlyLogs(inst, OwnDump, k2, kind);
      CountAppend(head, w1, kind);
      CountAppend(head + w1, mid, kind);
      CountAppend(head + w1 + mid, w2, kind);
      CountAppend(head + w1 + mid + w2, tail, kind);
    }
    forall kind | kind != LogKind
      ensures Count(head, kind) == if kind == ConfigGetKind then 1 else 0
      ensures Count(mid, kind) == if kind == BgSaveKind then 1 else 0
      ensures Count(tail, kind) == if kind == RsyncKind then 1 else 0
    {
      CountSingle(head[0], kind);
      CountPair(mid[0], mid[1], kind);
      CountSingle(mid[0], kind);
      CountSingle(mid[1], kind);
      CountPair(tail[0], tail[1], kind);
      CountSingle(tail[0], kind);
      CountSingle(tail[1], kind);
    }
  }

  /** For an available instance, the k1 log lines of the first wait come
      first, then the trigger, then the k2 log lines of the second wait, and
      the rsync of `addr::redis_backups/port/dump.rdb` to `dir/addr_port.rdb`
      is the last thing done: bgsave happens only once the first wait is
      over. */
  lemma AvailableInstanceOrder(inst: Instance, remote: Remote, backupDir: string)
    requires IsRedisAvailable(remote.role)
    ensures var t := InstanceTrace(inst, remote, backupDir);
      var k1, k2 := BusyAnswers(remote.beforeTrigger), BusyAnswers(remote.afterTrigger);
      && |t| == k1 + k2 + 5
      && t[0] == ConfigGet(inst, remote.dir)
      && t[1..k1 + 1] == WaitTrace(inst, PriorDump, k1)
      && t[k1 + 2] == BgSave(inst)
      && t[k1 + 3..k1 + k2 + 3] == WaitTrace(inst, OwnDump, k2)
      && t[|t| - 1] == Rsync(inst, backupDir)
  {
    var k1, k2 := BusyAnswers(remote.beforeTrigger), BusyAnswers(remote.afterTrigger);
    var w1 := WaitTrace(inst, PriorDump, k1);
    var w2 := WaitTrace(inst, OwnDump, k2);
    var a := [ConfigGet(inst, remote.dir)] + w1;
    var b := a + [Log(inst, StartDump), BgSave(inst)];
    var c := b + w2;
    var t := InstanceTrace(inst, remote, backupDir);
    AvailableTraceShape(inst, remote, backupDir);
    assert a[1..] == w1;
    assert c[|b|..] == w2;
    assert t[..|c|] == c;
    assert t[1..k1 + 1] == c[1..k1 + 1] == b[1..k1 + 1] == a[1..];
  }

  /** FAILED_BACKUP receives only this instance's entry: once for a skipped
      instance, and once per busy answer past the retry limit otherwise. */
  lemma InstanceFailureCount(inst: Instance, remote: Remote)
    ensures var f := InstanceFailures(inst, remote);
      && |f| == (if IsRedisAvailable(remote.role)
                 then Overruns(BusyAnswers(remote.beforeTrigger)) + Overruns(BusyAnswers(remote.afterTrigger))
                 else 1)
      && forall i :: 0 <= i < |f| ==> f[i] == inst
  {
  }

  /** An instance is left out of FAILED_BACKUP exactly when it is an
      available replica and each wait saw at most 31 busy answers. */
  lemma InstanceSucceeds(inst: Instance, remote: Remote)
    ensures InstanceFailures(inst, remote) == [] <==>
      && IsRedisAvailable(remote.role)
      && BusyAnswers(remote.beforeTrigger) <= MAX_RETRY + 1
      && BusyAnswers(remote.afterTrigger) <= MAX_RETRY + 1
  {
    InstanceFailureCount(inst, remote);
  }

  /** The timeout branch of the first wait does not skip the instance: an
      available replica that answers "busy" more than 31 times before the
      trigger is recorded as failed once per extra answer, and is then
      triggered and transferred all the same. */
  lemma TimeoutDoesNotSkip(inst: Instance, remote: Remote, backupDir: string)
    requires IsRedisAvailable(remote.role)
    requires BusyAnswers(remote.beforeTrigger) > MAX_RETRY + 1
    ensures |InstanceFailures(inst, remote)| >= BusyAnswers(remote.beforeTrigger) - (MAX_RETRY + 1)
    ensures BgSave(inst) in InstanceTrace(inst, remote, backupDir)
    ensures Rsync(inst, backupDir)
      in InstanceTrace(inst, remote, backupDir)
  {
    InstanceFailureCount(inst, remote);
    AvailableInstanceOrder(inst, remote, backupDir);
    var t := InstanceTrace(inst, remote, backupDir);
    assert t[BusyAnswers(remote.beforeTrigger) + 2] == BgSave(inst);
  }

  /** For one instance, the printed line determines the message, hence the
      step the script was at and, for a counter message, the counter. */
  lemma OutputDeterminesMessage(inst: Instance, m1: Message, m2: Message)
    requires Output(Log(inst, m1)) == Output(Log(inst, m2))
    ensures m1 == m2
  {
    LogLineInjective(inst.addr, inst.port, MessageText(m1), MessageText(m2));
    MessageTextInjective(m1, m2);
  }

  /** The dump path of an available instance is built from its own `dir`
      setting, and distinct settings give distinct dump paths. */
  lemma AvailableDumpPath(inst: Instance, remote: Remote, other: Remote, backupDir: string)
    requires IsRedisAvailable(remote.role) && IsRedisAvailable(other.role)
    requires remote.dir != other.dir
    ensures var t, u := InstanceTrace(inst, remote, backupDir), InstanceTrace(inst, other, backupDir);
      && t[0].ConfigGet? && DumpPathOf(t[0]) == DumpPath(remote.dir)
      && u[0].ConfigGet? && DumpPathOf(t[0]) != DumpPathOf(u[0])
  {
    AvailableInstanceOrder(inst, remote, backupDir);
    AvailableInstanceOrder(inst, other, backupDir);
    if DumpPath(remote.dir) == DumpPath(other.dir) {
      DumpPathInjective(remote.dir, other.dir);
    }
  }

  /** Two transfers into the same backup directory for distinct instances
      read distinct sources and write distinct files. */
  lemma RsyncOperandsDistinct(e1: Effect, e2: Effect)
    requires e1.Rsync? && e2.Rsync? && e1.backupDir == e2.backupDir && e1.inst != e2.inst
    ensures RsyncOperands(e1).0 != RsyncOperands(e2).0
    ensures RsyncOperands(e1).1 != RsyncOperands(e2).1
  {
    if RsyncOperands(e1).0 == RsyncOperands(e2).0 {
      RsyncSourceInjective(e1.inst.addr, e1.inst.port, e2.inst.addr, e2.inst.port);
    }
    if RsyncOperands(e1).1 == RsyncOperands(e2).1 {
      RsyncDestinationInjective(e1.backupDir, e1.inst.addr, e1.inst.port, e2.inst.addr, e2.inst.port);
    }
  }

  /** The first configured instance and its FAILED_BACKUP entry. */
  lemma FirstInstanceSample()
    ensures REDIS_INSTANCES[0] == Instance("127.0.0.1", 6379)
    ensures Tag(REDIS_INSTANCES[0]) == "127.0.0.1:6379"
  {
    SampleTag();
  }

  /** The first line the first configured instance prints while a prior
      dump is in progress. */
  lemma FirstInstanceLogSample()
    ensures Output(Log(REDIS_INSTANCES[0], PriorDumpWait(0)))
         == "[127.0.0.1:6379] " + "Another dump is already in progress, please wait 0/30"
  {
    SampleLogLine(MessageText(PriorDumpWait(0)));
    assert NatToString(0) == "0";
  }

  /** The transfer of the first configured instance at 14:22 on 5 March 2024. */
  lemma FirstInstanceTransferSample()
    ensures RsyncOperands(Rsync(REDIS_INSTANCES[0], BackupDirectory(ROOT_BACKUP, Timestamp(2024, 3, 5, 14, 22))))
         == ("127.0.0.1::redis_backups/6379/dump.rdb", "/data/redis/backups/2024/3/5/14/22/127.0.0.1_6379.rdb")
  {
    SampleBackupDirectory();
    SampleSource();
    SampleDestination();
  }

  /** The configured instance at position `i` is `inst`, and it failed. */
  predicate FailedAt(instances: seq<Instance>, remotes: seq<Remote>, i: int, inst: Instance)
    requires |remotes| == |instances|
  {
    0 <= i < |instances| && instances[i] == inst && InstanceFailures(instances[i], remotes[i]) != []
  }

  lemma InstanceFailuresMembership(inst: Instance, remote: Remote, x: Instance)
    ensures x in InstanceFailures(inst, remote) <==> InstanceFailures(inst, remote) != [] && inst == x
  {
    InstanceFailureCount(inst, remote);
    var f := InstanceFailures(inst, remote);
    if f != [] {
      assert f[0] == inst;
    }
  }

  /** Every failed instance is recorded in FAILED_BACKUP. */
  lemma {:induction false} FailedInstanceRecorded(instances: seq<Instance>, remotes: seq<Remote>, i: int, inst: Instance)
    requires |remotes| == |instances|
    requires FailedAt(instances, remotes, i, inst)
    ensures inst in RunFailures(instances, remotes)
    decreases |instances|
  {
    var n := |instances| - 1;
    var f := InstanceFailures(instances[n], remotes[n]);
    assert RunFailures(instances, remotes) == RunFailures(instances[..n], remotes[..n]) + f;
    if i == n {
      InstanceFailuresMembership(instances[n], remotes[n], inst);
    } else {
      assert instances[..n][i] == instances[i] && remotes[..n][i] == remotes[i];
      FailedInstanceRecorded(instances[..n], remotes[..n], i, inst);
    }
  }

  /** Every entry of FAILED_BACKUP comes from a failed instance. */
  lemma {:induction false} RecordedFailureWitness(instances: seq<Instance>, remotes: seq<Remote>, inst: Instance)
    returns (i: int)
    requires |remotes| == |instances|
    requires inst in RunFailures(instances, remotes)
    ensures FailedAt(instances, remotes, i, inst)
    decreases |instances|
  {
    var n := |instances| - 1;
    var f := InstanceFailures(instances[n], remotes[n]);
    assert RunFailures(instances, remotes) == RunFailures(instances[..n], remotes[..n]) + f;
    InstanceFailuresMembership(instances[n], remotes[n], inst);
    if inst in f {
      i := n;
    } else {
      i := RecordedFailureWitness(instances[..n], remotes[..n], inst);
      assert instances[..n][i] == instances[i] && remotes[..n][i] == remotes[i];
    }
  }

  /** Over a whole run, FAILED_BACKUP holds the entry of an instance exactly
      when some configured position holding that instance failed. */
  lemma RunFailuresMembership(instances: seq<Instance>, remotes: seq<Remote>, inst: Instance)
    requires |remotes| == |instances|
    ensures Tag(inst) in Tags(RunFailures(instances, remotes)) <==> exists i :: FailedAt(instances, remotes, i, inst)
  {
    TagsMembership(RunFailures(instances, remotes), inst);
    if inst in RunFailures(instances, remotes) {
      var i := RecordedFailureWitness(instances, remotes, inst);
    }
    if i :| FailedAt(instances, remotes, i, inst) {
      FailedInstanceRecorded(instances, remotes, i, inst);
    }
  }

  /** Over a whole run, the trigger and the transfer happen once for each
      available instance and never for the others. */
  lemma {:induction false} RunTriggersAndTransfers(instances: seq<Instance>, remotes: seq<Remote>, backupDir: string)
    requires |remotes| == |instances|
    ensures Count(RunTrace(instances, remotes, backupDir), BgSaveKind) == AvailableCount(remotes)
    ensures Count(RunTrace(instances, remotes, backupDir), RsyncKind) == AvailableCount(remotes)
    ensures Count(RunTrace(instances, remotes, backupDir), ConfigGetKind) == AvailableCount(remotes)
    decreases |instances|
  {
    if instances != [] {
      var n := |instances| - 1;
      RunTriggersAndTransfers(instances[..n], remotes[..n], backupDir);
      assert remotes[..|remotes| - 1] == remotes[..n];
      forall kind | kind in {BgSaveKind, RsyncKind, ConfigGetKind}
        ensures Count(RunTrace(instances, remotes, backupDir), kind)
             == Count(RunTrace(instances[..n], remotes[..n], backupDir), kind)
              + Count(InstanceTrace(instances[n], remotes[n], backupDir), kind)
      {
        CountAppend(RunTrace(instances[..n], remotes[..n], backupDir), InstanceTrace(instances[n], remotes[n], backupDir), kind);
      }
      if IsRedisAvailable(remotes[n].role) {
        AvailableInstanceCounts(instances[n], remotes[n], backupDir);
      } else {
        SkippedInstance(instances[n], remotes[n], backupDir);
      }
    }
  }

  /** The main loop never touches the lock file. */
  lemma {:induction false} RunTraceLockFree(instances: seq<Instance>, remotes: seq<Remote>, backupDir: string)
    requires |remotes| == |instances|
    ensures Count(RunTrace(instances, remotes, backupDir), LockCreatedKind) == 0
    ensures Count(RunTrace(instances, remotes, backupDir), LockRemovedKind) == 0
    decreases |instances|
  {
    if instances != [] {
      var n := |instances| - 1;
      RunTraceLockFree(instances[..n], remotes[..n], backupDir);
      assert remotes[..|remotes| - 1] == remotes[..n];
      var before, last := RunTrace(instances[..n], remotes[..n], backupDir), InstanceTrace(instances[n], remotes[n], backupDir);
      CountAppend(before, last, LockCreatedKind);
      CountAppend(before, last, LockRemovedKind);
      if IsRedisAvailable(remotes[n].role) {
        AvailableInstanceCounts(instances[n], remotes[n], backupDir);
      } else {
        SkippedInstance(instances[n], remotes[n], backupDir);
      }
    }
  }

  /** What a run that takes the lock does, in order: create the lock file,
      create the backup directory when it is absent, run the main loop,
      remove the lock file. */
  function LockedRunTrace(instances: seq<Instance>, remotes: seq<Remote>, backupDir: string, dirPresent: bool): seq<Effect>
    requires |remotes| == |instances|
  {
    [LockCreated] + (if dirPresent then [] else [MakeDirs(backupDir)]) + RunTrace(instances, remotes, backupDir) + [LockRemoved]
  }

  /** The lock file is created first and removed last, and neither happens
      anywhere in between: every instance is processed while it exists. */
  lemma LockBracketsRun(instances: seq<Instance>, remotes: seq<Remote>, backupDir: string, dirPresent: bool)
    requires |remotes| == |instances|
    ensures var t := LockedRunTrace(instances, remotes, backupDir, dirPresent);
      && t[0] == LockCreated && t[|t| - 1] == LockRemoved
      && Count(t, LockCreatedKind) == 1 && Count(t, LockRemovedKind) == 1
  {
    var mk: seq<Effect> := if dirPresent then [] else [MakeDirs(backupDir)];
    var body := RunTrace(instances, remotes, backupDir);
    RunTraceLockFree(instances, remotes, backupDir);
    forall kind | kind == LockCreatedKind || kind == LockRemovedKind
      ensures Count(LockedRunTrace(instances, remotes, backupDir, dirPresent), kind)
           == Count([LockCreated], kind) + Count(mk, kind) + Count(body, kind) + Count([LockRemoved], kind)
    {
      CountAppend([LockCreated], mk, kind);
      CountAppend([LockCreated] + mk, body, kind);
      CountAppend([LockCreated] + mk + body, [LockRemoved], kind);
      if !dirPresent {
        CountSingle(MakeDirs(backupDir), kind);
      }
    }
    CountSingle(LockCreated, LockCreatedKind);
    CountSingle(LockCreated, LockRemovedKind);
    CountSingle(LockRemoved, LockCreatedKind);
    CountSingle(LockRemoved, LockRemovedKind);
  }
}
