/** The script itself: the lock file, FAILED_BACKUP, and the main block that
    runs every configured instance through the backup procedure. The lock
    file's existence, the FAILED_BACKUP list and the sequence of effects are
    the fields of one object; each method states its new state in terms of
    the specification functions of module Backup. */
module Script {
  import opened Formats
  import opened Backup

  /** What `get_lock` leads to: carry on, or stop the process with a code. */
  datatype LockStatus = Acquired | Exit(code: int)

  lemma AppendAssoc<T>(a: seq<T>, b: seq<T>, c: seq<T>)
    ensures a + b + c == a + (b + c)
  {
  }

  class BackupScript {
    /** Whether LOCK_FILE exists. */
    var lockHeld: bool
    /** The instances whose entries make up FAILED_BACKUP, in order. */
    var failed: seq<Instance>
    /** Everything done to the world so far, in order. */
    var trace: seq<Effect>

    /** A fresh process: FAILED_BACKUP is empty, the lock file may or may
        not be present. */
    constructor (lockPresent: bool)
      ensures lockHeld == lockPresent && failed == [] && trace == []
    {
      lockHeld := lockPresent;
      failed := [];
      trace := [];
    }

    /** FAILED_BACKUP as the script holds it: one "addr:port" entry per failure. */
    function FailedBackup(): (entries: seq<string>)
      reads this
      ensures |entries| == |failed|
      ensures forall i :: 0 <= i < |failed| ==> entries[i] == FailureTag(failed[i].addr, failed[i].port)
    {
      Tags(failed)
    }

    /** `get_lock`: exit with code 2 if the lock file exists, otherwise create it. */
    method GetLock() returns (status: LockStatus)
      modifies this
      ensures old(lockHeld) ==> status == Exit(2) && trace == old(trace) + [Print(LOCK_PRESENT_MESSAGE)]
      ensures !old(lockHeld) ==> status == Acquired && trace == old(trace) + [LockCreated]
      ensures lockHeld && failed == old(failed)
    {
      if lockHeld {
        trace := trace + [Print(LOCK_PRESENT_MESSAGE)];
        status := Exit(2);
      } else {
        lockHeld := true;
        trace := trace + [LockCreated];
        status := Acquired;
      }
    }

    /** `release_lock`: remove the lock file, which must exist. */
    method ReleaseLock()
      requires lockHeld
      modifies this
      ensures !lockHeld && failed == old(failed) && trace == old(trace) + [LockRemoved]
    {
      lockHeld := false;
      trace := trace + [LockRemoved];
    }

    /** `create_backup_directory`, at time `now`; `present` says whether the
        directory already exists. */
    method CreateBackupDirectory(now: Timestamp, present: bool) returns (path: string)
      modifies this
      ensures path == BackupDirectory(ROOT_BACKUP, now)
      ensures trace == old(trace) + (if present then [] else [MakeDirs(path)])
      ensures lockHeld == old(lockHeld) && failed == old(failed)
    {
      path := BackupDirectory(ROOT_BACKUP, now);
      if !present {
        trace := trace + [MakeDirs(path)];
      }
    }

    /** One of the two `while is_backup_running(r)` loops, with its counter
        `it` starting from 0. It asks the remote until it answers "not
        busy"; the final `it` is returned. */
    method PollUntilIdle(inst: Instance, phase: Phase, polls: seq<int>) returns (it: nat)
      modifies this
      ensures it == Retries(BusyAnswers(polls)) && it <= MAX_RETRY + 1
      ensures failed == old(failed) + WaitFailures(inst, BusyAnswers(polls))
      ensures trace == old(trace) + WaitTrace(inst, phase, BusyAnswers(polls))
      ensures lockHeld == old(lockHeld)
    {
      it := 0;
      var i := 0;
      while i < |polls| && IsBackupRunning(polls[i])
        invariant i <= BusyAnswers(polls)
        invariant it == Retries(i)
        invariant failed == old(failed) + WaitFailures(inst, i)
        invariant trace == old(trace) + WaitTrace(inst, phase, i)
        invariant lockHeld == old(lockHeld)
        decreases |polls| - i
      {
        WaitStep(inst, phase, i);
        var msg: Message;
        if it <= MAX_RETRY {
          msg := if phase == PriorDump then PriorDumpWait(it) else OwnDumpWait(it);
          it := it + 1;
        } else {
          msg := if phase == PriorDump then PriorDumpTimeout else OwnDumpTimeout;
          AppendAssoc(old(failed), WaitFailures(inst, i), [inst]);
          failed := failed + [inst];
        }
        assert Log(inst, msg) == PollLog(inst, phase, i);
        AppendAssoc(old(trace), WaitTrace(inst, phase, i), [Log(inst, msg)]);
        trace := trace + [Log(inst, msg)];
        i := i + 1;
      }
    }

    /** The body of the main loop for one instance. */
    method BackupInstance(inst: Instance, remote: Remote, backupDir: string)
      modifies this
      ensures failed == old(failed) + InstanceFailures(inst, remote)
      ensures trace == old(trace) + InstanceTrace(inst, remote, backupDir)
      ensures lockHeld == old(lockHeld)
    {
      if !IsRedisAvailable(remote.role) {
        trace := trace + [Log(inst, SkipMessage(remote.role))];
        failed := failed + [inst];
        return;
      }
      ghost var t0 := trace;
      ghost var w1 := WaitTrace(inst, PriorDump, BusyAnswers(remote.beforeTrigger));
      ghost var w2 := WaitTrace(inst, OwnDump, BusyAnswers(remote.afterTrigger));
      ghost var p := [ConfigGet(inst, remote.dir)];
      trace := trace + [ConfigGet(inst, remote.dir)];
      var it := PollUntilIdle(inst, PriorDump, remote.beforeTrigger);
      AppendAssoc(t0, p, w1);
      p := p + w1;
      AppendAssoc(t0, p, [Log(inst, StartDump), BgSave(inst)]);
      trace := trace + [Log(inst, StartDump), BgSave(inst)];
      p := p + [Log(inst, StartDump), BgSave(inst)];
      it := PollUntilIdle(inst, OwnDump, remote.afterTrigger);
      AppendAssoc(t0, p, w2);
      p := p + w2;
      AppendAssoc(t0, p, [Log(inst, DumpDone), Rsync(inst, backupDir)]);
      trace := trace + [Log(inst, DumpDone),
                        Rsync(inst, backupDir)];
      p := p + [Log(inst, DumpDone), Rsync(inst, backupDir)];
      assert p == InstanceTrace(inst, remote, backupDir);
    }

    /** The main loop `for INSTANCE in REDIS_INSTANCES`: every instance in
        order, each with the remote behind it. */
    method BackupAll(instances: seq<Instance>, remotes: seq<Remote>, backupDir: string)
      requires |remotes| == |instances|
      modifies this
      ensures failed == old(failed) + RunFailures(instances, remotes)
      ensures trace == old(trace) + RunTrace(instances, remotes, backupDir)
      ensures lockHeld == old(lockHeld)
    {
      var n := 0;
      while n < |instances|
        invariant n <= |instances|
        invariant lockHeld == old(lockHeld)
        invariant failed == old(failed) + RunFailures(instances[..n], remotes[..n])
        invariant trace == old(trace) + RunTrace(instances[..n], remotes[..n], backupDir)
      {
        BackupInstance(instances[n], remotes[n], backupDir);
        RunStep(instances, remotes, backupDir, n);
        AppendAssoc(old(trace), RunTrace(instances[..n], remotes[..n], backupDir),
                    InstanceTrace(instances[n], remotes[n], backupDir));
        AppendAssoc(old(failed), RunFailures(instances[..n], remotes[..n]),
                    InstanceFailures(instances[n], remotes[n]));
        n := n + 1;
      }
      assert instances[..n] == instances && remotes[..n] == remotes;
    }

    /** The main block: lock, create the backup directory, back up every
        instance in order, unlock, exit. `remotes[i]` stands for the remote
        behind `instances[i]`. The result is the process exit code. */
    method Run(instances: seq<Instance>, remotes: seq<Remote>, now: Timestamp, dirPresent: bool)
      returns (exitCode: int)
      requires |remotes| == |instances|
      modifies this
      ensures old(lockHeld) ==>
        && exitCode == 2 && lockHeld
        && failed == old(failed)
        && trace == old(trace) + [Print(LOCK_PRESENT_MESSAGE)]
      ensures !old(lockHeld) ==>
        var dir := BackupDirectory(ROOT_BACKUP, now);
        && exitCode == 0 && !lockHeld
        && failed == old(failed) + RunFailures(instances, remotes)
        && trace == old(trace) + LockedRunTrace(instances, remotes, dir, dirPresent)
    {
      var status := GetLock();
      if status.Exit? {
        return status.code;
      }
      ghost var t0 := old(trace);
      var dir := CreateBackupDirectory(now, dirPresent);
      ghost var mk: seq<Effect> := if dirPresent then [] else [MakeDirs(dir)];
      BackupAll(instances, remotes, dir);
      ReleaseLock();
      ghost var body := RunTrace(instances, remotes, dir);
      assert trace == t0 + [LockCreated] + mk + body + [LockRemoved];
      AppendAssoc(t0, [LockCreated], mk);
      AppendAssoc(t0, [LockCreated] + mk, body);
      AppendAssoc(t0, [LockCreated] + mk + body, [LockRemoved]);
      exitCode := 0;
    }
  }
}
