/** The strings the backup script builds: the timestamped backup directory,
    the failure tag kept in FAILED_BACKUP, the log line, the dump path read
    from the instance's configuration, and the two rsync operands. Each
    builder is paired with a lemma saying that its inputs can be told apart
    from its output, so that two instances or two timestamps never collide. */
module Formats {
  import opened Decimal

  const ROOT_BACKUP := "/data/redis/backups"
  const RSYNC_BACKEND := "redis_backups"

  datatype Timestamp = Timestamp(year: nat, month: nat, day: nat, hour: nat, minute: nat)

  /** `root + "/%d/%d/%d/%d/%d" % (year, month, day, hour, minute)`. */
  function BackupDirectory(root: string, t: Timestamp): (path: string)
    ensures |path| > |root| && path[..|root| + 1] == root + "/"
  {
    root + "/" + NatToString(t.year) + "/" + NatToString(t.month) + "/" + NatToString(t.day)
      + "/" + NatToString(t.hour) + "/" + NatToString(t.minute)
  }

  /** `"%s:%d" % (addr, port)`, the entry recorded for a failed instance. */
  function FailureTag(addr: string, port: int): string {
    addr + ":" + IntToString(port)
  }

  /** `"[%s:%d] %s" % (addr, port, msg)`. */
  function LogLine(addr: string, port: int, msg: string): (line: string)
    ensures line == "[" + FailureTag(addr, port) + "] " + msg
  {
    "[" + addr + ":" + IntToString(port) + "] " + msg
  }

  /** `infoDir['dir'] + "dump.rdb"`: no separator is inserted. */
  function DumpPath(dir: string): (path: string)
    ensures |path| == |dir| + 8 && path[..|dir|] == dir && path[|dir|..] == "dump.rdb"
  {
    dir + "dump.rdb"
  }

  /** For one instance, the log line determines the message. */
  lemma LogLineInjective(addr: string, port: int, msg1: string, msg2: string)
    requires LogLine(addr, port, msg1) == LogLine(addr, port, msg2)
    ensures msg1 == msg2
  {
    PrefixCancel("[" + addr + ":" + IntToString(port) + "] ", msg1, msg2);
  }

  /** Two `dir` settings never yield the same dump path. */
  lemma DumpPathInjective(dir1: string, dir2: string)
    requires DumpPath(dir1) == DumpPath(dir2)
    ensures dir1 == dir2
  {
    SuffixCancel(dir1, dir2, "dump.rdb");
  }

  /** The rsync source `addr::RSYNC_BACKEND/port/dump.rdb`. */
  function RsyncSource(addr: string, port: int): string {
    addr + "::" + RSYNC_BACKEND + "/" + IntToString(port) + "/dump.rdb"
  }

  /** The rsync destination `dir/addr_port.rdb`. */
  function RsyncDestination(dir: string, addr: string, port: int): string {
    dir + "/" + addr + "_" + IntToString(port) + ".rdb"
  }

  // Cancellation facts about concatenation used by the lemmas below.

  lemma SuffixCancel(x: string, y: string, s: string)
    requires x + s == y + s
    ensures x == y
  {
    assert x == (x + s)[..|x|];
    assert y == (y + s)[..|y|];
  }

  lemma PrefixCancel(p: string, x: string, y: string)
    requires p + x == p + y
    ensures x == y
  {
    assert x == (p + x)[|p|..];
    assert y == (p + y)[|p|..];
  }

  /** Index of the last `c` in `t`, or -1. */
  function LastIndexOf(t: string, c: char): int
  {
    if t == [] then -1 else if t[|t| - 1] == c then |t| - 1 else LastIndexOf(t[..|t| - 1], c)
  }

  lemma {:induction false} LastIndexOfSeparator(a: string, c: char, s: string)
    requires c !in s
    ensures LastIndexOf(a + [c] + s, c) == |a|
    decreases |s|
  {
    if s != [] {
      var t := a + [c] + s;
      assert t[|t| - 1] == s[|s| - 1];
      assert t[..|t| - 1] == a + [c] + s[..|s| - 1];
      LastIndexOfSeparator(a, c, s[..|s| - 1]);
    }
  }

  /** Splitting at the last occurrence of `c` is unambiguous when the part
      after it cannot contain `c`. */
  lemma SplitAtLast(a1: string, s1: string, a2: string, s2: string, c: char)
    requires c !in s1 && c !in s2
    requires a1 + [c] + s1 == a2 + [c] + s2
    ensures a1 == a2 && s1 == s2
  {
    var t := a1 + [c] + s1;
    LastIndexOfSeparator(a1, c, s1);
    LastIndexOfSeparator(a2, c, s2);
    assert s1 == t[|a1| + 1..];
    assert a1 == t[..|a1|];
  }

  /** Two timestamps (or two roots) never share a backup directory. */
  lemma BackupDirectoryInjective(root1: string, t1: Timestamp, root2: string, t2: Timestamp)
    requires BackupDirectory(root1, t1) == BackupDirectory(root2, t2)
    ensures root1 == root2 && t1 == t2
  {
    var y1, mo1, d1, h1, mi1 := NatToString(t1.year), NatToString(t1.month), NatToString(t1.day), NatToString(t1.hour), NatToString(t1.minute);
    var y2, mo2, d2, h2, mi2 := NatToString(t2.year), NatToString(t2.month), NatToString(t2.day), NatToString(t2.hour), NatToString(t2.minute);
    SeparatorNotInNumber(t1.year, '/'); SeparatorNotInNumber(t2.year, '/');
    SeparatorNotInNumber(t1.month, '/'); SeparatorNotInNumber(t2.month, '/');
    SeparatorNotInNumber(t1.day, '/'); SeparatorNotInNumber(t2.day, '/');
    SeparatorNotInNumber(t1.hour, '/'); SeparatorNotInNumber(t2.hour, '/');
    SeparatorNotInNumber(t1.minute, '/'); SeparatorNotInNumber(t2.minute, '/');
    SplitAtLast(root1 + "/" + y1 + "/" + mo1 + "/" + d1 + "/" + h1, mi1,
                root2 + "/" + y2 + "/" + mo2 + "/" + d2 + "/" + h2, mi2, '/');
    SplitAtLast(root1 + "/" + y1 + "/" + mo1 + "/" + d1, h1, root2 + "/" + y2 + "/" + mo2 + "/" + d2, h2, '/');
    SplitAtLast(root1 + "/" + y1 + "/" + mo1, d1, root2 + "/" + y2 + "/" + mo2, d2, '/');
    SplitAtLast(root1 + "/" + y1, mo1, root2 + "/" + y2, mo2, '/');
    SplitAtLast(root1, y1, root2, y2, '/');
    NatToStringInjective(t1.year, t2.year);
    NatToStringInjective(t1.month, t2.month);
    NatToStringInjective(t1.day, t2.day);
    NatToStringInjective(t1.hour, t2.hour);
    NatToStringInjective(t1.minute, t2.minute);
  }

  /** Distinct instances get distinct FAILED_BACKUP entries. */
  lemma FailureTagInjective(addr1: string, port1: int, addr2: string, port2: int)
    requires FailureTag(addr1, port1) == FailureTag(addr2, port2)
    ensures addr1 == addr2 && port1 == port2
  {
    SeparatorNotInNumber(port1, ':');
    SeparatorNotInNumber(port2, ':');
    SplitAtLast(addr1, IntToString(port1), addr2, IntToString(port2), ':');
    IntToStringInjective(port1, port2);
  }

  /** Distinct instances are pulled from distinct rsync sources. */
  lemma RsyncSourceInjective(addr1: string, port1: int, addr2: string, port2: int)
    requires RsyncSource(addr1, port1) == RsyncSource(addr2, port2)
    ensures addr1 == addr2 && port1 == port2
  {
    var p1, p2 := IntToString(port1), IntToString(port2);
    SuffixCancel(addr1 + "::" + RSYNC_BACKEND + "/" + p1, addr2 + "::" + RSYNC_BACKEND + "/" + p2, "/dump.rdb");
    SeparatorNotInNumber(port1, '/');
    SeparatorNotInNumber(port2, '/');
    SplitAtLast(addr1 + "::" + RSYNC_BACKEND, p1, addr2 + "::" + RSYNC_BACKEND, p2, '/');
    assert addr1 + "::" + RSYNC_BACKEND == addr1 + ("::" + RSYNC_BACKEND);
    assert addr2 + "::" + RSYNC_BACKEND == addr2 + ("::" + RSYNC_BACKEND);
    SuffixCancel(addr1, addr2, "::" + RSYNC_BACKEND);
    IntToStringInjective(port1, port2);
  }

  /** Within one backup directory, distinct instances never overwrite each
      other's dump file. */
  lemma RsyncDestinationInjective(dir: string, addr1: string, port1: int, addr2: string, port2: int)
    requires RsyncDestination(dir, addr1, port1) == RsyncDestination(dir, addr2, port2)
    ensures addr1 == addr2 && port1 == port2
  {
    var p1, p2 := IntToString(port1), IntToString(port2);
    SuffixCancel(dir + "/" + addr1 + "_" + p1, dir + "/" + addr2 + "_" + p2, ".rdb");
    SeparatorNotInNumber(port1, '_');
    SeparatorNotInNumber(port2, '_');
    SplitAtLast(dir + "/" + addr1, p1, dir + "/" + addr2, p2, '_');
    PrefixCancel(dir + "/", addr1, addr2);
    IntToStringInjective(port1, port2);
  }

  /** The numbers rendered at the sample time below. */
  lemma SampleNumbers()
    ensures NatToString(2024) == "2024" && NatToString(3) == "3" && NatToString(5) == "5"
    ensures NatToString(14) == "14" && NatToString(22) == "22" && IntToString(6379) == "6379"
  {
    assert NatToString(20) == "20";
    assert NatToString(202) == "202";
    assert NatToString(63) == "63";
    assert NatToString(637) == "637";
  }

  /** The backup directory at 14:22 on 5 March 2024. */
  lemma SampleBackupDirectory()
    ensures BackupDirectory(ROOT_BACKUP, Timestamp(2024, 3, 5, 14, 22)) == "/data/redis/backups/2024/3/5/14/22"
  {
    SampleNumbers();
  }

  /** The failure entry of the first configured instance. */
  lemma SampleTag()
    ensures FailureTag("127.0.0.1", 6379) == "127.0.0.1:6379"
  {
    SampleNumbers();
  }

  /** The log lines of the first configured instance. */
  lemma SampleLogLine(msg: string)
    ensures LogLine("127.0.0.1", 6379, msg) == "[127.0.0.1:6379] " + msg
  {
    SampleNumbers();
  }

  /** The rsync source of the first configured instance. */
  lemma SampleSource()
    ensures RsyncSource("127.0.0.1", 6379) == "127.0.0.1::redis_backups/6379/dump.rdb"
  {
    SampleNumbers();
  }

  /** The rsync destination of the first configured instance at the sample time. */
  lemma SampleDestination()
    ensures RsyncDestination("/data/redis/backups/2024/3/5/14/22", "127.0.0.1", 6379)
         == "/data/redis/backups/2024/3/5/14/22/127.0.0.1_6379.rdb"
  {
    SampleNumbers();
  }
}
