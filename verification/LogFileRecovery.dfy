/** Recovery from the bytes of a log file. */
module LogFileRecovery {
  // A crash can cut off the log file anywhere within the entries that were being written. What is read
  // back is a prefix of the log, and recovery finds what was committed in it.

  import opened KeyedStore
  import opened RecoveryLog
  import opened CrashRecovery
  import opened RecoveryRuns
  import opened RecoverySteps
  import opened RecoveryExactness
  import opened LogReading
  import B = Binary
  import Codec = LogCodec

  function Means(reading: Reading, logs: seq<Codec.LogEntry>): (log: Log)
    ensures |log| == |logs|
  {
    seq(|logs|, i requires 0 <= i < |logs| => reading(logs[i]))
  }

  function Written(es: seq<Codec.Written>): (logs: seq<Codec.LogEntry>)
    ensures |logs| == |es|
  {
    seq(|es|, i requires 0 <= i < |es| => es[i].0)
  }

  /** The file once all of `es` is in it. */
  function File(es: seq<Codec.Written>): B.Bytes
    requires Codec.AllWritable(es)
  {
    B.Concat(Codec.Blocks(es))
  }

  lemma {:induction false} LongerConcat(blocks: seq<B.Bytes>, a: nat, b: nat)
    requires a <= b <= |blocks|
    ensures |B.Concat(blocks[..a])| <= |B.Concat(blocks[..b])|
  {
    if b > 0 {
      B.ConcatFirst(blocks, b - 1);
      if a > 0 {
        B.ConcatFirst(blocks, a - 1);
        LongerConcat(blocks[1..], a - 1, b - 1);
      }
    }
  }

  /** When the first d entries are wholly in the file, at least they are read back. */
  lemma PrefixIsRead(es: seq<Codec.Written>, reading: Reading, d: nat, n: nat) returns (k: nat)
    requires Codec.AllStorable(es) && LooksAtStored(reading) && d <= |es|
    requires |File(es[..d])| <= n <= |File(es)|
    ensures d <= k <= |es|
    ensures Means(reading, Codec.ReadLog(File(es)[..n])) == Means(reading, Written(es))[..k]
  {
    k := B.Whole(Codec.Blocks(es), n);
    Codec.TornLog(es, n);
    AtLeast(es, d, n);
    StoredPrefix(es, reading, k);
  }

  lemma AtLeast(es: seq<Codec.Written>, d: nat, n: nat)
    requires Codec.AllStorable(es) && d <= |es| && |File(es[..d])| <= n
    ensures d <= B.Whole(Codec.Blocks(es), n)
  {
    BlocksPrefix(es, d);
    WholeAtLeast(Codec.Blocks(es), d, n);
  }

  lemma BlocksPrefix(es: seq<Codec.Written>, d: nat)
    requires Codec.AllStorable(es) && d <= |es|
    ensures Codec.AllStorable(es[..d]) && Codec.Blocks(es[..d]) == Codec.Blocks(es)[..d]
  {
  }

  lemma WholeAtLeast(blocks: seq<B.Bytes>, d: nat, n: nat)
    requires d <= |blocks| && |B.Concat(blocks[..d])| <= n
    ensures d <= B.Whole(blocks, n)
  {
    var k := B.Whole(blocks, n);
    B.WholeIsWhole(blocks, n);
    if k < d {
      LongerConcat(blocks, k + 1, d);
    }
  }

  lemma StoredPrefix(es: seq<Codec.Written>, reading: Reading, k: nat)
    requires LooksAtStored(reading) && k <= |es|
    ensures Means(reading, Codec.AllStored(es)[..k]) == Means(reading, Written(es))[..k]
  {
    var a, b := Means(reading, Codec.AllStored(es)[..k]), Means(reading, Written(es))[..k];
    forall i | 0 <= i < k
      ensures a[i] == b[i]
    {
      assert Codec.AllStored(es)[..k][i] == Codec.Stored(es[i].0) && Written(es)[i] == es[i].0;
    }
  }

  /** Flushing the first m buffered entries. */
  lemma FlushFirst(init: Store, actions: seq<Action>, s: System, m: nat, columns: Columns) returns (actions': seq<Action>)
    requires Possible(init, actions, columns) && Perform(init, actions) == s && m <= |s.buffer|
    ensures Possible(init, actions', columns)
    ensures Perform(init, actions') == s.(durable := s.durable + s.buffer[..m], buffer := s.buffer[m..])
  {
    FlushSome(init, actions, s, m, columns);
    actions' := actions + Flushes(m);
  }

  lemma NoneBuffered(durable: Log, buffer: Log, m: nat)
    requires BufferOk(durable, buffer) && m <= |buffer|
    ensures NoCheckpoints(buffer[..m])
  {
    forall i | 0 <= i < m
      ensures !buffer[..m][i].Checkpoint?
    {
      assert BufferedAt(durable, buffer, i);
    }
  }

  /** Flushing the first m buffered entries, and crashing. */
  lemma CrashAfterSome(init: Store, actions: seq<Action>, s: System, m: nat, columns: Columns)
    requires HasTables(init, columns) && Possible(init, actions, columns) && Perform(init, actions) == s
    requires m <= |s.buffer| && !CheckpointOpen(s.durable)
    ensures Recover(s.disk, s.durable + s.buffer[..m]) == CommittedStore(init, s.durable + s.buffer[..m])
  {
    RunsAreSound(init, actions, columns);
    NoneBuffered(s.durable, s.buffer, m);
    OpenAsBefore(s.durable, s.buffer[..m]);
    var actions' := FlushFirst(init, actions, s, m, columns);
    EveryCrashIsRecovered(init, actions', columns);
  }

  /** Over every run: when the system crashes while the buffer is being written, so that the log file
      ends anywhere, within an entry or not, what is read back is the log file before and some of the
      buffer, and recovery finds what is committed in it. */
  lemma TornFlushIsRecovered(init: Store, actions: seq<Action>, s: System, columns: Columns, es: seq<Codec.Written>, reading: Reading, n: nat)
    requires HasTables(init, columns) && Possible(init, actions, columns) && Perform(init, actions) == s
    requires !CheckpointOpen(s.durable)
    requires Codec.AllStorable(es) && LooksAtStored(reading) && Means(reading, Written(es)) == FullLog(s)
    requires |File(es[..|s.durable|])| <= n <= |File(es)|
    ensures var log := Means(reading, Codec.ReadLog(File(es)[..n]));
      s.durable <= log <= FullLog(s) && Recover(s.disk, log) == CommittedStore(init, log)
  {
    var k := PrefixIsRead(es, reading, |s.durable|, n);
    var m := k - |s.durable|;
    LogPrefix(s, k);
    CrashAfterSome(init, actions, s, m, columns);
  }

  lemma LogPrefix(s: System, k: nat)
    requires |s.durable| <= k <= |FullLog(s)|
    ensures FullLog(s)[..k] == s.durable + s.buffer[..k - |s.durable|]
    ensures s.durable <= FullLog(s)[..k] <= FullLog(s)
  {
  }

  // ---------- every run, every crash ----------

  lemma OneMoreHappens(init: Store, actions: seq<Action>, a: Action, columns: Columns)
    requires CanRun(init, actions, columns) && CanHappen(init, Perform(init, actions), a, columns)
    ensures CanRun(init, actions + [a], columns) && Perform(init, actions + [a]) == After(Perform(init, actions), a)
  {
    assert (actions + [a])[..|actions|] == actions;
  }

  function FlushedBy(s: System, m: nat): System
    requires m <= |s.buffer|
  {
    s.(durable := s.durable + s.buffer[..m], buffer := s.buffer[m..])
  }

  lemma NothingFlushed(actions: seq<Action>, s: System)
    ensures actions + Flushes(0) == actions && FlushedBy(s, 0) == s
  {
    assert s.durable + s.buffer[..0] == s.durable && s.buffer[0..] == s.buffer;
  }

  lemma OneMoreOf(actions: seq<Action>, m: nat)
    requires m > 0
    ensures actions + Flushes(m) == actions + Flushes(m - 1) + [FlushEntry]
  {
  }

  lemma OneMoreFlush(init: Store, actions: seq<Action>, s: System, m: nat, columns: Columns)
    requires m < |s.buffer| && CanRun(init, actions, columns) && Perform(init, actions) == FlushedBy(s, m)
    ensures CanRun(init, actions + [FlushEntry], columns) && Perform(init, actions + [FlushEntry]) == FlushedBy(s, m + 1)
  {
    OneMoreHappens(init, actions, FlushEntry, columns);
    FlushOneMore(s, m);
  }

  lemma {:induction false} FlushFirstOf(init: Store, actions: seq<Action>, s: System, m: nat, columns: Columns)
    requires CanRun(init, actions, columns) && Perform(init, actions) == s && m <= |s.buffer|
    ensures CanRun(init, actions + Flushes(m), columns) && Perform(init, actions + Flushes(m)) == FlushedBy(s, m)
  {
    if m == 0 {
      NothingFlushed(actions, s);
    } else {
      FlushFirstOf(init, actions, s, m - 1, columns);
      OneMoreFlush(init, actions + Flushes(m - 1), s, m - 1, columns);
      OneMoreOf(actions, m);
    }
  }

  /** Over every run, also with pages evicted ahead of the log and within a checkpoint: when the system
      crashes while the buffer is being written, so that the log file ends anywhere, what is read back
      is the log file before and some of the buffer, and recovery finds what is committed in it if and
      only if it repairs every key. */
  lemma WhenTornFlushIsRecovered(init: Store, actions: seq<Action>, s: System, columns: Columns, es: seq<Codec.Written>, keys: PrimaryKeys, n: nat)
    requires HasTables(init, columns) && CanRun(init, actions, columns) && Perform(init, actions) == s
    requires Codec.AllStorable(es) && Means(ReadingBy(keys), Written(es)) == FullLog(s)
    requires |File(es[..|s.durable|])| <= n <= |File(es)|
    ensures var log := Means(ReadingBy(keys), Codec.ReadLog(File(es)[..n]));
      && s.durable <= log <= FullLog(s)
      && (Recover(s.disk, log) == CommittedStore(init, log) <==> forall k :: Repairable(init, log, s.disk, k))
  {
    StoredIsEnough(keys);
    var k := PrefixIsRead(es, ReadingBy(keys), |s.durable|, n);
    var m := k - |s.durable|;
    LogPrefix(s, k);
    FlushFirstOf(init, actions, s, m, columns);
    WhenRecoveryFindsCommitted(init, actions + Flushes(m), columns);
  }
}
