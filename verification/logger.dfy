/** Services.Logger: log calls put (level, text) entries on a queue, and the
    logger's job drains that queue, in order, into one writer per level. */
module Logging {
  import opened Runtime

  /** `LogTypes`: the name of each level; a level indexes this array and `LogWriters`. */
  const LogTypes: seq<string> := ["", "Warning", "Error"]

  /** The threshold the static constructor sets. */
  const DefaultVerbosity: int := 1

  /** One queued `Tuple<int, string>`: the writer's level and the stamped text. */
  datatype LogEntry = LogEntry(Level: int, Text: string)

  /** The filter of `Log` and `LogWarning`: importance -1 (the default) always
      passes; any other importance passes when it is at most the threshold. */
  predicate Admits(importance: int, threshold: int)
  {
    !(importance != -1 && importance > threshold)
  }

  /** Raising the threshold lets through everything it let through before. */
  lemma AdmitsMonotone(importance: int, threshold: int, higher: int)
    requires Admits(importance, threshold) && threshold <= higher
    ensures Admits(importance, higher)
  {
  }

  /** Under the default threshold, the default importance and 0 and 1 are
      logged, 2 and above are not; so is any negative importance but -1. */
  lemma DefaultAdmits(importance: int)
    ensures Admits(importance, DefaultVerbosity) <==> importance <= 1
  {
  }

  /** The texts of the entries written to the writer of `level`, in queue order. */
  function Messages(queue: seq<LogEntry>, level: int): seq<string>
  {
    if queue == [] then []
    else
      var last := queue[|queue| - 1];
      Messages(queue[..|queue| - 1], level) + (if last.Level == level then [last.Text] else [])
  }

  /** No entry on the queue has the level of the "Warning" writer. */
  predicate NoWarningLevel(queue: seq<LogEntry>)
  {
    forall i :: 0 <= i < |queue| ==> queue[i].Level == 0 || queue[i].Level == 2
  }

  /** Every entry of a queue whose levels are 0 or 2 reaches one of the
      "" and "Error" writers, and the "Warning" writer gets nothing. */
  lemma {:induction false} MessagesPartition(queue: seq<LogEntry>)
    requires NoWarningLevel(queue)
    ensures |Messages(queue, 0)| + |Messages(queue, 2)| == |queue|
    ensures Messages(queue, 1) == []
  {
    if queue != [] {
      var front := queue[..|queue| - 1];
      assert NoWarningLevel(front) by {
        forall i | 0 <= i < |front| ensures front[i].Level == 0 || front[i].Level == 2 {
          assert front[i] == queue[i];
        }
      }
      MessagesPartition(front);
    }
  }

  class Logger {
    /** `LogQueue`, head first. */
    var queue: seq<LogEntry>
    /** `LogWriters`: what each writer has received, by level. */
    var writers: array<seq<string>>
    /** `VerbosityThreshhold`. */
    var verbosityThreshold: int
    /** `CrashImmediately`, inherited from the service base. */
    var crashImmediately: bool

    /** One writer per log type, and every queued level a writer index other
        than the "Warning" one. */
    predicate Valid()
      reads this
    {
      writers.Length == |LogTypes| && NoWarningLevel(queue)
    }

    /** The static constructor: an empty queue, one writer slot per log type,
        and the default threshold. */
    constructor()
      ensures Valid() && fresh(writers)
      ensures queue == [] && verbosityThreshold == DefaultVerbosity && !crashImmediately
      ensures forall l :: 0 <= l < writers.Length ==> writers[l] == []
    {
      queue := [];
      writers := new seq<string>[|LogTypes|](_ => []);
      verbosityThreshold := DefaultVerbosity;
      crashImmediately := false;
    }

    /** `Log(logString, importance)`: when the filter admits the importance,
        one entry of level 0 with the stamped text joins the tail of the
        queue; otherwise nothing happens. `stamp` is the current time as text. */
    method Log(logString: string, importance: int, stamp: string)
      requires Valid()
      modifies this
      ensures Valid() && writers == old(writers)
      ensures Admits(importance, verbosityThreshold) ==> queue == old(queue) + [LogEntry(0, stamp + logString)]
      ensures !Admits(importance, verbosityThreshold) ==> queue == old(queue)
      ensures verbosityThreshold == old(verbosityThreshold) && crashImmediately == old(crashImmediately)
    {
      if importance != -1 && importance > verbosityThreshold {
        return;
      }
      queue := queue + [LogEntry(0, stamp + logString)];
    }

    /** `LogWarning(logString, importance)`: the same filter as Log, and the
        entry also goes to level 0, not to the "Warning" writer. */
    method LogWarning(logString: string, importance: int, stamp: string)
      requires Valid()
      modifies this
      ensures Valid() && writers == old(writers)
      ensures Admits(importance, verbosityThreshold) ==> queue == old(queue) + [LogEntry(0, stamp + logString)]
      ensures !Admits(importance, verbosityThreshold) ==> queue == old(queue)
      ensures verbosityThreshold == old(verbosityThreshold) && crashImmediately == old(crashImmediately)
    {
      if importance != -1 && importance > verbosityThreshold {
        return;
      }
      queue := queue + [LogEntry(0, stamp + logString)];
    }

    /** `LogError(logString)`: no filter; one entry of level 2 joins the tail. */
    method LogError(logString: string, stamp: string)
      requires Valid()
      modifies this
      ensures Valid() && writers == old(writers)
      ensures queue == old(queue) + [LogEntry(2, stamp + logString)]
      ensures verbosityThreshold == old(verbosityThreshold) && crashImmediately == old(crashImmediately)
    {
      queue := queue + [LogEntry(2, stamp + logString)];
    }

    /** The `while (LogQueue.TryDequeue(...))` loop: takes entries from the
        head until the queue is empty, writing each text to the writer of its
        level, so each writer receives its level's texts in queue order. */
    method Drain()
      requires Valid()
      modifies this, writers
      ensures Valid() && writers == old(writers) && queue == []
      ensures forall l :: 0 <= l < writers.Length ==> writers[l] == old(writers[l]) + Messages(old(queue), l)
      ensures verbosityThreshold == old(verbosityThreshold) && crashImmediately == old(crashImmediately)
    {
      ghost var queued := queue;
      ghost var k := 0;
      while queue != []
        invariant writers == old(writers) && writers.Length == |LogTypes|
        invariant 0 <= k <= |queued| && queue == queued[k..]
        invariant forall l :: 0 <= l < writers.Length ==> writers[l] == old(writers[l]) + Messages(queued[..k], l)
        invariant verbosityThreshold == old(verbosityThreshold) && crashImmediately == old(crashImmediately)
        decreases |queue|
      {
        var entry := queue[0];
        assert entry == queued[k];
        assert entry.Level == 0 || entry.Level == 2;
        queue := queue[1..];
        writers[entry.Level] := writers[entry.Level] + [entry.Text];
        assert queued[..k + 1][..k] == queued[..k];
        k := k + 1;
      }
      assert queued[..k] == queued;
    }

    /** One pass of `Job`'s loop: a requested crash clears the request and
        throws; otherwise the queue is drained. */
    method JobIteration() returns (outcome: Outcome)
      requires Valid()
      modifies this, writers
      ensures Valid() && writers == old(writers) && !crashImmediately
      ensures old(crashImmediately) ==> outcome == Fail(AggregateException) && queue == old(queue) &&
                                        forall l :: 0 <= l < writers.Length ==> writers[l] == old(writers[l])
      ensures !old(crashImmediately) ==> outcome == Pass && queue == [] &&
                                         forall l :: 0 <= l < writers.Length ==> writers[l] == old(writers[l]) + Messages(old(queue), l)
      ensures verbosityThreshold == old(verbosityThreshold)
    {
      if crashImmediately {
        crashImmediately := false;
        return Fail(AggregateException);
      }
      Drain();
      return Pass;
    }
  }
}
