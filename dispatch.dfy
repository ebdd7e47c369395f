/**
 * The chunk dispatch of MPI/src/main.c with the message passing taken out.
 *
 * The controller answers work requests: while its cursor has not passed
 * `max` it replies with the cursor (the start of a chunk) and advances it by
 * TaskPacketSize; afterwards it answers exactly processes - 1 further requests
 * with SignalTerminate. A worker turns each start it receives into the
 * inclusive range [start, ChunkEnd(start, max)] and runs `calculate` over it.
 *
 * A receive from any source becomes the `rank` parameter of
 * Controller.HandleRequest, so every order of arrival is covered.
 */
module Dispatch {

  /** Number of tasks handed to a worker per request. */
  const TaskPacketSize: int := 3

  /** Reply that tells a worker to stop. */
  const SignalTerminate: int := -1

  /** The range `main` passes to the controller and the workers. */
  const DefaultMin: int := 0
  const DefaultMax: int := 10

  // ---------------------------------------------------------------------
  // Ranges and chunks
  // ---------------------------------------------------------------------

  /** The integers lo, lo + 1, ..., hi in increasing order (empty when lo > hi). */
  function Interval(lo: int, hi: int): seq<int> {
    if lo > hi then [] else seq(hi - lo + 1, k => lo + k)
  }

  lemma IntervalSplit(lo: int, mid: int, hi: int)
    requires lo <= mid + 1 <= hi + 1
    ensures Interval(lo, mid) + Interval(mid + 1, hi) == Interval(lo, hi)
  {
    var left, right := Interval(lo, mid), Interval(mid + 1, hi);
    assert |left + right| == |Interval(lo, hi)|;
    forall k | 0 <= k < |left + right|
      ensures (left + right)[k] == Interval(lo, hi)[k]
    {
      if k >= |left| {
        assert (left + right)[k] == right[k - |left|];
      }
    }
  }

  /** Last value of the chunk that starts at `start` (main.c line 70). */
  function ChunkEnd(start: int, max: int): (end: int)
    ensures end <= max && end - start < TaskPacketSize
    ensures end == max || end - start == TaskPacketSize - 1
    ensures start <= max ==> start <= end
  {
    if max < start + TaskPacketSize - 1 then max else start + TaskPacketSize - 1
  }

  /** The starts the controller's first loop issues: from, from + 3, ... while <= max. */
  function ChunkStarts(from: int, max: int): (s: seq<int>)
    ensures forall k :: 0 <= k < |s| ==> from <= s[k] <= max
    ensures forall j, k :: 0 <= j < k < |s| ==> s[j] < s[k]
    decreases max - from
  {
    if from > max then [] else [from] + ChunkStarts(from + TaskPacketSize, max)
  }

  /** ceil((max - min + 1) / TaskPacketSize) when min <= max, otherwise 0. */
  function ChunkCount(min: int, max: int): (c: nat)
    ensures min > max ==> c == 0
    ensures min <= max ==> (c - 1) * TaskPacketSize < max - min + 1 <= c * TaskPacketSize
  {
    if min > max then 0 else (max - min) / TaskPacketSize + 1
  }

  /** The first loop issues ChunkCount starts, and the k-th is min + k * TaskPacketSize. */
  lemma {:induction false} ChunkStartsShape(min: int, max: int)
    ensures |ChunkStarts(min, max)| == ChunkCount(min, max)
    ensures forall k :: 0 <= k < |ChunkStarts(min, max)| ==>
              ChunkStarts(min, max)[k] == min + TaskPacketSize * k
    decreases max - min
  {
    if min <= max {
      var rest := ChunkStarts(min + TaskPacketSize, max);
      ChunkStartsShape(min + TaskPacketSize, max);
      forall k | 1 <= k < |ChunkStarts(min, max)|
        ensures ChunkStarts(min, max)[k] == min + TaskPacketSize * k
      {
        assert ChunkStarts(min, max)[k] == rest[k - 1];
      }
    }
  }

  /** The cursor min + k * TaskPacketSize is still within range exactly while k is below the chunk count. */
  lemma CursorWithinRange(min: int, max: int, k: nat)
    ensures min + TaskPacketSize * k <= max <==> k < ChunkCount(min, max)
  {
  }

  /** The values a worker covers for a sequence of starts, one chunk after another. */
  function CoveredBy(starts: seq<int>, max: int): seq<int> {
    if starts == [] then []
    else Interval(starts[0], ChunkEnd(starts[0], max)) + CoveredBy(starts[1..], max)
  }

  lemma {:induction false} CoveredByAppend(s: seq<int>, t: seq<int>, max: int)
    ensures CoveredBy(s + t, max) == CoveredBy(s, max) + CoveredBy(t, max)
  {
    if s == [] {
      assert s + t == t;
    } else {
      assert (s + t)[1..] == s[1..] + t;
      CoveredByAppend(s[1..], t, max);
    }
  }

  /** The issued chunks, laid end to end, are exactly min, min + 1, ..., max: no gap, no overlap. */
  lemma {:induction false} ChunksCoverRange(min: int, max: int)
    ensures CoveredBy(ChunkStarts(min, max), max) == Interval(min, max)
    decreases max - min
  {
    if min <= max {
      var end := ChunkEnd(min, max);
      ChunksCoverRange(min + TaskPacketSize, max);
      assert ChunkStarts(min, max)[1..] == ChunkStarts(min + TaskPacketSize, max);
      if end < max {
        IntervalSplit(min, end, max);
      }
    }
  }

  /** x lies in the chunk with index k (the one that starts at min + k * TaskPacketSize). */
  predicate InChunk(min: int, max: int, k: int, x: int) {
    min + TaskPacketSize * k <= x <= ChunkEnd(min + TaskPacketSize * k, max)
  }

  /** Every value of [min, max] lies in exactly one issued chunk. */
  lemma ValueInExactlyOneChunk(min: int, max: int, x: int)
    requires min <= x <= max
    ensures 0 <= (x - min) / TaskPacketSize < ChunkCount(min, max)
    ensures InChunk(min, max, (x - min) / TaskPacketSize, x)
    ensures forall k :: InChunk(min, max, k, x) ==> k == (x - min) / TaskPacketSize
  {
  }

  /** With min >= 0 no start equals SignalTerminate, so a worker never takes a chunk for the stop signal. */
  lemma TerminateIsNeverAStart(min: int, max: int)
    requires min >= 0
    ensures SignalTerminate !in ChunkStarts(min, max)
  {
    ChunkStartsShape(min, max);
  }

  /**
   * For any range, SignalTerminate is an issued start exactly when it lies in [min, max] and
   * is reached from min in steps of TaskPacketSize. So min >= 0 is enough to keep the stop
   * signal apart from the starts, but it is not needed: min = -2 never issues -1, min = -4 does.
   */
  lemma TerminateIsAStartIff(min: int, max: int)
    ensures SignalTerminate in ChunkStarts(min, max)
        <==> min <= SignalTerminate <= max && (SignalTerminate - min) % TaskPacketSize == 0
  {
    var s := ChunkStarts(min, max);
    ChunkStartsShape(min, max);
    if SignalTerminate in s {
      var k :| 0 <= k < |s| && s[k] == SignalTerminate;
      assert SignalTerminate - min == TaskPacketSize * k;
    }
    if min <= SignalTerminate <= max && (SignalTerminate - min) % TaskPacketSize == 0 {
      var k := (SignalTerminate - min) / TaskPacketSize;
      CursorWithinRange(min, max, k);
      assert s[k] == SignalTerminate;
    }
  }

  /** One negative range where the sentinel does collide: from -1 the first start is the stop signal. */
  lemma TerminateCollidesFromMinusOne(max: int)
    requires max >= -1
    ensures ChunkStarts(-1, max)[0] == SignalTerminate
  {
  }

  /** The range `main` uses: chunks [0, 2], [3, 5], [6, 8] and [9, 10]. */
  lemma DefaultRangeChunks()
    ensures ChunkStarts(DefaultMin, DefaultMax) == [0, 3, 6, 9]
    ensures ChunkCount(DefaultMin, DefaultMax) == 4
    ensures ChunkEnd(0, DefaultMax) == 2 && ChunkEnd(3, DefaultMax) == 5
    ensures ChunkEnd(6, DefaultMax) == 8 && ChunkEnd(9, DefaultMax) == 10
  {
    assert ChunkStarts(12, 10) == [];
    assert ChunkStarts(9, 10) == [9];
    assert ChunkStarts(6, 10) == [6, 9];
  }

  // ---------------------------------------------------------------------
  // The controller
  // ---------------------------------------------------------------------

  /** How many SignalTerminate replies the second loop sends: one per rank 1 .. processes - 1. */
  function TerminationsDue(processes: int): nat {
    if processes > 1 then processes - 1 else 0
  }

  /** The values the second loop's counter takes: i = 1, 2, ... while i < processes. */
  function TerminationLoopRanks(processes: int): (ranks: set<int>)
    ensures forall i :: i in ranks <==> 1 <= i < processes
    decreases processes
  {
    if processes <= 1 then {} else TerminationLoopRanks(processes - 1) + {processes - 1}
  }

  /** The second loop runs once per rank 1 .. processes - 1, and not at all when processes <= 1. */
  lemma {:induction false} TerminationsMatchLoop(processes: int)
    ensures TerminationsDue(processes) == |TerminationLoopRanks(processes)|
    decreases processes
  {
    if processes <= 1 {
      assert TerminationLoopRanks(processes) == {};
    } else {
      TerminationsMatchLoop(processes - 1);
      assert processes - 1 !in TerminationLoopRanks(processes - 1);
    }
  }

  /** The replies in the order the controller sends them, one per request it receives. */
  function Schedule(processes: int, min: int, max: int): (s: seq<int>)
    ensures |s| == ChunkCount(min, max) + TerminationsDue(processes)
    ensures forall k :: 0 <= k < ChunkCount(min, max) ==> s[k] == min + TaskPacketSize * k
    ensures forall k :: ChunkCount(min, max) <= k < |s| ==> s[k] == SignalTerminate
  {
    ChunkStartsShape(min, max);
    ChunkStarts(min, max) + seq(TerminationsDue(processes), _ => SignalTerminate)
  }

  class Controller {
    const processes: int
    const min: int
    const max: int

    /** The first loop's counter `i`: the next chunk start. */
    var cursor: int
    /** The second loop's progress: terminations sent so far. */
    var terminationsSent: nat

    /** Every request handled so far, in arrival order: the requester's rank and the reply sent to it. */
    ghost var log: seq<(int, int)>

    ghost predicate Valid()
      reads this
    {
      var issued := |log| - terminationsSent;
      terminationsSent <= |log|
      && issued <= ChunkCount(min, max)
      && cursor == min + TaskPacketSize * issued
      && terminationsSent <= TerminationsDue(processes)
      && (terminationsSent > 0 ==> issued == ChunkCount(min, max))
      && forall k :: 0 <= k < |log| ==> log[k].1 == Schedule(processes, min, max)[k]
    }

    /** The controller has answered every request it will receive and returns. */
    predicate Finished()
      reads this
    {
      cursor > max && terminationsSent >= TerminationsDue(processes)
    }

    constructor (processes: int, min: int, max: int)
      ensures Valid()
      ensures this.processes == processes && this.min == min && this.max == max
      ensures cursor == min && terminationsSent == 0 && log == []
    {
      this.processes := processes;
      this.min := min;
      this.max := max;
      cursor := min;
      terminationsSent := 0;
      log := [];
    }

    /** The controller has finished exactly when it has sent the whole schedule. */
    lemma FinishedWhenScheduleSent()
      requires Valid()
      ensures Finished() <==> |log| == |Schedule(processes, min, max)|
    {
      CursorWithinRange(min, max, |log| - terminationsSent);
    }

    /** Answers one work request from `rank`. */
    method HandleRequest(rank: int) returns (reply: int)
      requires Valid() && !Finished()
      modifies this
      ensures Valid()
      ensures log == old(log) + [(rank, reply)]
      ensures reply == Schedule(processes, min, max)[|old(log)|]
      ensures old(cursor) <= max ==>
                reply == old(cursor) && cursor == old(cursor) + TaskPacketSize
                && terminationsSent == old(terminationsSent)
      ensures old(cursor) > max ==>
                reply == SignalTerminate && cursor == old(cursor)
                && terminationsSent == old(terminationsSent) + 1
    {
      var issued := |log| - terminationsSent;
      CursorWithinRange(min, max, issued);
      CursorWithinRange(min, max, issued + 1);
      if cursor <= max {
        reply := cursor;
        cursor := cursor + TaskPacketSize;
      } else {
        reply := SignalTerminate;
        terminationsSent := terminationsSent + 1;
      }
      log := log + [(rank, reply)];
    }
  }

  /**
   * The whole of the controller: it receives one request from each rank in
   * `requesters`, in that order, and returns the (rank, reply) pairs it sent.
   * The k-th reply is the k-th entry of the schedule whoever asked.
   */
  method RunController(processes: int, min: int, max: int, requesters: seq<int>)
    returns (replies: seq<(int, int)>)
    requires |requesters| == ChunkCount(min, max) + TerminationsDue(processes)
    ensures |replies| == |requesters|
    ensures forall k :: 0 <= k < |replies| ==> replies[k].0 == requesters[k]
    ensures forall k :: 0 <= k < ChunkCount(min, max) ==> replies[k].1 == min + TaskPacketSize * k
    ensures forall k :: ChunkCount(min, max) <= k < |replies| ==> replies[k].1 == SignalTerminate
  {
    var c := new Controller(processes, min, max);
    replies := [];
    for k := 0 to |requesters|
      invariant c.Valid()
      invariant c.processes == processes && c.min == min && c.max == max
      invariant c.log == replies
      invariant |replies| == k
      invariant forall j :: 0 <= j < k ==> replies[j].0 == requesters[j]
    {
      c.FinishedWhenScheduleSent();
      var reply := c.HandleRequest(requesters[k]);
      replies := replies + [(requesters[k], reply)];
    }
  }

  // ---------------------------------------------------------------------
  // The worker
  // ---------------------------------------------------------------------

  /** The per-task computation: a placeholder that returns its input. */
  function Calculate(input: int): (output: int)
    ensures output == input
  {
    input
  }

  /** The inner loop of the worker: `calculate` on every value of the chunk, in order. */
  method ProcessChunk(taskMin: int, max: int) returns (results: seq<int>)
    ensures results == Interval(taskMin, ChunkEnd(taskMin, max))
  {
    var taskMax := ChunkEnd(taskMin, max);
    results := [];
    var i := taskMin;
    while i <= taskMax
      invariant taskMin <= i && (i == taskMin || i <= taskMax + 1)
      invariant results == Interval(taskMin, i - 1)
      decreases taskMax - i
    {
      results := results + [Calculate(i)];
      i := i + 1;
    }
  }

  /**
   * The worker loop fed with the replies it receives, in order: it requests,
   * stops at the first SignalTerminate, and otherwise processes the chunk.
   * Returns everything `calculate` produced and the number of requests sent.
   */
  method RunWorker(max: int, briefs: seq<int>) returns (processed: seq<int>, requests: nat)
    requires SignalTerminate in briefs
    ensures 1 <= requests <= |briefs|
    ensures briefs[requests - 1] == SignalTerminate
    ensures SignalTerminate !in briefs[..requests - 1]
    ensures processed == CoveredBy(briefs[..requests - 1], max)
  {
    processed := [];
    requests := 0;
    while true
      invariant requests <= |briefs|
      invariant SignalTerminate !in briefs[..requests]
      invariant processed == CoveredBy(briefs[..requests], max)
      decreases |briefs| - requests
    {
      var taskMin := briefs[requests];
      requests := requests + 1;
      if taskMin == SignalTerminate {
        break;
      }
      var results := ProcessChunk(taskMin, max);
      assert briefs[..requests] == briefs[..requests - 1] + [taskMin];
      CoveredByAppend(briefs[..requests - 1], [taskMin], max);
      processed := processed + results;
    }
  }

  /**
   * A run with one worker (processes == 2): every request comes from rank 1,
   * the worker sees the controller's replies in order and covers the whole range.
   */
  method SingleWorkerRun(min: int, max: int) returns (processed: seq<int>, requests: nat)
    requires min >= 0
    ensures processed == Interval(min, max)
    ensures requests == ChunkCount(min, max) + 1
  {
    var total := ChunkCount(min, max) + TerminationsDue(2);
    var replies := RunController(2, min, max, seq(total, _ => 1));
    var briefs := seq(|replies|, k requires 0 <= k < |replies| => replies[k].1);
    ChunkStartsShape(min, max);
    TerminateIsNeverAStart(min, max);
    var n := ChunkCount(min, max);
    assert briefs[..n] == ChunkStarts(min, max);
    assert briefs[n] == SignalTerminate;
    processed, requests := RunWorker(max, briefs);
    ChunksCoverRange(min, max);
  }
}
