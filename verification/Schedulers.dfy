/**
 The cooperative scheduler of asynchronous functions
 (klee/lib/Core/ExecutionState.cpp:653-695, 1078-1156, called from Executor.cpp:6620-6681).

 Thread -1 is main. A fork's copy of the scheduler is not modelled.
 */
module Schedulers {
  import opened Sequences

  const MAIN: int := -1

  datatype Thread = Thread(preemptable: bool, terminated: bool)

  /** Functions are numbered in the order of their names, which is the order of the map. */
  datatype AsyncInfo = AsyncInfo(function_: nat, count: nat, numStarted: nat)

  datatype State = State(
    threadsQueue: seq<int>, threads: seq<Thread>, rtid: int, preemptable: bool, waiting: bool,
    initiated: seq<AsyncInfo>)

  /** `Fails` is the failed assertion that main is not scheduled while waiting. */
  datatype Choice = Chosen(tid: int) | Fails

  datatype Event = Initiate(function_: nat) | Schedule | Terminate(tid: int) | Wait | MakePreemptable(tid: int)

  // ----- The specification -----

  const INITIAL := State([MAIN], [], MAIN, false, false, [])

  function Without(queue: seq<int>, tid: int): seq<int> {
    if queue == [] then []
    else (if queue[0] == tid then [] else [queue[0]]) + Without(queue[1..], tid)
  }

  /** The entry of the function, or the place where one belongs. */
  function Place(initiated: seq<AsyncInfo>, f: nat): (k: nat)
    ensures k <= |initiated|
    ensures forall i | 0 <= i < k :: initiated[i].function_ < f
    ensures k < |initiated| ==> f <= initiated[k].function_
  {
    if initiated == [] || f <= initiated[0].function_ then 0 else 1 + Place(initiated[1..], f)
  }

  lemma PlaceIs(initiated: seq<AsyncInfo>, f: nat, k: nat)
    requires k <= |initiated|
    requires forall i | 0 <= i < k :: initiated[i].function_ < f
    requires k < |initiated| ==> f <= initiated[k].function_
    ensures Place(initiated, f) == k
  {}

  function Initiated(s: State, f: nat): State {
    var k := Place(s.initiated, f);
    if k < |s.initiated| && s.initiated[k].function_ == f then
      s.(initiated := s.initiated[k := s.initiated[k].(count := s.initiated[k].count + 1)])
    else
      s.(initiated := s.initiated[..k] + [AsyncInfo(f, 1, 0)] + s.initiated[k..])
  }

  function Terminated(s: State, tid: int): State
    requires 0 <= tid < |s.threads|
  {
    s.(threads := s.threads[tid := Thread(true, true)], threadsQueue := Without(s.threadsQueue, tid))
  }

  function Waiting(s: State): State {
    s.(waiting := true, threadsQueue := Without(s.threadsQueue, MAIN))
  }

  function Preemptable(s: State, tid: int): State {
    if tid == MAIN then s.(preemptable := true)
    else if 0 <= tid < |s.threads| then s.(threads := s.threads[tid := s.threads[tid].(preemptable := true)])
    else s
  }

  /** The running thread may be left: neither of the two checks at the start returns. */
  predicate MayLeave(s: State)
    requires MAIN <= s.rtid < |s.threads|
  {
    if s.rtid == MAIN then s.waiting || s.preemptable else s.threads[s.rtid].preemptable
  }

  /** The first function with an instance still to start. */
  function FirstPending(initiated: seq<AsyncInfo>): (k: nat)
    ensures k <= |initiated|
    ensures k < |initiated| ==> initiated[k].numStarted < initiated[k].count
    ensures forall i | 0 <= i < k :: initiated[i].numStarted >= initiated[i].count
  {
    if initiated == [] || initiated[0].numStarted < initiated[0].count then 0 else 1 + FirstPending(initiated[1..])
  }

  lemma FirstPendingIs(initiated: seq<AsyncInfo>, k: nat)
    requires k <= |initiated|
    requires forall i | 0 <= i < k :: initiated[i].numStarted >= initiated[i].count
    requires k < |initiated| ==> initiated[k].numStarted < initiated[k].count
    ensures FirstPending(initiated) == k
  {}

  function Start(s: State, k: nat): State
    requires k < |s.initiated|
  {
    var queue := if s.threadsQueue == [] then [MAIN] else s.threadsQueue;
    s.(threads := s.threads + [Thread(false, false)],
       threadsQueue := queue + [|s.threads|],
       initiated := s.initiated[k := s.initiated[k].(numStarted := s.initiated[k].numStarted + 1)],
       rtid := |s.threads|)
  }

  /** The front of the queue goes to its back and runs. Main does not go back while waiting. */
  function Dispatch(s: State): (State, Choice)
    requires forall t <- s.threadsQueue :: MAIN <= t < |s.threads|
  {
    if s.threadsQueue == [] then (s, Chosen(MAIN)) else
    var next := s.threadsQueue[0];
    assert next in s.threadsQueue;
    var queue := s.threadsQueue[1..] + if !s.waiting || next >= 0 then [next] else [];
    if next >= 0 then
      (s.(threadsQueue := queue, threads := s.threads[next := s.threads[next].(preemptable := false)], rtid := next),
       Chosen(next))
    else if s.waiting then
      (s.(threadsQueue := queue), Fails)
    else
      (s.(threadsQueue := queue, preemptable := false, rtid := MAIN), Chosen(MAIN))
  }

  function Scheduled(s: State): (State, Choice)
    requires InRange(s)
  {
    if !MayLeave(s) then (s, Chosen(s.rtid)) else
    var k := FirstPending(s.initiated);
    if k < |s.initiated| then (Start(s, k), Chosen(|s.threads|)) else Dispatch(s)
  }

  predicate InRange(s: State) {
    MAIN <= s.rtid < |s.threads| && forall t <- s.threadsQueue :: MAIN <= t < |s.threads|
  }

  // ----- The object -----

  class Scheduler {
    var threadsQueue: seq<int>
    var threads: seq<Thread>
    var rtid: int
    var preemptable: bool
    var waitingForThreadsToTerminate: bool
    var initiatedAsync: seq<AsyncInfo>

    function Abstract(): State
      reads this
    {
      State(threadsQueue, threads, rtid, preemptable, waitingForThreadsToTerminate, initiatedAsync)
    }

    constructor ()
      ensures Abstract() == INITIAL
    {
      threadsQueue, threads, rtid := [MAIN], [], MAIN;
      preemptable, waitingForThreadsToTerminate, initiatedAsync := false, false, [];
    }

    method InitiateAsync(f: nat) returns (count: nat)
      modifies this
      ensures Abstract() == Initiated(old(Abstract()), f)
      ensures exists k :: 0 <= k < |initiatedAsync|
                          && initiatedAsync[k].function_ == f && initiatedAsync[k].count == count
    {
      hide Place;
      var k := 0;
      while k < |initiatedAsync| && initiatedAsync[k].function_ < f
        invariant 0 <= k <= |initiatedAsync|
        invariant forall i | 0 <= i < k :: initiatedAsync[i].function_ < f
      {
        k := k + 1;
      }
      PlaceIs(initiatedAsync, f, k);
      if k < |initiatedAsync| && initiatedAsync[k].function_ == f {
        var info := initiatedAsync[k];
        initiatedAsync := initiatedAsync[k := info.(count := info.count + 1)];
      } else {
        initiatedAsync := initiatedAsync[..k] + [AsyncInfo(f, 1, 0)] + initiatedAsync[k..];
      }
      return initiatedAsync[k].count;
    }

    /** Rebuilds the queue without the thread, one element at a time. */
    method RemoveFromQueue(tid: int)
      modifies this`threadsQueue
      ensures threadsQueue == Without(old(threadsQueue), tid)
    {
      var temp: seq<int> := [];
      while threadsQueue != []
        invariant temp + Without(threadsQueue, tid) == Without(old(threadsQueue), tid)
        decreases |threadsQueue|
      {
        var next := threadsQueue[0];
        threadsQueue := threadsQueue[1..];
        if next != tid {
          temp := temp + [next];
        }
      }
      threadsQueue := temp;
    }

    method TerminateThread(tid: int)
      requires 0 <= tid < |threads|
      modifies this`threads, this`threadsQueue
      ensures Abstract() == Terminated(old(Abstract()), tid)
    {
      threads := threads[tid := threads[tid].(terminated := true)];
      threads := threads[tid := threads[tid].(preemptable := true)];
      RemoveFromQueue(tid);
    }

    method ActiveThreads() returns (active: bool)
      ensures active <==> exists i :: 0 <= i < |threads| && !threads[i].terminated
    {
      for i := 0 to |threads|
        invariant forall j | 0 <= j < i :: threads[j].terminated
      {
        if !threads[i].terminated {
          return true;
        }
      }
      return false;
    }

    /** `setWaitingForThreadsToTerminate(true)`: main leaves the queue. */
    method SetWaiting()
      modifies this`waitingForThreadsToTerminate, this`threadsQueue
      ensures Abstract() == Waiting(old(Abstract()))
    {
      waitingForThreadsToTerminate := true;
      RemoveFromQueue(MAIN);
    }

    /** `setPreemptable(tid, true)`. */
    method SetPreemptable(tid: int) returns (status: int)
      modifies this`preemptable, this`threads
      ensures Abstract() == Preemptable(old(Abstract()), tid)
      ensures status == if MAIN <= tid < |threads| then 0 else -1
    {
      if tid == MAIN {
        preemptable := true;
        return 0;
      } else if 0 <= tid < |threads| {
        threads := threads[tid := threads[tid].(preemptable := true)];
        return 0;
      }
      return -1;
    }

    method StartInstance(k: nat) returns (tid: int)
      requires k < |initiatedAsync|
      modifies this
      ensures Abstract() == Start(old(Abstract()), k) && tid == old(|threads|)
    {
      tid := |threads|;
      threads := threads + [Thread(false, false)];
      if threadsQueue == [] {
        threadsQueue := [MAIN];
      }
      threadsQueue := threadsQueue + [tid];
      var info := initiatedAsync[k];
      initiatedAsync := initiatedAsync[k := info.(numStarted := info.numStarted + 1)];
      rtid := tid;
    }

    method DispatchNext() returns (choice: Choice)
      requires forall t <- threadsQueue :: MAIN <= t < |threads|
      modifies this
      ensures (Abstract(), choice) == Dispatch(old(Abstract()))
    {
      if threadsQueue == [] {
        return Chosen(MAIN);
      }
      var next := threadsQueue[0];
      assert next in threadsQueue;
      threadsQueue := threadsQueue[1..];
      if !waitingForThreadsToTerminate || next >= 0 {
        threadsQueue := threadsQueue + [next];
      }
      if next == MAIN {
        if waitingForThreadsToTerminate {
          assert threadsQueue == old(threadsQueue[1..]) + [];
          return Fails;
        }
        preemptable := false;
        rtid := MAIN;
      } else {
        threads := threads[next := threads[next].(preemptable := false)];
        rtid := next;
      }
      return Chosen(next);
    }

    method ScheduleAsync() returns (choice: Choice)
      requires InRange(Abstract())
      modifies this
      ensures (Abstract(), choice) == Scheduled(old(Abstract()))
    {
      hide Start, Dispatch, FirstPending;
      if !waitingForThreadsToTerminate && rtid == MAIN && !preemptable {
        return Chosen(MAIN);
      }
      if rtid >= 0 && !threads[rtid].preemptable {
        return Chosen(rtid);
      }
      for k := 0 to |initiatedAsync|
        invariant Abstract() == old(Abstract())
        invariant forall i | 0 <= i < k :: initiatedAsync[i].numStarted >= initiatedAsync[i].count
      {
        if initiatedAsync[k].numStarted < initiatedAsync[k].count {
          FirstPendingIs(initiatedAsync, k);
          var tid := StartInstance(k);
          return Chosen(tid);
        }
      }
      FirstPendingIs(initiatedAsync, |initiatedAsync|);
      choice := DispatchNext();
    }
  }

  // ----- Runs -----

  predicate Enabled(s: State, e: Event) {
    match e
    case Schedule => InRange(s) && Scheduled(s).1 != Fails
    case Terminate(tid) => 0 <= tid < |s.threads|
    case _ => true
  }

  function Step(s: State, e: Event): State
    requires Enabled(s, e)
  {
    match e
    case Initiate(f) => Initiated(s, f)
    case Schedule => Scheduled(s).0
    case Terminate(tid) => Terminated(s, tid)
    case Wait => Waiting(s)
    case MakePreemptable(tid) => Preemptable(s, tid)
  }

  predicate Runs(s: State, events: seq<Event>)
    decreases |events|
  {
    events == [] || (Enabled(s, events[0]) && Runs(Step(s, events[0]), events[1..]))
  }

  function Run(s: State, events: seq<Event>): State
    requires Runs(s, events)
    decreases |events|
  {
    if events == [] then s else Run(Step(s, events[0]), events[1..])
  }

  // ----- Safety -----

  function Started(initiated: seq<AsyncInfo>): nat {
    if initiated == [] then 0 else initiated[0].numStarted + Started(initiated[1..])
  }

  function Pending(initiated: seq<AsyncInfo>): int {
    if initiated == [] then 0 else initiated[0].count - initiated[0].numStarted + Pending(initiated[1..])
  }

  /** The queue has no repeats and holds the unterminated threads, and main unless it waits. */
  ghost predicate QueueSafe(queue: seq<int>, threads: seq<Thread>, waiting: bool) {
    && NoDuplicates(queue)
    && (forall t <- queue :: MAIN <= t < |threads|)
    && (forall t | 0 <= t < |threads| :: t in queue <==> !threads[t].terminated)
    && (forall t | 0 <= t < |threads| :: threads[t].terminated ==> threads[t].preemptable)
    && (!waiting ==> MAIN in queue)
  }

  /** No more instances have started than were initiated, and `n` in all. */
  ghost predicate BooksSafe(initiated: seq<AsyncInfo>, n: nat) {
    && (forall i, j | 0 <= i < j < |initiated| :: initiated[i].function_ < initiated[j].function_)
    && (forall i | 0 <= i < |initiated| :: initiated[i].numStarted <= initiated[i].count)
    && Started(initiated) == n
  }

  /** Every thread is a started instance, and is in the queue once just while it is not terminated. */
  ghost predicate Safe(s: State) {
    && MAIN <= s.rtid < |s.threads|
    && QueueSafe(s.threadsQueue, s.threads, s.waiting)
    && BooksSafe(s.initiated, |s.threads|)
  }

  lemma {:induction false} WithoutHas(queue: seq<int>, tid: int, t: int)
    ensures t in Without(queue, tid) <==> t in queue && t != tid
  {
    if queue != [] {
      WithoutHas(queue[1..], tid, t);
      assert queue == [queue[0]] + queue[1..];
    }
  }

  lemma {:induction false} WithoutDistinct(queue: seq<int>, tid: int)
    requires NoDuplicates(queue)
    ensures NoDuplicates(Without(queue, tid))
  {
    if queue != [] {
      WithoutDistinct(queue[1..], tid);
      WithoutHas(queue[1..], tid, queue[0]);
    }
  }

  lemma {:induction false} Changed(initiated: seq<AsyncInfo>, k: nat, info: AsyncInfo)
    requires k < |initiated|
    ensures Started(initiated[k := info]) == Started(initiated) - initiated[k].numStarted + info.numStarted
    ensures Pending(initiated[k := info]) ==
      Pending(initiated) - (initiated[k].count - initiated[k].numStarted) + (info.count - info.numStarted)
  {
    if k == 0 {
      assert initiated[k := info][1..] == initiated[1..];
    } else {
      Changed(initiated[1..], k - 1, info);
      assert initiated[k := info][1..] == initiated[1..][k - 1 := info];
    }
  }

  lemma {:induction false} Inserted(initiated: seq<AsyncInfo>, k: nat, info: AsyncInfo)
    requires k <= |initiated|
    ensures Started(initiated[..k] + [info] + initiated[k..]) == Started(initiated) + info.numStarted
  {
    var longer := initiated[..k] + [info] + initiated[k..];
    if k == 0 {
      assert longer[1..] == initiated;
    } else {
      Inserted(initiated[1..], k - 1, info);
      assert longer[1..] == initiated[1..][..k - 1] + [info] + initiated[1..][k - 1..];
    }
  }

  lemma InitiateSafe(s: State, f: nat)
    requires Safe(s)
    ensures Safe(Initiated(s, f))
  {
    hide QueueSafe, Place, BooksSafe;
    var k := Place(s.initiated, f);
    PlaceHas(s.initiated, f);
    if k < |s.initiated| && s.initiated[k].function_ == f {
      CountSafe(s.initiated, k, |s.threads|);
    } else {
      EntrySafe(s.initiated, k, f, |s.threads|);
    }
  }

  lemma CountSafe(initiated: seq<AsyncInfo>, k: nat, n: nat)
    requires BooksSafe(initiated, n) && k < |initiated|
    ensures BooksSafe(initiated[k := initiated[k].(count := initiated[k].count + 1)], n)
  {
    hide Started;
    Changed(initiated, k, initiated[k].(count := initiated[k].count + 1));
  }

  lemma EntrySafe(initiated: seq<AsyncInfo>, k: nat, f: nat, n: nat)
    requires BooksSafe(initiated, n) && k <= |initiated| && (forall i | 0 <= i < k :: initiated[i].function_ < f)
    requires k < |initiated| ==> f < initiated[k].function_
    ensures BooksSafe(initiated[..k] + [AsyncInfo(f, 1, 0)] + initiated[k..], n)
  {
    hide Started;
    Inserted(initiated, k, AsyncInfo(f, 1, 0));
  }

  lemma PlaceHas(initiated: seq<AsyncInfo>, f: nat)
    ensures var k := Place(initiated, f);
      && k <= |initiated| && (forall i | 0 <= i < k :: initiated[i].function_ < f)
      && (k < |initiated| ==> f <= initiated[k].function_)
  {}

  lemma TerminateSafe(s: State, tid: int)
    requires Safe(s) && 0 <= tid < |s.threads|
    ensures Safe(Terminated(s, tid))
  {
    WithoutDistinct(s.threadsQueue, tid);
    forall t ensures t in Without(s.threadsQueue, tid) <==> t in s.threadsQueue && t != tid {
      WithoutHas(s.threadsQueue, tid, t);
    }
  }

  lemma WaitSafe(s: State)
    requires Safe(s)
    ensures Safe(Waiting(s))
  {
    WithoutDistinct(s.threadsQueue, MAIN);
    forall t ensures t in Without(s.threadsQueue, MAIN) <==> t in s.threadsQueue && t != MAIN {
      WithoutHas(s.threadsQueue, MAIN, t);
    }
  }

  lemma StartSafe(s: State, k: nat)
    requires Safe(s) && k < |s.initiated| && s.initiated[k].numStarted < s.initiated[k].count
    ensures Safe(Start(s, k))
  {
    hide QueueSafe, Started;
    var info := s.initiated[k];
    Changed(s.initiated, k, info.(numStarted := info.numStarted + 1));
    QueueGrows(s.threadsQueue, s.threads, s.waiting);
  }

  lemma QueueGrows(queue: seq<int>, threads: seq<Thread>, waiting: bool)
    requires QueueSafe(queue, threads, waiting)
    ensures QueueSafe((if queue == [] then [MAIN] else queue) + [|threads|], threads + [Thread(false, false)], waiting)
  {
    var queue', threads' := if queue == [] then [MAIN] else queue, threads + [Thread(false, false)];
    assert |threads| !in queue';
    forall t | 0 <= t < |threads'| ensures t in queue' + [|threads|] <==> !threads'[t].terminated {
      assert t < |threads| ==> (t in queue' <==> t in queue);
    }
  }

  lemma Rotated(queue: seq<int>)
    requires queue != [] && NoDuplicates(queue)
    ensures NoDuplicates(queue[1..] + [queue[0]]) && NoDuplicates(queue[1..] + [])
    ensures forall t :: t in queue[1..] + [queue[0]] <==> t in queue
    ensures forall t :: t in queue[1..] + [] <==> t in queue && t != queue[0]
  {
    assert queue == [queue[0]] + queue[1..];
  }

  lemma DispatchSafe(s: State)
    requires Safe(s)
    ensures Safe(Dispatch(s).0)
  {
    hide BooksSafe, NoDuplicates;
    if s.threadsQueue != [] {
      Rotated(s.threadsQueue);
      var s', next := Dispatch(s).0, s.threadsQueue[0];
      assert next in s.threadsQueue;
      if next >= 0 {
        assert s'.threadsQueue == s.threadsQueue[1..] + [next];
      } else if s.waiting {
        assert s'.threadsQueue == s.threadsQueue[1..] + [];
      } else {
        assert s'.threadsQueue == s.threadsQueue[1..] + [next];
      }
    }
  }

  lemma StepSafe(s: State, e: Event)
    requires Safe(s) && Enabled(s, e)
    ensures Safe(Step(s, e))
  {
    match e
    case Initiate(f) => InitiateSafe(s, f);
    case Schedule =>
      if MayLeave(s) {
        var k := FirstPending(s.initiated);
        if k < |s.initiated| {
          StartSafe(s, k);
        } else {
          DispatchSafe(s);
        }
      }
    case Terminate(tid) => TerminateSafe(s, tid);
    case Wait => WaitSafe(s);
    case MakePreemptable(_) =>
  }

  /** Every state of every run is safe. */
  lemma {:induction false} RunSafe(s: State, events: seq<Event>)
    requires Safe(s) && Runs(s, events)
    ensures Safe(Run(s, events))
    decreases |events|
  {
    if events != [] {
      StepSafe(s, events[0]);
      RunSafe(Step(s, events[0]), events[1..]);
    }
  }

  lemma InitiallySafe()
    ensures Safe(INITIAL)
  {
    assert INITIAL.threadsQueue[0] == MAIN;
  }

  /**
   A scheduling call in a safe state chooses no terminated thread, and lets a waiting main go only when all is done.
   */
  lemma ChoiceSafe(s: State)
    requires Safe(s)
    ensures var (s', choice) := Scheduled(s);
      choice != Fails ==>
        && (choice.tid == s'.rtid || s.threadsQueue == [])
        && (choice.tid >= 0 ==> choice.tid < |s'.threads| && !s'.threads[choice.tid].terminated)
        && (choice.tid == MAIN && s.waiting ==>
              && (forall t | 0 <= t < |s.threads| :: s.threads[t].terminated)
              && (forall i | 0 <= i < |s.initiated| :: s.initiated[i].numStarted == s.initiated[i].count))
  {
    if MayLeave(s) && s.threadsQueue != [] {
      assert s.threadsQueue[0] in s.threadsQueue;
    }
  }

  /** Cooperation: whoever is chosen is chosen again, with nothing changed, until it is made preemptable. */
  lemma KeepsRunning(s: State)
    requires Safe(s) && s.threadsQueue != [] && Scheduled(s).1 != Fails
    ensures var (s', choice) := Scheduled(s); Safe(s') && Scheduled(s') == (s', choice)
  {
    hide BooksSafe;
    StepSafe(s, Schedule);
    FrontInRange(s);
  }

  lemma FrontInRange(s: State)
    requires Safe(s) && s.threadsQueue != []
    ensures MAIN <= s.threadsQueue[0] < |s.threads|
  {
    assert s.threadsQueue[0] in s.threadsQueue;
  }

  /** How many initiated instances of the function are still to start. */
  function Owed(initiated: seq<AsyncInfo>, f: nat): int {
    if initiated == [] then 0
    else
      (if initiated[0].function_ == f then initiated[0].count - initiated[0].numStarted
       else 0) + Owed(initiated[1..], f)
  }

  lemma {:induction false} OwedChanged(initiated: seq<AsyncInfo>, k: nat, info: AsyncInfo, f: nat)
    requires k < |initiated| && info.function_ == initiated[k].function_
    ensures Owed(initiated[k := info], f) == Owed(initiated, f) +
      if info.function_ == f then info.count - info.numStarted - (initiated[k].count - initiated[k].numStarted) else 0
  {
    if k == 0 {
      assert initiated[k := info][1..] == initiated[1..];
    } else {
      OwedChanged(initiated[1..], k - 1, info, f);
      assert initiated[k := info][1..] == initiated[1..][k - 1 := info];
    }
  }

  lemma {:induction false} OwedInserted(initiated: seq<AsyncInfo>, k: nat, info: AsyncInfo, f: nat)
    requires k <= |initiated|
    ensures Owed(initiated[..k] + [info] + initiated[k..], f) ==
      Owed(initiated, f) + if info.function_ == f then info.count - info.numStarted else 0
  {
    var longer := initiated[..k] + [info] + initiated[k..];
    if k == 0 {
      assert longer[1..] == initiated;
    } else {
      OwedInserted(initiated[1..], k - 1, info, f);
      assert longer[1..] == initiated[1..][..k - 1] + [info] + initiated[1..][k - 1..];
    }
  }

  /** An initiation owes one more instance of its function, and of no other. */
  lemma InitiationOwes(s: State, f: nat, g: nat)
    ensures Owed(Initiated(s, f).initiated, g) == Owed(s.initiated, g) + if g == f then 1 else 0
  {
    hide Place;
    var k := Place(s.initiated, f);
    PlaceHas(s.initiated, f);
    if k < |s.initiated| && s.initiated[k].function_ == f {
      OwedChanged(s.initiated, k, s.initiated[k].(count := s.initiated[k].count + 1), g);
    } else {
      OwedInserted(s.initiated, k, AsyncInfo(f, 1, 0), g);
    }
  }

  /** A start pays one instance of one function, the first in name order that is owed any, and adds one thread. */
  lemma StartPays(s: State, g: nat)
    requires Safe(s) && MayLeave(s) && FirstPending(s.initiated) < |s.initiated|
    ensures var (s', f) := (Scheduled(s).0, s.initiated[FirstPending(s.initiated)].function_);
      && Owed(s'.initiated, g) == Owed(s.initiated, g) - (if g == f then 1 else 0)
      && |s'.threads| == |s.threads| + 1
      && (g < f ==> Owed(s.initiated, g) == 0)
  {
    hide QueueSafe, Started;
    var k := FirstPending(s.initiated);
    OwedChanged(s.initiated, k, s.initiated[k].(numStarted := s.initiated[k].numStarted + 1), g);
    if g < s.initiated[k].function_ {
      forall i | 0 <= i < |s.initiated| && s.initiated[i].function_ == g
        ensures s.initiated[i].count == s.initiated[i].numStarted
      {
        FirstPendingHas(s.initiated);
        assert i < k;
      }
      NothingOwed(s.initiated, g);
    }
  }

  lemma FirstPendingHas(initiated: seq<AsyncInfo>)
    ensures forall i | 0 <= i < FirstPending(initiated) :: initiated[i].numStarted >= initiated[i].count
  {}

  lemma {:induction false} NothingOwed(initiated: seq<AsyncInfo>, g: nat)
    requires forall i | 0 <= i < |initiated| && initiated[i].function_ == g ::
      initiated[i].count == initiated[i].numStarted
    ensures Owed(initiated, g) == 0
  {
    if initiated != [] {
      NothingOwed(initiated[1..], g);
    }
  }

  // ----- Bounded waiting -----

  function Position(queue: seq<int>, t: int): (p: nat)
    requires t in queue
    ensures p < |queue| && queue[p] == t
  {
    if queue[0] == t then 0 else 1 + Position(queue[1..], t)
  }

  /** The call gets past the two checks that the running thread may be left. */
  predicate Leaves(s: State, e: Event) {
    e == Schedule && InRange(s) && MayLeave(s)
  }

  /** The number of scheduling calls that get past the checks. */
  function Leavings(s: State, events: seq<Event>): nat
    requires Runs(s, events)
    decreases |events|
  {
    if events == [] then 0
    else (if Leaves(s, events[0]) then 1 else 0) + Leavings(Step(s, events[0]), events[1..])
  }

  /** One of those calls chooses the thread. */
  predicate Chooses(s: State, events: seq<Event>, t: int)
    requires Runs(s, events)
    decreases |events|
  {
    events != [] &&
    ((Leaves(s, events[0]) && Scheduled(s).1 == Chosen(t)) || Chooses(Step(s, events[0]), events[1..], t))
  }

  /** The event initiates nothing and does not take the thread out of the queue. */
  predicate Bystander(e: Event, t: int) {
    !e.Initiate? && e != Terminate(t) && (t == MAIN ==> e != Wait)
  }

  /**
   How many scheduling calls past the checks come before the thread's turn: starts first, then those ahead in the
   queue.
   */
  function Rank(s: State, t: int): int
    requires t in s.threadsQueue
  {
    Pending(s.initiated) + Position(s.threadsQueue, t)
  }

  lemma {:induction false} PositionIs(queue: seq<int>, t: int, p: nat)
    requires NoDuplicates(queue) && p < |queue| && queue[p] == t
    ensures t in queue && Position(queue, t) == p
  {
    if p > 0 {
      PositionIs(queue[1..], t, p - 1);
    }
  }

  lemma {:induction false} WithoutPosition(queue: seq<int>, tid: int, t: int)
    requires t in queue && t != tid
    ensures t in Without(queue, tid) && Position(Without(queue, tid), t) <= Position(queue, t)
  {
    if queue[0] != t {
      WithoutPosition(queue[1..], tid, t);
      if queue[0] == tid {
        assert Without(queue, tid) == Without(queue[1..], tid);
      } else {
        assert Without(queue, tid)[0] == queue[0] && Without(queue, tid)[1..] == Without(queue[1..], tid);
      }
    } else {
      assert Without(queue, tid)[0] == t;
    }
  }

  lemma {:induction false} PendingNatural(initiated: seq<AsyncInfo>)
    requires forall i | 0 <= i < |initiated| :: initiated[i].numStarted <= initiated[i].count
    ensures Pending(initiated) >= 0
  {
    if initiated != [] {
      PendingNatural(initiated[1..]);
    }
  }

  lemma StartRank(s: State, k: nat, t: int)
    requires Safe(s) && k < |s.initiated| && t in s.threadsQueue
    ensures t in Start(s, k).threadsQueue && Rank(Start(s, k), t) == Rank(s, t) - 1
  {
    hide Started, Pending, Position;
    Changed(s.initiated, k, s.initiated[k].(numStarted := s.initiated[k].numStarted + 1));
    QueueGrows(s.threadsQueue, s.threads, s.waiting);
    var p := Position(s.threadsQueue, t);
    PositionHas(s.threadsQueue, t);
    PositionIs(s.threadsQueue + [|s.threads|], t, p);
  }

  lemma PositionHas(queue: seq<int>, t: int)
    requires t in queue
    ensures var p := Position(queue, t); p < |queue| && queue[p] == t
  {}

  lemma DispatchRank(s: State, t: int)
    requires Safe(s) && t in s.threadsQueue && Dispatch(s).1 != Fails && Dispatch(s).1 != Chosen(t)
    ensures t in Dispatch(s).0.threadsQueue && Rank(Dispatch(s).0, t) == Rank(s, t) - 1
  {
    hide Started, Pending, Position, BooksSafe;
    var queue, p := s.threadsQueue, Position(s.threadsQueue, t);
    PositionHas(queue, t);
    Rotated(queue);
    assert Dispatch(s).0.threadsQueue == queue[1..] + [queue[0]];
    PositionIs(queue[1..] + [queue[0]], t, p - 1);
  }

  /** A call past the checks that does not choose the thread brings its turn nearer; nothing puts it off. */
  lemma StepRank(s: State, e: Event, t: int)
    requires Safe(s) && Enabled(s, e) && t in s.threadsQueue && Bystander(e, t)
    requires !(Leaves(s, e) && Scheduled(s).1 == Chosen(t))
    ensures t in Step(s, e).threadsQueue
    ensures Rank(Step(s, e), t) + (if Leaves(s, e) then 1 else 0) <= Rank(s, t)
  {
    hide QueueSafe, BooksSafe, Position, Pending, Start, Dispatch, FirstPending;
    match e
    case Schedule =>
      if MayLeave(s) {
        var k := FirstPending(s.initiated);
        PendingFirst(s.initiated);
        if k < |s.initiated| {
          StartRank(s, k, t);
        } else {
          DispatchRank(s, t);
        }
      }
    case Terminate(tid) => WithoutPosition(s.threadsQueue, tid, t);
    case Wait => WithoutPosition(s.threadsQueue, MAIN, t);
    case MakePreemptable(_) =>
  }

  lemma PendingFirst(initiated: seq<AsyncInfo>)
    ensures FirstPending(initiated) <= |initiated|
  {}

  /**
   No starvation: with no further initiations, an unterminated thread is chosen within as
   many scheduling calls past the checks as there are pending starts and threads ahead of
   it in the queue, and one more, whatever the other threads do in between.
   */
  lemma {:induction false} BoundedWaiting(s: State, events: seq<Event>, t: int)
    requires Safe(s) && Runs(s, events) && t in s.threadsQueue
    requires forall i | 0 <= i < |events| :: Bystander(events[i], t)
    ensures Leavings(s, events) >= Rank(s, t) + 1 ==> Chooses(s, events, t)
    decreases |events|
  {
    PendingNatural(s.initiated);
    if events != [] && !(Leaves(s, events[0]) && Scheduled(s).1 == Chosen(t)) {
      StepRank(s, events[0], t);
      StepSafe(s, events[0]);
      BoundedWaiting(Step(s, events[0]), events[1..], t);
    }
  }

  // ----- When the assertion fails -----

  /** Main is back in the queue of a waiting state: an instance has started on an empty queue since the last `Wait`. */
  predicate Readmits(s: State, events: seq<Event>, before: bool)
    requires Runs(s, events)
    decreases |events|
  {
    if events == [] then before else
    var e := events[0];
    var now :=
      if e == Wait then false
      else if s.waiting && Leaves(s, e) && FirstPending(s.initiated) < |s.initiated| && s.threadsQueue == [] then true
      else before;
    Readmits(Step(s, e), events[1..], now)
  }

  lemma ReadmitStep(s: State, e: Event, before: bool, now: bool)
    requires Safe(s) && Enabled(s, e) && (s.waiting ==> (MAIN in s.threadsQueue <==> before))
    requires now ==
      if e == Wait then false
      else if s.waiting && Leaves(s, e) && FirstPending(s.initiated) < |s.initiated| && s.threadsQueue == [] then true
      else before
    ensures Step(s, e).waiting ==> (MAIN in Step(s, e).threadsQueue <==> now)
  {
    hide BooksSafe, FirstPending;
    match e
    case Terminate(tid) => WithoutHas(s.threadsQueue, tid, MAIN);
    case Wait => WithoutHas(s.threadsQueue, MAIN, MAIN);
    case Schedule =>
      PendingFirst(s.initiated);
      if s.threadsQueue != [] {
        Rotated(s.threadsQueue);
      }
    case _ =>
  }

  lemma {:induction false} ReadmittedExactly(s: State, events: seq<Event>, before: bool)
    requires Safe(s) && Runs(s, events) && (s.waiting ==> (MAIN in s.threadsQueue <==> before))
    ensures Run(s, events).waiting ==> (MAIN in Run(s, events).threadsQueue <==> Readmits(s, events, before))
    decreases |events|
  {
    if events != [] {
      var e := events[0];
      var now :=
        if e == Wait then false
        else if s.waiting && Leaves(s, e) && FirstPending(s.initiated) < |s.initiated| && s.threadsQueue == [] then true
        else before;
      ReadmitStep(s, e, before, now);
      StepSafe(s, e);
      ReadmittedExactly(Step(s, e), events[1..], now);
    }
  }

  /**
   The assertion can fail just when main was readmitted while waiting, and then it is bound to: only so many calls
   can pass.
   */
  lemma FailsExactlyWhenReadmitted(events: seq<Event>)
    requires Runs(INITIAL, events)
    ensures var s := Run(INITIAL, events);
      && InRange(s)
      && (Scheduled(s).1 == Fails ==> s.waiting && Readmits(INITIAL, events, false))
      && (s.waiting && Readmits(INITIAL, events, false) ==>
            && MAIN in s.threadsQueue
            && forall more | Runs(s, more) && (forall i | 0 <= i < |more| :: Bystander(more[i], MAIN)) ::
                 Leavings(s, more) <= Rank(s, MAIN))
  {
    var s := Run(INITIAL, events);
    InitiallySafe();
    RunSafe(INITIAL, events);
    ReadmittedExactly(INITIAL, events, false);
    if Scheduled(s).1 == Fails {
      assert s.threadsQueue[0] in s.threadsQueue;
    }
    if s.waiting && MAIN in s.threadsQueue {
      forall more | Runs(s, more) && (forall i | 0 <= i < |more| :: Bystander(more[i], MAIN))
        ensures Leavings(s, more) <= Rank(s, MAIN)
      {
        ReadmittedStops(s, more);
      }
    }
  }

  lemma {:induction false} ReadmittedStops(s: State, events: seq<Event>)
    requires Safe(s) && Runs(s, events) && s.waiting && MAIN in s.threadsQueue
    requires forall i | 0 <= i < |events| :: Bystander(events[i], MAIN)
    ensures Leavings(s, events) <= Rank(s, MAIN)
    decreases |events|
  {
    PendingNatural(s.initiated);
    if events != [] {
      StepRank(s, events[0], MAIN);
      StepSafe(s, events[0]);
      ReadmittedStops(Step(s, events[0]), events[1..]);
    }
  }

  // ----- What the executor does, and a run of it that fails -----

  /** Someone executes an instruction: main unless it waits, or an unterminated thread. */
  predicate Running(s: State)
    requires InRange(s)
  {
    if s.rtid == MAIN then !s.waiting else !s.threads[s.rtid].terminated
  }

  /** What an instruction of the running thread can do: only main begins to wait, and only for an active thread. */
  predicate Executes(s: State, e: Event)
    requires InRange(s)
  {
    Running(s) &&
    match e
    case Schedule => false
    case Initiate(_) => true
    case Terminate(tid) => tid == s.rtid
    case MakePreemptable(tid) => tid == s.rtid
    case Wait => s.rtid == MAIN && exists t :: 0 <= t < |s.threads| && !s.threads[t].terminated
  }

  /**
   The executor's own runs: in every turn a scheduling call, then at most one instruction of
   the running thread, which may initiate instances first. `turn` says that one may execute.
   */
  predicate Executable(s: State, events: seq<Event>, turn: bool)
    requires Runs(s, events)
    decreases |events|
  {
    events == [] ||
    (var e := events[0];
     && (e.Schedule? || (turn && InRange(s) && Executes(s, e)))
     && Executable(Step(s, e), events[1..], e.Schedule? || e.Initiate?))
  }

  /** Made preemptable, the running thread may be left, and no other thread is affected. */
  lemma PreemptableMayLeave(s: State, tid: int)
    requires Safe(s) && MAIN <= tid < |s.threads|
    ensures var s' := Preemptable(s, tid);
      && InRange(s') && s'.rtid == s.rtid && s'.threadsQueue == s.threadsQueue && s'.initiated == s.initiated
      && (MayLeave(s') <==> tid == s.rtid || MayLeave(s))
      && (forall t | 0 <= t < |s.threads| && t != tid :: s'.threads[t] == s.threads[t])
  {}

  /** After a call the chosen thread is the running one, and someone executes unless main is chosen while it waits. */
  lemma ChosenExecutes(s: State)
    requires Safe(s) && Scheduled(s).1.Chosen?
    ensures var (s', c) := Scheduled(s);
      && InRange(s')
      && (Running(s') <==> c.tid != MAIN || !s'.waiting)
      && (Running(s') ==> s'.rtid == c.tid)
  {
    hide BooksSafe, Started, NoDuplicates;
    StepSafe(s, Schedule);
    if MayLeave(s) && FirstPending(s.initiated) == |s.initiated| && s.threadsQueue != [] {
      assert s.threadsQueue[0] in s.threadsQueue;
    }
  }

  /** One action a turn. */
  function Turns(actions: seq<Event>): seq<Event> {
    if actions == [] then [] else [Schedule, actions[0]] + Turns(actions[1..])
  }

  ghost predicate Leads(s: State, actions: seq<Event>, to: State) {
    Runs(s, Turns(actions)) && Executable(s, Turns(actions), false) && Run(s, Turns(actions)) == to
  }

  lemma NoTurns(s: State)
    ensures Leads(s, [], s)
  {}

  lemma Turn(s: State, scheduled: State, e: Event, s': State, actions: seq<Event>, to: State)
    requires Enabled(s, Schedule) && Step(s, Schedule) == scheduled
    requires InRange(scheduled) && Executes(scheduled, e) && Enabled(scheduled, e) && Step(scheduled, e) == s'
    requires Leads(s', actions, to)
    ensures Leads(s, [e] + actions, to)
  {
    hide Scheduled, Enabled, Step, Running;
    var rest := Turns(actions);
    assert ([e] + actions)[1..] == actions;
    assert Turns([e] + actions) == [Schedule, e] + rest;
    var events := [Schedule, e] + rest;
    AnyTurn(s', rest, e.Initiate?);
    var later := [e] + rest;
    assert later[1..] == rest;
    assert Runs(scheduled, later) && Run(scheduled, later) == to;
    assert Executable(scheduled, later, true);
    assert events[1..] == later;
    assert Runs(s, events) && Run(s, events) == to;
    assert Executable(s, events, false);
  }

  /** A run that starts with a scheduling call may start at any time. */
  lemma AnyTurn(s: State, events: seq<Event>, turn: bool)
    requires Runs(s, events) && Executable(s, events, false)
    ensures Executable(s, events, turn)
  {}

  /** The state in which main, back in the queue, is about to be popped. */
  const READMITTED := State([MAIN, 1], [Thread(true, true), Thread(true, false)], 1, false, true, [AsyncInfo(0, 2, 2)])

  const EARLY: seq<Event> := [Initiate(0), MakePreemptable(MAIN), MakePreemptable(0), Wait]
  const LATE: seq<Event> := [Initiate(0), Terminate(0), MakePreemptable(1)]

  lemma LateRun()
    ensures Leads(State([0], [Thread(true, false)], MAIN, false, true, [AsyncInfo(0, 1, 1)]), LATE, READMITTED)
  {
    hide Run, Runs, Leads;
    var s := State([0], [Thread(true, false)], MAIN, false, true, [AsyncInfo(0, 1, 1)]);
    var s1 := State([0], [Thread(false, false)], 0, false, true, [AsyncInfo(0, 1, 1)]);
    var s2 := s1.(initiated := [AsyncInfo(0, 2, 1)]);
    var s3 := s2.(threadsQueue := [], threads := [Thread(true, true)]);
    var s4 := State([MAIN, 1], [Thread(true, true), Thread(false, false)], 1, false, true, [AsyncInfo(0, 2, 2)]);
    NoTurns(READMITTED);
    Turn(s3, s4, MakePreemptable(1), READMITTED, [], READMITTED);
    Turn(s2, s2, Terminate(0), s3, [MakePreemptable(1)] + [], READMITTED);
    Turn(s, s1, Initiate(0), s2, [Terminate(0)] + ([MakePreemptable(1)] + []), READMITTED);
    assert [Initiate(0)] + ([Terminate(0)] + ([MakePreemptable(1)] + [])) == LATE;
  }

  lemma WaitingRun()
    ensures Leads(State([MAIN, 0], [Thread(true, false)], 0, true, false, [AsyncInfo(0, 1, 1)]), [Wait] + LATE,
                  READMITTED)
  {
    hide Run, Runs, Leads;
    var s := State([MAIN, 0], [Thread(true, false)], 0, true, false, [AsyncInfo(0, 1, 1)]);
    var s1 := State([0, MAIN], [Thread(true, false)], MAIN, false, false, [AsyncInfo(0, 1, 1)]);
    var s2 := s1.(threadsQueue := [0], waiting := true);
    LateRun();
    assert Without([0, MAIN], MAIN) == [0] by {
      assert [0, MAIN][1..] == [MAIN] && [MAIN][1..] == [];
      assert Without([MAIN], MAIN) == [] && Without([0, MAIN], MAIN) == [0] + Without([MAIN], MAIN);
    }
    assert !s1.threads[0].terminated;
    Turn(s, s1, Wait, s2, LATE, READMITTED);
  }

  /** A run of the executor that fails: a thread initiates another instance and terminates while main waits for it. */
  lemma FailingRun()
    ensures var events := Turns(EARLY + LATE);
      && Runs(INITIAL, events) && Executable(INITIAL, events, false)
      && Run(INITIAL, events) == READMITTED && Scheduled(READMITTED).1 == Fails
  {
    hide Run, Runs, Turns, Executable;
    var s1 := INITIAL.(initiated := [AsyncInfo(0, 1, 0)]);
    var s2 := s1.(preemptable := true);
    var s3 := State([MAIN, 0], [Thread(false, false)], 0, true, false, [AsyncInfo(0, 1, 1)]);
    var s4 := s3.(threads := [Thread(true, false)]);
    var rest := [Wait] + LATE;
    WaitingRun();
    Turn(s2, s3, MakePreemptable(0), s4, rest, READMITTED);
    Turn(s1, s1, MakePreemptable(MAIN), s2, [MakePreemptable(0)] + rest, READMITTED);
    Turn(INITIAL, INITIAL, Initiate(0), s1, [MakePreemptable(MAIN)] + ([MakePreemptable(0)] + rest), READMITTED);
    assert [Initiate(0)] + ([MakePreemptable(MAIN)] + ([MakePreemptable(0)] + rest)) == EARLY + LATE;
  }
}
