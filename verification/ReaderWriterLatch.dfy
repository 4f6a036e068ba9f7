/** The reader-writer latch of rwlatch.h as interleaved critical sections.

    Every method body runs under one mutex, so a section between taking the
    mutex and either returning or going to sleep is one step.  A thread that
    sleeps on a condition variable wakes by a notification or for no reason at
    all, and then has to take the mutex again and re-test its loop condition. */
module LatchProtocol {
  import opened Basics

  /** MAX_READERS is UINT_MAX. */
  const MAX_READERS: nat := 0xFFFF_FFFF

  type Thread = nat

  /** Where a thread stands.  The `Awaits` modes are asleep, the `Notified` modes
      have been woken and still have to take the mutex again. */
  datatype Mode =
    | Idle
    | AwaitsTurn      // in WLock, asleep on reader_
    | TurnNotified
    | AwaitsDrain     // in WLock with writer_entered_ set, asleep on writer_
    | DrainNotified
    | Writing
    | AwaitsRead      // in RLock, asleep on reader_
    | ReadNotified
    | Reading

  datatype Latch = Latch(modes: map<Thread, Mode>, readerCount: nat, writerEntered: bool)

  predicate Asleep(mode: Mode) {
    mode in {AwaitsTurn, AwaitsDrain, AwaitsRead}
  }

  predicate OnReaderQueue(mode: Mode) {
    mode in {AwaitsTurn, AwaitsRead}
  }

  /** The thread whose WLock has set writer_entered_. */
  predicate HasTurn(mode: Mode) {
    mode in {AwaitsDrain, DrainNotified, Writing}
  }

  function Woken(mode: Mode): Mode {
    match mode
    case AwaitsTurn => TurnNotified
    case AwaitsDrain => DrainNotified
    case AwaitsRead => ReadNotified
    case _ => mode
  }

  predicate Is(s: Latch, t: Thread, mode: Mode) {
    t in s.modes && s.modes[t] == mode
  }

  // -------------------------------------------------------------- The steps

  /** WLock from its start, or from its return from reader_.wait. */
  predicate WLockStep(s: Latch, s': Latch, t: Thread) {
    && (Is(s, t, Idle) || Is(s, t, TurnNotified))
    && s' == if s.writerEntered then s.(modes := s.modes[t := AwaitsTurn])
             else Latch(s.modes[t := if s.readerCount > 0 then AwaitsDrain else Writing], s.readerCount, true)
  }

  /** WLock from its return from writer_.wait. */
  predicate DrainStep(s: Latch, s': Latch, t: Thread) {
    && Is(s, t, DrainNotified)
    && s' == s.(modes := s.modes[t := if s.readerCount > 0 then AwaitsDrain else Writing])
  }

  predicate RLockStep(s: Latch, s': Latch, t: Thread) {
    && (Is(s, t, Idle) || Is(s, t, ReadNotified))
    && s' == if s.writerEntered || s.readerCount == MAX_READERS then s.(modes := s.modes[t := AwaitsRead])
             else s.(modes := s.modes[t := Reading], readerCount := s.readerCount + 1)
  }

  /** notify_all on reader_. */
  function NotifyAll(modes: map<Thread, Mode>): map<Thread, Mode> {
    map t | t in modes :: if OnReaderQueue(modes[t]) then Woken(modes[t]) else modes[t]
  }

  predicate WUnlockStep(s: Latch, s': Latch, t: Thread) {
    && Is(s, t, Writing)
    && s' == Latch(NotifyAll(s.modes[t := Idle]), s.readerCount, false)
  }

  /** notify_one: some sleeper of the queue, if there is one, is woken. */
  ghost predicate NotifyOne(queue: Mode -> bool, before: map<Thread, Mode>, after: map<Thread, Mode>) {
    if exists t :: t in before && queue(before[t])
    then exists t :: t in before && queue(before[t]) && after == before[t := Woken(before[t])]
    else after == before
  }

  /** The reset that follows a wrapped decrement is kept as the source has it. */
  function CountAfterRUnlock(count: nat): nat {
    if Decremented(count) == MAX_READERS then 0 else Decremented(count)
  }

  ghost predicate RUnlockStep(s: Latch, s': Latch, t: Thread) {
    && Is(s, t, Reading)
    && var left := CountAfterRUnlock(s.readerCount);
    && var modes := s.modes[t := Idle];
    && s'.readerCount == left
    && s'.writerEntered == s.writerEntered
    && if s.writerEntered then
         (if left == 0 then NotifyOne(mode => mode == AwaitsDrain, modes, s'.modes) else s'.modes == modes)
       else
         (if left == MAX_READERS - 1 then NotifyOne(OnReaderQueue, modes, s'.modes) else s'.modes == modes)
  }

  predicate SpuriousWakeup(s: Latch, s': Latch, t: Thread) {
    && t in s.modes
    && Asleep(s.modes[t])
    && s' == s.(modes := s.modes[t := Woken(s.modes[t])])
  }

  ghost predicate ThreadStep(s: Latch, s': Latch, t: Thread) {
    || WLockStep(s, s', t)
    || DrainStep(s, s', t)
    || RLockStep(s, s', t)
    || WUnlockStep(s, s', t)
    || RUnlockStep(s, s', t)
    || SpuriousWakeup(s, s', t)
  }

  ghost predicate Step(s: Latch, s': Latch) {
    exists t :: ThreadStep(s, s', t)
  }

  predicate Init(s: Latch) {
    s.readerCount == 0 && !s.writerEntered && forall t :: t in s.modes ==> s.modes[t] == Idle
  }

  ghost predicate Run(run: seq<Latch>) {
    && |run| > 0
    && Init(run[0])
    && forall i :: 0 < i < |run| ==> Step(run[i - 1], run[i])
  }

  // ---------------------------------------------------------- The invariant

  function Readers(modes: map<Thread, Mode>): set<Thread> {
    set t | t in modes && modes[t] == Reading
  }

  /** What makes a sleeping thread's loop test true, so that it has to wait. */
  predicate MustWait(s: Latch, mode: Mode) {
    match mode
    case AwaitsTurn => s.writerEntered
    case AwaitsDrain => s.readerCount > 0
    case AwaitsRead => s.writerEntered || s.readerCount == MAX_READERS
    case _ => true
  }

  /** A thread that sleeps, un-notified, although its loop test is false. */
  predicate Forgotten(s: Latch, t: Thread) {
    t in s.modes && !MustWait(s, s.modes[t])
  }

  /** The bound below which notify_one on reader_ is enough. */
  predicate FewThreads(s: Latch) {
    |s.modes.Keys| <= MAX_READERS + 1
  }

  /** The threads whose WLock has set writer_entered_ and which have not released it. */
  function Turns(modes: map<Thread, Mode>): set<Thread> {
    set t | t in modes && HasTurn(modes[t])
  }

  ghost predicate Inv(s: Latch) {
    && s.readerCount == |Readers(s.modes)|
    && s.readerCount <= MAX_READERS
    && |Turns(s.modes)| == (if s.writerEntered then 1 else 0)
    && (forall t :: Is(s, t, Writing) ==> s.readerCount == 0)
    && (forall t :: t in s.modes && s.modes[t] != AwaitsRead ==> !Forgotten(s, t))
    && (FewThreads(s) ==> forall t :: t in s.modes ==> !Forgotten(s, t))
  }

  /** One thread's change of mode moves only that thread in and out of the readers. */
  lemma ReadersAfter(modes: map<Thread, Mode>, t: Thread, mode: Mode)
    requires t in modes
    ensures Readers(modes[t := mode]) == if mode == Reading then Readers(modes) + {t} else Readers(modes) - {t}
    ensures t in Readers(modes) <==> modes[t] == Reading
  {
  }

  lemma TurnsAfter(modes: map<Thread, Mode>, t: Thread, mode: Mode)
    requires t in modes
    ensures Turns(modes[t := mode]) == if HasTurn(mode) then Turns(modes) + {t} else Turns(modes) - {t}
    ensures t in Turns(modes) <==> HasTurn(modes[t])
  {
  }

  /** At most one thread has its turn to write, and then writer_entered_ is set. */
  lemma OneTurn(s: Latch, t: Thread, u: Thread)
    requires |Turns(s.modes)| == (if s.writerEntered then 1 else 0)
    requires t in s.modes && HasTurn(s.modes[t])
    ensures s.writerEntered
    ensures u in s.modes && HasTurn(s.modes[u]) ==> u == t
  {
    assert t in Turns(s.modes);
    if u in s.modes && HasTurn(s.modes[u]) && u != t {
      SubsetSize({t, u}, Turns(s.modes));
    }
  }

  /** Readers and two further threads fill the bound. */
  lemma CrowdedOut(s: Latch, t: Thread, u: Thread)
    requires t in s.modes && u in s.modes && t != u
    requires s.modes[t] != Reading && s.modes[u] != Reading
    requires |Readers(s.modes)| == MAX_READERS
    ensures !FewThreads(s)
  {
    var crowd := Readers(s.modes) + {t, u};
    assert |crowd| == MAX_READERS + 2;
    assert crowd <= s.modes.Keys;
    SubsetSize(crowd, s.modes.Keys);
  }

  // ------------------------------------------------- Every step keeps it

  lemma InitInv(s: Latch)
    requires Init(s)
    ensures Inv(s)
  {
    assert Readers(s.modes) == {};
  }

  lemma ReaderCounted(s: Latch, t: Thread)
    requires Is(s, t, Reading)
    ensures |Readers(s.modes)| > 0
  {
    assert t in Readers(s.modes);
  }

  /** Whoever was not forgotten is not, when the loop tests only get truer. */
  lemma StillWaiting(s: Latch, s': Latch, t: Thread)
    requires t in s.modes && t in s'.modes && s'.modes == s.modes[t := s'.modes[t]]
    requires s.readerCount <= s'.readerCount <= MAX_READERS
    requires s.writerEntered ==> s'.writerEntered
    requires !Forgotten(s', t)
    ensures forall u :: u in s'.modes && !Forgotten(s, u) ==> !Forgotten(s', u)
    ensures forall u :: u in s'.modes && u != t ==> s'.modes[u] == s.modes[u]
  {
  }

  /** A step that moves one thread, and leaves no other sleeper's loop test false. */
  lemma OneThreadMoves(s: Latch, s': Latch, t: Thread)
    requires Inv(s) && t in s.modes && t in s'.modes
    requires s'.modes == s.modes[t := s'.modes[t]]
    requires s'.readerCount - s.readerCount == Weight(s'.modes[t] == Reading) - Weight(s.modes[t] == Reading)
    requires Weight(s'.writerEntered) - Weight(s.writerEntered)
        == Weight(HasTurn(s'.modes[t])) - Weight(HasTurn(s.modes[t]))
    requires s.readerCount <= s'.readerCount <= MAX_READERS
    requires s.writerEntered ==> s'.writerEntered
    requires s'.modes[t] == Writing ==> s'.readerCount == 0
    requires s.writerEntered ==> s'.readerCount == s.readerCount
    requires !Forgotten(s', t)
    ensures Inv(s')
  {
    hide Readers, Turns, Woken;
    ReadersAfter(s.modes, t, s'.modes[t]);
    TurnsAfter(s.modes, t, s'.modes[t]);
    StillWaiting(s, s', t);
    forall u | Is(s', u, Writing) ensures s'.readerCount == 0 {
      if u != t {
        assert Is(s, u, Writing) && HasTurn(s.modes[u]);
        OneTurn(s, u, t);
      }
    }
    assert s'.modes.Keys == s.modes.Keys;
  }

  function Weight(b: bool): int {
    if b then 1 else 0
  }

  lemma WLockKeeps(s: Latch, s': Latch, t: Thread)
    requires Inv(s) && WLockStep(s, s', t)
    ensures Inv(s')
  {
    OneThreadMoves(s, s', t);
  }

  lemma DrainKeeps(s: Latch, s': Latch, t: Thread)
    requires Inv(s) && DrainStep(s, s', t)
    ensures Inv(s')
  {
    OneTurn(s, t, t);
    OneThreadMoves(s, s', t);
  }

  lemma RLockKeeps(s: Latch, s': Latch, t: Thread)
    requires Inv(s) && RLockStep(s, s', t)
    ensures Inv(s')
  {
    OneThreadMoves(s, s', t);
  }

  /** Waking a sleeper never hurts: it will test its condition again. */
  lemma WakingKeeps(s: Latch, t: Thread)
    requires Inv(s) && t in s.modes
    ensures Inv(s.(modes := s.modes[t := Woken(s.modes[t])]))
  {
    var s' := s.(modes := s.modes[t := Woken(s.modes[t])]);
    if s.modes[t] == Writing {
      assert Is(s, t, Writing);
    }
    OneThreadMoves(s, s', t);
  }

  lemma WUnlockKeeps(s: Latch, s': Latch, t: Thread)
    requires Inv(s) && WUnlockStep(s, s', t)
    ensures Inv(s')
  {
    var modes := s.modes[t := Idle];
    ReadersAfter(s.modes, t, Idle);
    TurnsAfter(s.modes, t, Idle);
    assert Readers(s'.modes) == Readers(modes);
    OneTurn(s, t, t);
    forall u | u in s'.modes ensures !HasTurn(s'.modes[u]) && !Asleep(s'.modes[u]) {
      if u != t {
        OneTurn(s, t, u);
      }
    }
    assert Turns(s'.modes) == {};
  }

  /** A writer that lets go leaves nobody asleep, and nobody was but on the readers' queue. */
  lemma AllAwake(s: Latch, s': Latch, t: Thread)
    requires Inv(s) && WUnlockStep(s, s', t)
    ensures s'.modes.Keys == s.modes.Keys && s'.modes[t] == Idle
    ensures forall u :: u in s'.modes ==> !Asleep(s'.modes[u])
    ensures forall u :: u in s'.modes && u != t && !Asleep(s.modes[u]) ==> s'.modes[u] == s.modes[u]
  {
    forall u | u in s'.modes ensures !Asleep(s'.modes[u]) {
      if u != t {
        OneTurn(s, t, u);
      }
    }
  }

  /** notify_one wakes a member of the queue and moves nobody else. */
  lemma NotifiedOne(queue: Mode -> bool, before: map<Thread, Mode>, after: map<Thread, Mode>)
    returns (woken: set<Thread>)
    requires NotifyOne(queue, before, after)
    requires forall mode :: queue(mode) ==> Asleep(mode)
    ensures |woken| <= 1 && forall t :: t in woken ==> t in before && queue(before[t])
    ensures (exists t :: t in before && queue(before[t])) ==> woken != {}
    ensures after.Keys == before.Keys
    ensures forall t :: t in before ==> after[t] == if t in woken then Woken(before[t]) else before[t]
  {
    if exists t :: t in before && queue(before[t]) {
      var t :| t in before && queue(before[t]) && after == before[t := Woken(before[t])];
      woken := {t};
    } else {
      woken := {};
    }
  }

  /** RUnlock's effect: `t` leaves and the threads of `woken`, at most one, are woken. */
  ghost predicate Leaves(s: Latch, s': Latch, t: Thread, woken: set<Thread>) {
    && Is(s, t, Reading) && |woken| <= 1
    && s'.modes.Keys == s.modes.Keys && s'.modes[t] == Idle
    && (forall v :: v in s.modes && v != t ==> s'.modes[v] == if v in woken then Woken(s.modes[v]) else s.modes[v])
    && (forall v :: v in woken ==> v in s.modes && v != t && Asleep(s.modes[v]))
    && s'.writerEntered == s.writerEntered && s'.readerCount == s.readerCount - 1
  }

  lemma RUnlockLeaves(s: Latch, s': Latch, t: Thread) returns (woken: set<Thread>)
    requires Inv(s) && RUnlockStep(s, s', t)
    ensures Leaves(s, s', t, woken)
    ensures s.writerEntered && s'.readerCount == 0 ==> forall v :: v in woken ==> HasTurn(s.modes[v])
    ensures s.writerEntered && s'.readerCount == 0 && (exists v :: Is(s, v, AwaitsDrain)) ==> woken != {}
    ensures !s.writerEntered && s'.readerCount == MAX_READERS - 1 && (exists v :: Is(s, v, AwaitsRead)) ==> woken != {}
  {
    var modes := s.modes[t := Idle];
    ReaderCounted(s, t);
    if s.writerEntered && s'.readerCount == 0 {
      woken := NotifiedAnyOf(s, t, mode => mode == AwaitsDrain, s'.modes, AwaitsDrain);
    } else if !s.writerEntered && s'.readerCount == MAX_READERS - 1 {
      woken := NotifiedAnyOf(s, t, OnReaderQueue, s'.modes, AwaitsRead);
    } else {
      woken := {};
    }
  }

  lemma NotifiedAnyOf(s: Latch, t: Thread, queue: Mode -> bool, after: map<Thread, Mode>, mode: Mode)
    returns (woken: set<Thread>)
    requires Is(s, t, Reading) && NotifyOne(queue, s.modes[t := Idle], after)
    requires queue(mode) && mode != Reading && forall m :: queue(m) ==> Asleep(m)
    ensures |woken| <= 1 && forall v :: v in woken ==> v in s.modes && v != t && queue(s.modes[v])
    ensures (exists v :: Is(s, v, mode)) ==> woken != {}
    ensures after.Keys == s.modes.Keys && after[t] == Idle
    ensures forall v :: v in s.modes && v != t ==> after[v] == if v in woken then Woken(s.modes[v]) else s.modes[v]
  {
    var modes := s.modes[t := Idle];
    woken := NotifiedOne(queue, modes, after);
    forall v | Is(s, v, mode) ensures woken != {} {
      assert queue(modes[v]);
    }
  }

  lemma CountsAfterLeaving(s: Latch, s': Latch, t: Thread, woken: set<Thread>)
    requires Leaves(s, s', t, woken)
    ensures Readers(s'.modes) == Readers(s.modes) - {t} && t in Readers(s.modes)
    ensures Turns(s'.modes) == Turns(s.modes)
    ensures forall u :: Is(s', u, Writing) ==> Is(s, u, Writing)
  {
  }

  /** The last reader to leave wakes the writer that waits, and leaving a full
      latch wakes the one thread that can be waiting for room. */
  lemma RUnlockKeeps(s: Latch, s': Latch, t: Thread)
    requires Inv(s) && RUnlockStep(s, s', t)
    ensures Inv(s')
  {
    var woken := RUnlockLeaves(s, s', t);
    CountsAfterLeaving(s, s', t, woken);
    forall u | u in s'.modes && (s'.modes[u] != AwaitsRead || FewThreads(s'))
      ensures !Forgotten(s', u)
    {
      RUnlockForgetsNobody(s, s', t, woken, u);
    }
  }

  lemma RUnlockForgetsNobody(s: Latch, s': Latch, t: Thread, woken: set<Thread>, u: Thread)
    requires Inv(s) && Leaves(s, s', t, woken)
    requires s.writerEntered && s'.readerCount == 0 ==> forall v :: v in woken ==> HasTurn(s.modes[v])
    requires s.writerEntered && s'.readerCount == 0 && (exists v :: Is(s, v, AwaitsDrain)) ==> woken != {}
    requires !s.writerEntered && s'.readerCount == MAX_READERS - 1 && (exists v :: Is(s, v, AwaitsRead)) ==> woken != {}
    requires u in s.modes && (s'.modes[u] != AwaitsRead || FewThreads(s'))
    ensures !Forgotten(s', u)
  {
    if Forgotten(s', u) {
      assert u != t && u !in woken && s'.modes[u] == s.modes[u] && !Forgotten(s, u);
      assert Is(s, u, s.modes[u]);
      var w :| w in woken;
      if s.modes[u] == AwaitsDrain {
        OneTurn(s, u, w);
      } else {
        CrowdedOut(s, u, w);
      }
    }
  }

  lemma StepKeeps(s: Latch, s': Latch)
    requires Inv(s) && Step(s, s')
    ensures Inv(s') && s'.modes.Keys == s.modes.Keys
  {
    hide Inv;
    var t :| ThreadStep(s, s', t);
    if WLockStep(s, s', t) {
      WLockKeeps(s, s', t);
    } else if DrainStep(s, s', t) {
      DrainKeeps(s, s', t);
    } else if RLockStep(s, s', t) {
      RLockKeeps(s, s', t);
    } else if WUnlockStep(s, s', t) {
      WUnlockKeeps(s, s', t);
    } else if RUnlockStep(s, s', t) {
      RUnlockKeeps(s, s', t);
      var woken := RUnlockLeaves(s, s', t);
    } else {
      WakingKeeps(s, t);
    }
  }

  lemma {:induction false} RunKeeps(run: seq<Latch>, i: nat)
    requires Run(run) && i < |run|
    ensures Inv(run[i]) && run[i].modes.Keys == run[0].modes.Keys
  {
    if i == 0 {
      InitInv(run[0]);
    } else {
      RunKeeps(run, i - 1);
      StepKeeps(run[i - 1], run[i]);
    }
  }

  // ------------------------------------------------------------ Over runs

  /** Mutual exclusion: two holders are two readers, and the reader count is
      the number of threads that hold the latch for reading. */
  lemma MutualExclusion(run: seq<Latch>, i: nat, t: Thread, u: Thread)
    requires Run(run) && i < |run|
    ensures run[i].readerCount == |Readers(run[i].modes)|
    ensures t != u && Is(run[i], t, Writing) ==> !Is(run[i], u, Writing) && !Is(run[i], u, Reading)
    ensures Is(run[i], t, Writing) ==> run[i].writerEntered
  {
    RunKeeps(run, i);
    if Is(run[i], t, Writing) {
      OneTurn(run[i], t, u);
      if Is(run[i], u, Reading) {
        ReaderCounted(run[i], u);
      }
    }
  }

  /** RUnlock never reaches its failed assertion, and never resets the count. */
  lemma CountNeverWraps(run: seq<Latch>, i: nat, t: Thread)
    requires Run(run) && i < |run| && Is(run[i], t, Reading)
    ensures Decremented(run[i].readerCount) == run[i].readerCount - 1 != MAX_READERS
  {
    RunKeeps(run, i);
    ReaderCounted(run[i], t);
  }

  /** Once a writer has its turn no further reader gets in until it lets go. */
  lemma ReadersOnlyLeave(s: Latch, s': Latch)
    requires Inv(s) && Step(s, s') && s.writerEntered && s'.writerEntered
    ensures Readers(s'.modes) <= Readers(s.modes)
  {
    var t :| ThreadStep(s, s', t);
    if RUnlockStep(s, s', t) {
      var woken := RUnlockLeaves(s, s', t);
      CountsAfterLeaving(s, s', t, woken);
    }
  }

  /** A waiting thread is never alone: somebody holds the latch or is on its way
      to take the mutex, so the latch itself cannot deadlock. */
  lemma NoDeadlock(run: seq<Latch>, i: nat, t: Thread) returns (u: Thread)
    requires Run(run) && i < |run| && FewThreads(run[0])
    requires t in run[i].modes && Asleep(run[i].modes[t])
    ensures u in run[i].modes && run[i].modes[u] != Idle && !Asleep(run[i].modes[u])
  {
    RunKeeps(run, i);
    var s := run[i];
    assert !Forgotten(s, t);
    if s.readerCount > 0 {
      u :| u in Readers(s.modes);
    } else {
      u :| u in Turns(s.modes);
      assert !Forgotten(s, u);
    }
  }

  // -------------------------------------------------------- Lost wakeups

  ghost predicate Reaches(threads: set<Thread>, s: Latch) {
    exists run: seq<Latch> :: Run(run) && run[0].modes.Keys == threads && run[|run| - 1] == s
  }

  lemma OneStepFurther(threads: set<Thread>, s: Latch, s': Latch, t: Thread)
    requires Reaches(threads, s) && ThreadStep(s, s', t)
    ensures Reaches(threads, s')
  {
    var run: seq<Latch> :| Run(run) && run[0].modes.Keys == threads && run[|run| - 1] == s;
    var longer := run + [s'];
    assert Step(s, s');
    assert forall i :: 0 < i < |longer| ==> Step(longer[i - 1], longer[i]) by {
      forall i | 0 < i < |longer| ensures Step(longer[i - 1], longer[i]) {
        assert longer[i - 1] == run[i - 1];
        assert i < |run| ==> longer[i] == run[i];
      }
    }
    assert Run(longer) && longer[|longer| - 1] == s';
  }

  function Crowd(threads: set<Thread>, readers: set<Thread>): Latch {
    Latch(map t | t in threads :: if t in readers then Reading else Idle, |readers|, false)
  }

  /** Any threads, as many as the count allows, can come to read together. */
  lemma {:induction false} CrowdReached(threads: set<Thread>, readers: set<Thread>)
    requires readers <= threads && |readers| <= MAX_READERS
    ensures Reaches(threads, Crowd(threads, readers))
    decreases |readers|
  {
    if readers == {} {
      var run := [Crowd(threads, {})];
      assert Run(run) && run[0].modes.Keys == threads;
    } else {
      var t :| t in readers;
      CrowdReached(threads, readers - {t});
      OneStepFurther(threads, Crowd(threads, readers - {t}), Crowd(threads, readers), t);
    }
  }

  lemma {:induction false} SomeSubset(threads: set<Thread>, size: nat) returns (part: set<Thread>)
    requires size <= |threads|
    ensures part <= threads && |part| == size
  {
    if size == |threads| {
      part := threads;
    } else {
      var t :| t in threads;
      part := SomeSubset(threads - {t}, size);
    }
  }

  /** With two threads more than readers fit, a thread can sleep un-notified with
      room for it: two sleep while the latch is full, and one leaving reader
      wakes only one of them. */
  lemma TooManyThreads(threads: set<Thread>) returns (s: Latch, t: Thread)
    requires |threads| >= MAX_READERS + 2
    ensures Reaches(threads, s) && Forgotten(s, t)
  {
    var readers := SomeSubset(threads, MAX_READERS);
    assert |threads - readers| >= 2;
    var first :| first in threads - readers;
    assert |threads - readers - {first}| >= 1;
    var second :| second in threads - readers - {first};
    var leaver :| leaver in readers;
    CrowdReached(threads, readers);
    s := OneIsForgotten(threads, Crowd(threads, readers), first, second, leaver);
    t := second;
  }

  lemma OneIsForgotten(threads: set<Thread>, full: Latch, first: Thread, second: Thread, leaver: Thread)
    returns (s: Latch)
    requires Reaches(threads, full) && full.readerCount == MAX_READERS && !full.writerEntered
    requires first != second && Is(full, first, Idle) && Is(full, second, Idle) && Is(full, leaver, Reading)
    ensures Reaches(threads, s) && Forgotten(s, second)
  {
    var one := full.(modes := full.modes[first := AwaitsRead]);
    assert RLockStep(full, one, first);
    OneStepFurther(threads, full, one, first);
    var two := one.(modes := one.modes[second := AwaitsRead]);
    assert RLockStep(one, two, second);
    OneStepFurther(threads, one, two, second);
    var modes := two.modes[leaver := Idle];
    s := Latch(modes[first := Woken(modes[first])], MAX_READERS - 1, false);
    assert OnReaderQueue(modes[first]);
    assert NotifyOne(OnReaderQueue, modes, s.modes);
    assert RUnlockStep(two, s, leaver);
    OneStepFurther(threads, two, s, leaver);
  }

  /** No thread ever sleeps un-notified with its loop test false, exactly when
      there are at most MAX_READERS + 1 threads. */
  lemma LostWakeupIff(threads: set<Thread>)
    ensures (exists s, t :: Reaches(threads, s) && Forgotten(s, t)) <==> |threads| >= MAX_READERS + 2
  {
    if |threads| >= MAX_READERS + 2 {
      var s, t := TooManyThreads(threads);
    }
    forall s, t | Reaches(threads, s) && Forgotten(s, t) ensures |threads| >= MAX_READERS + 2 {
      var run: seq<Latch> :| Run(run) && run[0].modes.Keys == threads && run[|run| - 1] == s;
      RunKeeps(run, |run| - 1);
    }
  }
}

/** The latch object itself.  A lock method is one pass of its wait loop: it ends
    in the lock or in a wait, and the thread calls it again when it wakes. */
module ReaderWriterLatches {
  import opened Basics
  import opened LatchProtocol

  class ReaderWriterLatch {
    var readerCount: nat
    var writerEntered: bool
    ghost var modes: map<Thread, Mode>

    ghost function State(): Latch
      reads this
    {
      Latch(modes, readerCount, writerEntered)
    }

    constructor (ghost threads: set<Thread>)
      ensures Init(State()) && Inv(State()) && modes.Keys == threads
    {
      readerCount := 0;
      writerEntered := false;
      modes := map t | t in threads :: Idle;
      new;
      InitInv(State());
    }

    method WLock(t: Thread) returns (waits: bool)
      requires Inv(State()) && (Is(State(), t, Idle) || Is(State(), t, TurnNotified))
      modifies this
      ensures WLockStep(old(State()), State(), t) && Inv(State())
      ensures waits <==> old(writerEntered) || old(readerCount) > 0
      ensures var mode := if old(writerEntered) then AwaitsTurn else if waits then AwaitsDrain else Writing;
        modes == old(modes)[t := mode]
      ensures writerEntered && readerCount == old(readerCount)
      ensures !waits ==> modes[t] == Writing && readerCount == 0
    {
      ghost var was := State();
      if writerEntered {
        modes := modes[t := AwaitsTurn];
        waits := true;
      } else {
        writerEntered := true;
        waits := readerCount > 0;
        modes := modes[t := if waits then AwaitsDrain else Writing];
      }
      WLockKeeps(was, State(), t);
    }

    /** WLock's second loop, after writer_.wait has returned. */
    method Drain(t: Thread) returns (waits: bool)
      requires Inv(State()) && Is(State(), t, DrainNotified)
      modifies this
      ensures DrainStep(old(State()), State(), t) && Inv(State())
      ensures waits <==> readerCount > 0
      ensures modes == old(modes)[t := if waits then AwaitsDrain else Writing]
      ensures writerEntered == old(writerEntered) && readerCount == old(readerCount)
      ensures !waits ==> modes[t] == Writing && readerCount == 0
    {
      ghost var was := State();
      waits := readerCount > 0;
      modes := modes[t := if waits then AwaitsDrain else Writing];
      DrainKeeps(was, State(), t);
    }

    method WUnlock(t: Thread)
      requires Inv(State()) && Is(State(), t, Writing)
      modifies this
      ensures WUnlockStep(old(State()), State(), t) && Inv(State())
      ensures !writerEntered && readerCount == old(readerCount) && modes[t] == Idle && modes.Keys == old(modes.Keys)
      ensures forall u :: u in modes && u != t && !Asleep(old(modes)[u]) ==> modes[u] == old(modes)[u]
      ensures forall u :: u in modes ==> !Asleep(modes[u])
    {
      hide Inv, Asleep, Woken;
      ghost var was := State();
      writerEntered := false;
      modes := NotifyAll(modes[t := Idle]);
      WUnlockKeeps(was, State(), t);
      AllAwake(was, State(), t);
    }

    method RLock(t: Thread) returns (waits: bool)
      requires Inv(State()) && (Is(State(), t, Idle) || Is(State(), t, ReadNotified))
      modifies this
      ensures RLockStep(old(State()), State(), t) && Inv(State())
      ensures waits <==> old(writerEntered) || old(readerCount) == MAX_READERS
      ensures modes == old(modes)[t := if waits then AwaitsRead else Reading]
      ensures writerEntered == old(writerEntered) && readerCount == old(readerCount) + if waits then 0 else 1
      ensures !waits ==> modes[t] == Reading && !writerEntered
    {
      ghost var was := State();
      if writerEntered || readerCount == MAX_READERS {
        modes := modes[t := AwaitsRead];
        waits := true;
      } else {
        readerCount := readerCount + 1;
        modes := modes[t := Reading];
        waits := false;
      }
      RLockKeeps(was, State(), t);
    }

    method RUnlock(t: Thread)
      requires Inv(State()) && Is(State(), t, Reading)
      modifies this
      ensures RUnlockStep(old(State()), State(), t) && Inv(State())
      ensures readerCount == old(readerCount) - 1 && writerEntered == old(writerEntered) && modes[t] == Idle
      ensures (if writerEntered then readerCount > 0 else readerCount < MAX_READERS - 1) ==>
        modes == old(modes)[t := Idle]
    {
      hide Woken, Readers, Turns, HasTurn;
      ghost var was := State();
      ReaderCounted(was, t);
      readerCount := Decremented(readerCount);
      if readerCount == MAX_READERS {
        assert false;
      }
      modes := modes[t := Idle];
      if writerEntered {
        if readerCount == 0 {
          NotifyOneOf(mode => mode == AwaitsDrain);
        }
      } else {
        if readerCount == MAX_READERS - 1 {
          NotifyOneOf(OnReaderQueue);
        }
      }
      RUnlockKeeps(was, State(), t);
    }

    /** notify_one on the condition variable whose sleepers satisfy `queue`. */
    ghost method NotifyOneOf(queue: Mode -> bool)
      modifies this`modes
      ensures NotifyOne(queue, old(modes), modes)
    {
      if exists t :: t in modes && queue(modes[t]) {
        var t :| t in modes && queue(modes[t]);
        modes := modes[t := Woken(modes[t])];
      }
    }
  }
}
