/** util/ThreadPool.hpp: a task queue under a mutex and a condition variable, as a step system.
    Any number of producers and workers; every interleaving is a sequence of steps. */
module ThreadPool {
  import opened Text

  /** Where a worker is in `pop`. */
  datatype Worker =
    | Handling   // outside the queue, running the handler
    | Checking   // holds the mutex, about to test the predicate
    | Asleep     // in `wait`, not notified
    | Notified   // chosen by `notify_one`, has not resumed yet
    | Awake      // woken spuriously, has not resumed yet

  /** Where a producer is in `push` or `emplace`. */
  datatype Producer<T> = Idle | Pushing(task: T) | Notifying | Unlocking

  datatype Holder = Nobody | AWorker(w: nat) | AProducer(p: nat)

  /** `pushed` and `popped` record the whole history. */
  datatype State<T> = State(queue: seq<T>, lock: Holder, workers: seq<Worker>, producers: seq<Producer<T>>,
                            pushed: seq<T>, popped: seq<T>)

  datatype Step<T> =
    | Lock(p: nat, task: T)
    | Push(p: nat)
    | Notify(p: nat, w: nat)       // `w`: the sleeper that is woken
    | NotifyNobody(p: nat)
    | Unlock(p: nat)
    | Acquire(w: nat)              // enter `pop`, or resume after a wakeup
    | Check(w: nat)                // the predicate, then either pop and unlock, or sleep and unlock
    | Spurious(w: nat)

  ghost predicate Enabled<T>(s: State<T>, step: Step<T>) {
    match step
    case Lock(p, _) => p < |s.producers| && s.producers[p].Idle? && s.lock.Nobody?
    case Push(p) => p < |s.producers| && s.producers[p].Pushing?
    case Notify(p, w) =>
      p < |s.producers| && s.producers[p].Notifying? && w < |s.workers| && s.workers[w].Asleep?
    case NotifyNobody(p) =>
      p < |s.producers| && s.producers[p].Notifying? && Asleep !in s.workers
    case Unlock(p) => p < |s.producers| && s.producers[p].Unlocking?
    case Acquire(w) =>
      w < |s.workers| && s.lock.Nobody?
      && (s.workers[w].Handling? || s.workers[w].Notified? || s.workers[w].Awake?)
    case Check(w) => w < |s.workers| && s.workers[w].Checking?
    case Spurious(w) => w < |s.workers| && s.workers[w].Asleep?
  }

  ghost function Next<T>(s: State<T>, step: Step<T>): State<T>
    requires Enabled(s, step)
  {
    match step
    case Lock(p, task) => s.(lock := AProducer(p), producers := s.producers[p := Pushing(task)])
    case Push(p) =>
      var task := s.producers[p].task;
      s.(queue := s.queue + [task], pushed := s.pushed + [task], producers := s.producers[p := Notifying])
    case Notify(p, w) => s.(workers := s.workers[w := Notified], producers := s.producers[p := Unlocking])
    case NotifyNobody(p) => s.(producers := s.producers[p := Unlocking])
    case Unlock(p) => s.(lock := Nobody, producers := s.producers[p := Idle])
    case Acquire(w) => s.(lock := AWorker(w), workers := s.workers[w := Checking])
    case Check(w) =>
      if s.queue == [] then s.(lock := Nobody, workers := s.workers[w := Asleep])
      else s.(lock := Nobody, workers := s.workers[w := Handling],
              queue := s.queue[1..], popped := s.popped + [s.queue[0]])
    case Spurious(w) => s.(workers := s.workers[w := Awake])
  }

  ghost function Init<T>(threads: nat, producers: nat): State<T> {
    State([], Nobody, seq(threads, _ => Handling), seq(producers, _ => Idle), [], [])
  }

  /** The state after a sequence of steps, each enabled when it is taken. */
  ghost function Run<T>(s: State<T>, steps: seq<Step<T>>): Option<State<T>> {
    if steps == [] then Some(s)
    else
      var s' := Run(s, steps[..|steps| - 1]);
      if s'.Some? && Enabled(s'.value, steps[|steps| - 1])
      then Some(Next(s'.value, steps[|steps| - 1])) else None
  }

  // ----- The invariant -----

  ghost function NotifiedCount(ws: seq<Worker>): nat {
    if ws == [] then 0
    else NotifiedCount(ws[..|ws| - 1]) + if ws[|ws| - 1].Notified? then 1 else 0
  }

  lemma {:induction false} CountUpdate(ws: seq<Worker>, w: nat, c: Worker)
    requires w < |ws|
    ensures NotifiedCount(ws[w := c]) ==
            NotifiedCount(ws) - (if ws[w].Notified? then 1 else 0) + (if c.Notified? then 1 else 0)
  {
    var n := |ws| - 1;
    if w < n {
      CountUpdate(ws[..n], w, c);
      assert ws[w := c][..n] == ws[..n][w := c];
    } else {
      assert ws[w := c][..n] == ws[..n];
    }
  }

  /** At most one thread is inside the mutex. */
  ghost predicate MutualExclusion<T>(s: State<T>) {
    && (forall w | 0 <= w < |s.workers| :: s.workers[w].Checking? <==> s.lock == AWorker(w))
    && (forall p | 0 <= p < |s.producers| :: !s.producers[p].Idle? <==> s.lock == AProducer(p))
    && (s.lock.AWorker? ==> s.lock.w < |s.workers|)
    && (s.lock.AProducer? ==> s.lock.p < |s.producers|)
  }

  /** A task whose wakeup is still owed by the thread inside the mutex. */
  ghost function Pending<T>(s: State<T>): nat {
    if s.lock.AWorker? || (s.lock.AProducer? && s.lock.p < |s.producers| && s.producers[s.lock.p].Notifying?)
    then 1 else 0
  }

  /** While some worker sleeps, each queued task has a worker on its way to it. */
  ghost predicate NoLostWakeup<T>(s: State<T>) {
    Asleep in s.workers ==> |s.queue| <= NotifiedCount(s.workers) + Pending(s)
  }

  /** First in, first out; nothing is lost, repeated or invented. */
  ghost predicate Fifo<T>(s: State<T>) {
    s.pushed == s.popped + s.queue
  }

  ghost predicate Inv<T>(s: State<T>) {
    MutualExclusion(s) && NoLostWakeup(s) && Fifo(s)
  }

  lemma WakeupStep<T>(s: State<T>, step: Step<T>)
    requires MutualExclusion(s) && NoLostWakeup(s) && Enabled(s, step)
    ensures NoLostWakeup(Next(s, step))
  {
    hide NotifiedCount;
    match step
    case Notify(_, w) => CountUpdate(s.workers, w, Notified);
    case Acquire(w) => CountUpdate(s.workers, w, Checking);
    case Check(w) => CountUpdate(s.workers, w, Next(s, step).workers[w]);
    case Spurious(w) => CountUpdate(s.workers, w, Awake);
    case _ =>
  }

  lemma InvStep<T>(s: State<T>, step: Step<T>)
    requires Inv(s) && Enabled(s, step)
    ensures Inv(Next(s, step))
  {
    WakeupStep(s, step);
    hide NoLostWakeup;
    if step.Check? && s.queue != [] {
      assert s.queue == [s.queue[0]] + s.queue[1..];
    }
  }

  lemma InitInv<T>(threads: nat, producers: nat)
    ensures var s := Init<T>(threads, producers);
            Inv(s) && |s.workers| == threads && |s.producers| == producers
  {
  }

  lemma SizesStep<T>(s: State<T>, step: Step<T>)
    requires Enabled(s, step)
    ensures |Next(s, step).workers| == |s.workers| && |Next(s, step).producers| == |s.producers|
  {
  }

  /** The theorem: over every interleaving, from any number of threads, no wakeup is lost, the
      mutex is exclusive, and tasks leave the queue at most once and in the order pushed. */
  lemma {:induction false} EveryInterleaving<T>(threads: nat, producers: nat, steps: seq<Step<T>>)
    requires Run(Init(threads, producers), steps).Some?
    ensures var s := Run(Init(threads, producers), steps).value;
            && Inv(s) && |s.workers| == threads && |s.producers| == producers
            && s.popped <= s.pushed
            && (s.lock.Nobody? && Asleep in s.workers ==> |s.queue| <= NotifiedCount(s.workers))
  {
    if steps == [] {
      InitInv<T>(threads, producers);
    } else {
      EveryInterleaving(threads, producers, steps[..|steps| - 1]);
      var s := Run(Init<T>(threads, producers), steps[..|steps| - 1]).value;
      InvStep(s, steps[|steps| - 1]);
      SizesStep(s, steps[|steps| - 1]);
    }
    hide Init, Next, Enabled, Run;
  }

  // ----- The history, told from the steps alone -----

  /** The task a producer has come with and not pushed yet. */
  ghost function Carried<T>(steps: seq<Step<T>>, p: nat): Option<T> {
    if steps == [] then None
    else
      match steps[|steps| - 1]
      case Lock(q, task) => if q == p then Some(task) else Carried(steps[..|steps| - 1], p)
      case Push(q) => if q == p then None else Carried(steps[..|steps| - 1], p)
      case _ => Carried(steps[..|steps| - 1], p)
  }

  /** The tasks of the calls whose push has happened, in the order of the pushes. */
  ghost function Given<T>(steps: seq<Step<T>>): seq<T> {
    if steps == [] then []
    else
      var init, last := steps[..|steps| - 1], steps[|steps| - 1];
      if last.Push? && Carried(init, last.p).Some? then Given(init) + [Carried(init, last.p).value] else Given(init)
  }

  /** How many tasks workers have taken. */
  ghost function Taken<T>(start: State<T>, steps: seq<Step<T>>): nat {
    if steps == [] then 0
    else
      var init, last := steps[..|steps| - 1], steps[|steps| - 1];
      Taken(start, init)
      + if last.Check? && Run(start, init).Some? && Run(start, init).value.queue != [] then 1 else 0
  }

  ghost predicate CarriedRight<T>(s: State<T>, steps: seq<Step<T>>) {
    forall p | 0 <= p < |s.producers| ::
      Carried(steps, p) == if s.producers[p].Pushing? then Some(s.producers[p].task) else None
  }

  /** Over every interleaving: what has been popped and what is queued are, in this order, exactly the
      tasks pushed; the popped ones are as many as were taken. */
  lemma {:induction false} NothingIsLost<T>(threads: nat, producers: nat, steps: seq<Step<T>>)
    requires Run(Init(threads, producers), steps).Some?
    ensures var s := Run(Init(threads, producers), steps).value;
            && CarriedRight(s, steps) && s.popped + s.queue == Given(steps)
            && |s.popped| == Taken(Init(threads, producers), steps)
    decreases |steps|
  {
    if steps == [] {
      NothingYet<T>(threads, producers);
    } else {
      var init, step := steps[..|steps| - 1], steps[|steps| - 1];
      NothingIsLost(threads, producers, init);
      GivenStep(Run(Init<T>(threads, producers), init).value, init, step);
      assert steps == init + [step];
    }
    hide Init, Next, Enabled, CarriedRight, Given;
  }

  lemma NothingYet<T>(threads: nat, producers: nat)
    ensures var s := Init<T>(threads, producers); CarriedRight(s, []) && s.popped == s.queue == Given([])
  {
  }

  lemma GivenStep<T>(s: State<T>, init: seq<Step<T>>, step: Step<T>)
    requires Enabled(s, step) && CarriedRight(s, init) && s.popped + s.queue == Given(init)
    ensures var s' := Next(s, step);
            && CarriedRight(s', init + [step]) && s'.popped + s'.queue == Given(init + [step])
            && |s'.popped| == |s.popped| + if step.Check? && s.queue != [] then 1 else 0
  {
    CarriedStep(s, init, step);
    QueueSteps(s, step);
    hide Next, Enabled, CarriedRight;
    assert (init + [step])[..|init|] == init;
    if step.Check? && s.queue != [] {
      assert s.queue == [s.queue[0]] + s.queue[1..];
    }
  }

  lemma CarriedStep<T>(s: State<T>, init: seq<Step<T>>, step: Step<T>)
    requires Enabled(s, step) && CarriedRight(s, init)
    ensures CarriedRight(Next(s, step), init + [step])
    ensures step.Push? ==> Carried(init, step.p) == Some(s.producers[step.p].task)
  {
    assert (init + [step])[..|init|] == init;
  }

  /** What the two steps that touch the queue do to it. */
  lemma QueueSteps<T>(s: State<T>, step: Step<T>)
    requires Enabled(s, step)
    ensures step.Push? ==> Next(s, step).queue == s.queue + [s.producers[step.p].task]
    ensures step.Check? && s.queue != [] ==>
              Next(s, step).queue == s.queue[1..] && Next(s, step).popped == s.popped + [s.queue[0]]
    ensures !step.Push? && !(step.Check? && s.queue != []) ==>
              Next(s, step).queue == s.queue && Next(s, step).popped == s.popped
  {
  }

  /** No thread is held up but by the mutex and the wait: whoever is outside may come in when it is
      free, whoever is inside may go on, and a sleeper may always wake, unasked. */
  lemma ThreadsMayGoOn<T>(s: State<T>, task: T)
    requires MutualExclusion(s)
    ensures forall p | 0 <= p < |s.producers| && s.producers[p].Idle? && s.lock.Nobody? :: Enabled(s, Lock(p, task))
    ensures forall p | 0 <= p < |s.producers| && s.producers[p].Pushing? :: Enabled(s, Push(p))
    ensures forall p | 0 <= p < |s.producers| && s.producers[p].Notifying? ::
              Enabled(s, NotifyNobody(p)) || exists w: nat :: Enabled(s, Notify(p, w))
    ensures forall p | 0 <= p < |s.producers| && s.producers[p].Unlocking? :: Enabled(s, Unlock(p))
    ensures forall w | 0 <= w < |s.workers| ::
              match s.workers[w]
              case Checking => Enabled(s, Check(w))
              case Asleep => Enabled(s, Spurious(w))
              case _ => s.lock.Nobody? ==> Enabled(s, Acquire(w))
  {
    forall p | 0 <= p < |s.producers| && s.producers[p].Notifying?
      ensures Enabled(s, NotifyNobody(p)) || exists w: nat :: Enabled(s, Notify(p, w))
    {
      if Asleep in s.workers {
        var w :| 0 <= w < |s.workers| && s.workers[w].Asleep?;
        assert Enabled(s, Notify(p, w));
      }
    }
  }

  lemma {:induction false} SomeNotified(ws: seq<Worker>)
    requires NotifiedCount(ws) > 0
    ensures Notified in ws
  {
    if !ws[|ws| - 1].Notified? {
      SomeNotified(ws[..|ws| - 1]);
    }
  }

  /** Consequence: a queued task is never stranded.  From every reachable state with a queued task
      and at least one worker thread, a few steps of the threads take the oldest task out. */
  lemma NeverStranded<T>(s: State<T>) returns (steps: seq<Step<T>>)
    requires Inv(s) && s.queue != [] && s.workers != []
    ensures |steps| <= 5 && Run(s, steps).Some?
    ensures Run(s, steps).value.popped == s.popped + [s.queue[0]]
  {
    hide NotifiedCount;
    match s.lock
    case AWorker(w) =>
      steps := [Check(w)];
      Prefix(s, [], Check(w));
    case Nobody =>
      steps := FromUnlocked(s);
    case AProducer(p) =>
      steps := FromProducer(s, p);
  }

  lemma Prefix<T>(s: State<T>, steps: seq<Step<T>>, step: Step<T>)
    ensures Run(s, steps + [step]) ==
            if Run(s, steps).Some? && Enabled(Run(s, steps).value, step)
            then Some(Next(Run(s, steps).value, step)) else None
  {
    assert (steps + [step])[..|steps|] == steps;
  }

  lemma {:induction false} RunConcat<T>(s: State<T>, a: seq<Step<T>>, b: seq<Step<T>>)
    requires Run(s, a).Some?
    ensures Run(s, a + b) == Run(Run(s, a).value, b)
  {
    if b == [] {
      assert a + b == a;
    } else {
      var n := |b| - 1;
      RunConcat(s, a, b[..n]);
      assert a + b == (a + b[..n]) + [b[n]] && b == b[..n] + [b[n]];
      Prefix(s, a + b[..n], b[n]);
      Prefix(Run(s, a).value, b[..n], b[n]);
    }
  }

  lemma FromUnlocked<T>(s: State<T>) returns (steps: seq<Step<T>>)
    requires Inv(s) && s.queue != [] && s.workers != [] && s.lock.Nobody?
    ensures |steps| == 2 && Run(s, steps).Some?
    ensures Run(s, steps).value.popped == s.popped + [s.queue[0]]
  {
    if Asleep in s.workers {
      SomeNotified(s.workers);
    }
    hide NotifiedCount;
    assert s.workers[0] in s.workers;
    var w :| 0 <= w < |s.workers| && !s.workers[w].Asleep? && !s.workers[w].Checking?;
    var first: seq<Step<T>> := [Acquire(w)];
    assert first == [] + [Acquire(w)];
    Prefix(s, [], Acquire(w));
    Prefix(s, first, Check(w));
    steps := first + [Check(w)];
  }

  /** A producer inside the mutex can finish, and then a worker can take over. */
  lemma FromProducer<T>(s: State<T>, p: nat) returns (steps: seq<Step<T>>)
    requires Inv(s) && s.queue != [] && s.workers != [] && s.lock == AProducer(p)
    ensures |steps| <= 3 + StepsLeft(s, p) && Run(s, steps).Some?
    ensures Run(s, steps).value.popped == s.popped + [s.queue[0]]
    decreases StepsLeft(s, p)
  {
    hide NotifiedCount;
    var step := ProducerStep(s, p);
    InvStep(s, step);
    var s', rest := Next(s, step), [];
    if step.Unlock? {
      rest := FromUnlocked(s');
    } else {
      rest := FromProducer(s', p);
    }
    assert [step] == [] + [step];
    Prefix(s, [], step);
    RunConcat(s, [step], rest);
    steps := [step] + rest;
  }

  ghost function StepsLeft<T>(s: State<T>, p: nat): nat {
    if p >= |s.producers| then 0
    else if s.producers[p].Pushing? then 2 else if s.producers[p].Notifying? then 1 else 0
  }

  lemma ProducerStep<T>(s: State<T>, p: nat) returns (step: Step<T>)
    requires Inv(s) && s.lock == AProducer(p)
    ensures Enabled(s, step) && (step.Push? || step.Notify? || step.NotifyNobody? || step.Unlock?) && step.p == p
    ensures step.Unlock? || (Next(s, step).lock == s.lock && StepsLeft(Next(s, step), p) < StepsLeft(s, p))
    ensures s.queue <= Next(s, step).queue && Next(s, step).popped == s.popped
    ensures |Next(s, step).workers| == |s.workers|
  {
    hide NotifiedCount, NoLostWakeup;
    match s.producers[p]
    case Pushing(_) => step := Push(p);
    case Notifying =>
      if Asleep in s.workers {
        var w :| 0 <= w < |s.workers| && s.workers[w].Asleep?;
        step := Notify(p, w);
      } else {
        step := NotifyNobody(p);
      }
    case _ => step := Unlock(p);
  }
}
