/** The scheduler as a step system over any number of CPUs: where every thread is, and what
    launching, marking, switching and unpausing do to that. */
module SchedulerModel {

  import opened Distinctness
  import opened Machine

  /** What the thread on a CPU is about to do at the next switch. */
  datatype Intent = Running | Pausing | Exiting

  /** Where a thread is. An exited thread first waits, on the CPU it left, for the next switch
      there, and is then handed over for freeing; one that was paused when it was told to exit
      is stranded. */
  datatype Place = Ready | Cpu(cpu: nat, intent: Intent) | Paused | Owed(at: nat) | Freed | Stranded

  /** What a CPU runs: nothing yet, its idle thread, or a thread. */
  datatype Slot<T> = Off | Idle | On(thread: T)

  /** `queue`, `slots`, `owed` and `freed` are the scheduler's data; `place` says for every
      thread launched so far where it is. */
  datatype State<T(==)> = State(queue: seq<T>, slots: seq<Slot<T>>, owed: seq<Option<T>>, freed: seq<T>,
    place: map<T, Place>)

  /** The threads in a list are distinct and placed there. */
  ghost predicate Lists<T>(q: seq<T>, place: map<T, Place>, p: Place) {
    Distinct(q) && forall t | t in q :: t in place && place[t] == p
  }

  /** What a CPU runs and owes is placed there. */
  ghost predicate CpuOk<T>(s: State<T>, c: nat) {
    && c < |s.slots| && c < |s.owed|
    && (s.slots[c].On? ==> var t := s.slots[c].thread; t in s.place && s.place[t].Cpu? && s.place[t].cpu == c)
    && (s.owed[c].Some? ==> !s.slots[c].Off? && s.owed[c].value in s.place && s.place[s.owed[c].value] == Owed(c))
  }

  /** A thread can be found where it is placed. */
  ghost predicate ThreadOk<T>(s: State<T>, t: T) {
    t in s.place &&
    match s.place[t]
    case Ready => t in s.queue
    case Cpu(c, _) => c < |s.slots| && s.slots[c] == On(t)
    case Paused => true
    case Owed(c) => c < |s.owed| && s.owed[c] == Some(t)
    case Freed => t in s.freed
    case Stranded => true
  }

  ghost predicate Inv<T>(s: State<T>) {
    && |s.owed| == |s.slots| && Lists(s.queue, s.place, Ready) && Lists(s.freed, s.place, Freed)
    && (forall c {:trigger CpuOk(s, c)} | 0 <= c < |s.slots| :: CpuOk(s, c))
    && (forall t {:trigger ThreadOk(s, t)} | t in s.place :: ThreadOk(s, t))
  }

  /** The state at start-up on `n` CPUs: no thread, nothing running. */
  ghost function Boot<T>(n: nat): State<T> {
    State([], seq(n, _ => Off), seq(n, _ => None), [], map[])
  }

  lemma BootInv<T>(n: nat)
    ensures Inv(Boot<T>(n))
  {
  }

  // ---------------------------------------------------------------- steps

  ghost function Enqueue<T>(s: State<T>, t: T): State<T> {
    s.(queue := s.queue + [t], place := s.place[t := Ready])
  }

  /** The thread on CPU `c` declares what it will do: `scheduler_pause_thread`, `scheduler_exit_thread`. */
  ghost function Mark<T>(s: State<T>, c: nat, intent: Intent): State<T>
    requires c < |s.slots| && s.slots[c].On?
  {
    s.(place := s.place[s.slots[c].thread := Cpu(c, intent)])
  }

  /** A paused thread is told to exit. */
  ghost function Strand<T>(s: State<T>, t: T): State<T> {
    s.(place := s.place[t := Stranded])
  }

  /** The first part of a switch: free the thread this CPU owes. */
  ghost function Reap<T>(s: State<T>, c: nat): State<T>
    requires c < |s.owed|
  {
    match s.owed[c]
    case None => s
    case Some(t) => s.(owed := s.owed[c := None], freed := s.freed + [t], place := s.place[t := Freed])
  }

  /** The second part: the thread on the CPU goes where it declared. */
  ghost function Part<T>(s: State<T>, c: nat): State<T>
    requires CpuOk(s, c)
  {
    match s.slots[c]
    case On(t) =>
      var left := s.(slots := s.slots[c := Idle]);
      (match s.place[t].intent
       case Running => Enqueue(left, t)
       case Pausing => left.(place := s.place[t := Paused])
       case Exiting => left.(place := s.place[t := Owed(c)], owed := s.owed[c := Some(t)]))
    case Off => s
    case Idle => s
  }

  /** The last part: the first thread of the queue starts, if there is one. */
  ghost function Take<T>(s: State<T>, c: nat): State<T>
    requires c < |s.slots|
  {
    if s.queue == [] then s
    else
      var t := s.queue[0];
      s.(queue := s.queue[1..], slots := s.slots[c := On(t)], place := s.place[t := Cpu(c, Running)])
  }

  /** `scheduler_handler` on CPU `c`. */
  ghost function Switch<T>(s: State<T>, c: nat): State<T>
    requires Inv(s) && c < |s.slots|
  {
    ReapKeepsInv(s, c);
    Take(Part(Reap(s, c), c), c)
  }

  /** Threads whose `is_pausing` flag is set. */
  ghost predicate Pending<T>(s: State<T>, t: T) {
    t in s.place && match s.place[t] case Ready => false case Cpu(_, intent) => intent != Running case _ => true
  }

  // ---------------------------------------------------------------- what the steps keep

  lemma EnqueueKeepsInv<T>(s: State<T>, t: T)
    requires Inv(s) && (t !in s.place || s.place[t] == Paused)
    ensures Inv(Enqueue(s, t))
  {
    var s' := Enqueue(s, t);
    assert t !in s.queue && t !in s.freed;
    DistinctPush(s.queue, t);
    forall c | 0 <= c < |s'.slots| ensures CpuOk(s', c) { assert CpuOk(s, c); }
    forall u | u in s'.place ensures ThreadOk(s', u) { assert u != t ==> ThreadOk(s, u); }
  }

  lemma MarkKeepsInv<T>(s: State<T>, c: nat, intent: Intent)
    requires Inv(s) && c < |s.slots| && s.slots[c].On?
    ensures Inv(Mark(s, c, intent))
  {
    var s', t := Mark(s, c, intent), s.slots[c].thread;
    assert CpuOk(s, c);
    forall d | 0 <= d < |s'.slots| ensures CpuOk(s', d) { assert CpuOk(s, d); }
    forall u | u in s'.place ensures ThreadOk(s', u) { assert ThreadOk(s, u); }
  }

  lemma StrandKeepsInv<T>(s: State<T>, t: T)
    requires Inv(s) && t in s.place && s.place[t] == Paused
    ensures Inv(Strand(s, t))
  {
    var s' := Strand(s, t);
    assert t !in s.queue && t !in s.freed;
    forall c | 0 <= c < |s'.slots| ensures CpuOk(s', c) { assert CpuOk(s, c); }
    forall u | u in s'.place ensures ThreadOk(s', u) { assert ThreadOk(s, u); }
  }

  lemma ReapKeepsInv<T>(s: State<T>, c: nat)
    requires Inv(s) && c < |s.slots|
    ensures Inv(Reap(s, c)) && Reap(s, c).slots == s.slots && Reap(s, c).owed[c].None? && CpuOk(Reap(s, c), c)
  {
    assert CpuOk(s, c);
    if s.owed[c].Some? {
      var s', t := Reap(s, c), s.owed[c].value;
      assert t !in s.queue && t !in s.freed;
      DistinctPush(s.freed, t);
      forall d | 0 <= d < |s'.slots| ensures CpuOk(s', d) { assert CpuOk(s, d); }
      forall u | u in s'.place ensures ThreadOk(s', u) { assert ThreadOk(s, u); }
    }
    assert CpuOk(Reap(s, c), c);
  }

  lemma PauseKeepsInv<T>(s: State<T>, c: nat, t: T)
    requires Inv(s) && c < |s.slots| && s.owed[c].None? && s.slots[c] == On(t)
    ensures Inv(s.(slots := s.slots[c := Idle], place := s.place[t := Paused]))
  {
    var s' := s.(slots := s.slots[c := Idle], place := s.place[t := Paused]);
    assert CpuOk(s, c) && t !in s.queue && t !in s.freed;
    forall d | 0 <= d < |s'.slots| ensures CpuOk(s', d) { assert CpuOk(s, d); }
    forall u | u in s'.place ensures ThreadOk(s', u) { assert ThreadOk(s, u); }
  }

  lemma ExitKeepsInv<T>(s: State<T>, c: nat, t: T)
    requires Inv(s) && c < |s.slots| && s.owed[c].None? && s.slots[c] == On(t)
    ensures Inv(s.(slots := s.slots[c := Idle], place := s.place[t := Owed(c)], owed := s.owed[c := Some(t)]))
  {
    var s' := s.(slots := s.slots[c := Idle], place := s.place[t := Owed(c)], owed := s.owed[c := Some(t)]);
    assert CpuOk(s, c) && t !in s.queue && t !in s.freed;
    forall d | 0 <= d < |s'.slots| ensures CpuOk(s', d) { assert CpuOk(s, d); }
    forall u | u in s'.place ensures ThreadOk(s', u) { assert ThreadOk(s, u); }
  }

  lemma RequeueKeepsInv<T>(s: State<T>, c: nat, t: T)
    requires Inv(s) && c < |s.slots| && s.owed[c].None? && s.slots[c] == On(t)
    ensures Inv(Enqueue(s.(slots := s.slots[c := Idle]), t))
  {
    PauseKeepsInv(s, c, t);
    var paused := s.(slots := s.slots[c := Idle], place := s.place[t := Paused]);
    EnqueueKeepsInv(paused, t);
    assert Enqueue(paused, t) == Enqueue(s.(slots := s.slots[c := Idle]), t);
  }

  lemma PartKeepsInv<T>(s: State<T>, c: nat)
    requires Inv(s) && c < |s.slots| && s.owed[c].None?
    ensures CpuOk(s, c) && Inv(Part(s, c)) && !Part(s, c).slots[c].On? && |Part(s, c).slots| == |s.slots|
  {
    assert CpuOk(s, c);
    match s.slots[c]
    case Off =>
    case Idle =>
    case On(t) =>
      PauseKeepsInv(s, c, t);
      ExitKeepsInv(s, c, t);
      RequeueKeepsInv(s, c, t);
  }

  lemma TakeKeepsInv<T>(s: State<T>, c: nat)
    requires Inv(s) && c < |s.slots| && !s.slots[c].On?
    ensures Inv(Take(s, c))
  {
    if s.queue != [] {
      var s', t := Take(s, c), s.queue[0];
      DistinctDrop(s.queue, 0);
      assert Without(s.queue, 0) == s'.queue;
      assert s.queue == [t] + s'.queue && t !in s.freed;
      forall d | 0 <= d < |s'.slots| ensures CpuOk(s', d) { assert CpuOk(s, d); }
      forall u | u in s'.place ensures ThreadOk(s', u) { assert ThreadOk(s, u); }
    }
  }

  lemma SwitchKeepsInv<T>(s: State<T>, c: nat)
    requires Inv(s) && c < |s.slots|
    ensures Inv(Switch(s, c))
  {
    ReapKeepsInv(s, c);
    PartKeepsInv(Reap(s, c), c);
    TakeKeepsInv(Part(Reap(s, c), c), c);
  }

  // ---------------------------------------------------------------- runs

  datatype Step<T> = Launch(thread: T) | Declare(cpu: nat, intent: Intent) | SwitchOn(cpu: nat) | Unpause(thread: T)
                   | ExitPaused(thread: T)

  /** Threads are launched once; the thread on a CPU exits, or pauses unless it already pauses or
      exits; only a paused thread that has left its CPU is unpaused, or told to exit by another. A
      switch may come at any time. */
  ghost predicate Legal<T>(s: State<T>, step: Step<T>) {
    match step
    case Launch(t) => t !in s.place
    case Declare(c, intent) => c < |s.slots| && s.slots[c].On? && intent != Running &&
                               (intent == Pausing ==> !Pending(s, s.slots[c].thread))
    case SwitchOn(c) => c < |s.slots|
    case Unpause(t) => t in s.place && s.place[t] == Paused
    case ExitPaused(t) => t in s.place && s.place[t] == Paused
  }

  ghost function Apply<T>(s: State<T>, step: Step<T>): State<T>
    requires Inv(s) && Legal(s, step)
  {
    match step
    case Launch(t) => Enqueue(s, t)
    case Declare(c, intent) => Mark(s, c, intent)
    case SwitchOn(c) => Switch(s, c)
    case Unpause(t) => Enqueue(s, t)
    case ExitPaused(t) => Strand(s, t)
  }

  lemma ApplyKeepsInv<T>(s: State<T>, step: Step<T>)
    requires Inv(s) && Legal(s, step)
    ensures Inv(Apply(s, step)) && |Apply(s, step).slots| == |s.slots|
  {
    match step
    case Launch(t) => EnqueueKeepsInv(s, t);
    case Declare(c, intent) => MarkKeepsInv(s, c, intent);
    case SwitchOn(c) => SwitchKeepsInv(s, c); ReapKeepsInv(s, c); PartKeepsInv(Reap(s, c), c);
    case Unpause(t) => EnqueueKeepsInv(s, t);
    case ExitPaused(t) => StrandKeepsInv(s, t);
  }

  /** `trace` is a run: every state comes from the one before by a legal step. */
  ghost predicate Run<T>(trace: seq<State<T>>, steps: seq<Step<T>>) {
    && |trace| == |steps| + 1 && Inv(trace[0])
    && forall i | 0 <= i < |steps| :: Follows(trace[i], steps[i], trace[i + 1])
  }

  ghost predicate Follows<T>(s: State<T>, step: Step<T>, s': State<T>) {
    Inv(s) ==> Legal(s, step) && s' == Apply(s, step)
  }

  /** The invariant holds in every state of every run. */
  lemma {:induction false} RunKeepsInv<T>(trace: seq<State<T>>, steps: seq<Step<T>>, i: nat)
    requires Run(trace, steps) && i <= |steps|
    ensures Inv(trace[i]) && |trace[i].slots| == |trace[0].slots|
  {
    if i > 0 {
      RunKeepsInv(trace, steps, i - 1);
      assert Follows(trace[i - 1], steps[i - 1], trace[i]);
      ApplyKeepsInv(trace[i - 1], steps[i - 1]);
    }
  }

  // ---------------------------------------------------------------- every thread is in one place

  ghost predicate Queued<T>(s: State<T>, t: T) { t in s.queue }
  ghost predicate OnCpu<T>(s: State<T>, t: T) { On(t) in s.slots }
  ghost predicate Resting<T>(s: State<T>, t: T) { t in s.place && (s.place[t] == Paused || s.place[t] == Stranded) }
  ghost predicate Exited<T>(s: State<T>, t: T) { t in s.freed || Some(t) in s.owed }

  /** Exactly one of four holds of every thread, and it is in its place once. */
  lemma OnePlace<T>(s: State<T>, t: T)
    requires Inv(s) && t in s.place
    ensures Queued(s, t) || OnCpu(s, t) || Resting(s, t) || Exited(s, t)
    ensures Queued(s, t) ==> !OnCpu(s, t) && !Resting(s, t) && !Exited(s, t)
    ensures OnCpu(s, t) ==> !Resting(s, t) && !Exited(s, t)
    ensures Resting(s, t) ==> !Exited(s, t)
    ensures !(t in s.freed && Some(t) in s.owed)
    ensures forall i, j | 0 <= i < j < |s.queue| :: !(s.queue[i] == t && s.queue[j] == t)
    ensures forall c, d | 0 <= c < d < |s.slots| :: !(s.slots[c] == On(t) && s.slots[d] == On(t))
    ensures forall c, d | 0 <= c < d < |s.owed| :: !(s.owed[c] == Some(t) && s.owed[d] == Some(t))
    ensures forall i, j | 0 <= i < j < |s.freed| :: !(s.freed[i] == t && s.freed[j] == t)
  {
    assert ThreadOk(s, t);
    forall i, j | 0 <= i < j < |s.queue| ensures s.queue[i] != s.queue[j] { assert Differ(s.queue, i, j); }
    forall i, j | 0 <= i < j < |s.freed| ensures s.freed[i] != s.freed[j] { assert Differ(s.freed, i, j); }
    forall c | 0 <= c < |s.slots| && s.slots[c] == On(t) ensures s.place[t].Cpu? && s.place[t].cpu == c {
      assert CpuOk(s, c);
    }
    forall c | 0 <= c < |s.owed| && s.owed[c] == Some(t) ensures s.place[t] == Owed(c) {
      assert CpuOk(s, c);
    }
  }

  // ---------------------------------------------------------------- the queue is a FIFO

  /** The threads a step puts into the queue and takes out of it. */
  ghost function Arrives<T>(s: State<T>, step: Step<T>): (a: seq<T>)
    requires Inv(s) && Legal(s, step)
    ensures |a| <= 1
  {
    match step
    case Launch(t) => [t]
    case Unpause(t) => [t]
    case Declare(_, _) => []
    case ExitPaused(_) => []
    case SwitchOn(c) =>
      assert CpuOk(s, c);
      if s.slots[c].On? && s.place[s.slots[c].thread].intent == Running then [s.slots[c].thread] else []
  }

  /** What CPU `c` has left to free. */
  ghost function Owes<T>(s: State<T>, c: nat): seq<T>
    requires c < |s.owed|
  {
    match s.owed[c] case None => [] case Some(t) => [t]
  }

  /** The thread on CPU `c` is `t` and has this intent. */
  ghost predicate Leaves<T>(s: State<T>, c: nat, t: T, intent: Intent) {
    c < |s.slots| && s.slots[c] == On(t) && t in s.place && s.place[t] == Cpu(c, intent)
  }

  /** Where the thread `u` is after a switch on CPU `c` that finds the queue `q`. */
  ghost function Moved<T>(s: State<T>, c: nat, q: seq<T>, u: T): Place
    requires Inv(s) && c < |s.slots| && u in s.place
  {
    if q != [] && u == q[0] then Cpu(c, Running)
    else if Leaves(s, c, u, Running) then Ready
    else if Leaves(s, c, u, Pausing) then Paused
    else if Leaves(s, c, u, Exiting) then Owed(c)
    else if s.owed[c] == Some(u) then Freed
    else s.place[u]
  }

  /** A switch, part by part: the lists. */
  lemma SwitchIs<T>(s: State<T>, c: nat)
    requires Inv(s) && c < |s.slots|
    ensures var q, s' := s.queue + Arrives(s, SwitchOn(c)), Switch(s, c);
      && s'.queue == (if q == [] then [] else q[1..])
      && s'.slots == s.slots[c := if q != [] then On(q[0]) else if s.slots[c].Off? then Off else Idle]
      && s'.owed == s.owed[c := if s.slots[c].On? && Leaves(s, c, s.slots[c].thread, Exiting)
                                then Some(s.slots[c].thread) else None]
      && s'.freed == s.freed + Owes(s, c)
  {
    assert CpuOk(s, c);
    ReapKeepsInv(s, c);
    var r := Reap(s, c);
    assert s.slots[c].On? ==> r.place[s.slots[c].thread] == s.place[s.slots[c].thread];
    assert Part(r, c).queue == s.queue + Arrives(s, SwitchOn(c));
  }

  /** A switch, part by part: the places. */
  lemma SwitchMoves<T>(s: State<T>, c: nat)
    requires Inv(s) && c < |s.slots|
    ensures var q, s' := s.queue + Arrives(s, SwitchOn(c)), Switch(s, c);
      s'.place.Keys == s.place.Keys && forall u | u in s.place :: s'.place[u] == Moved(s, c, q, u)
  {
    assert CpuOk(s, c);
    ReapKeepsInv(s, c);
    var r, q := Reap(s, c), s.queue + Arrives(s, SwitchOn(c));
    var p := Part(r, c);
    PartMoves(s, c);
    assert q != [] ==> q[0] in s.place;
  }

  lemma PartMoves<T>(s: State<T>, c: nat)
    requires Inv(s) && c < |s.slots|
    ensures CpuOk(Reap(s, c), c) && Part(Reap(s, c), c).queue == s.queue + Arrives(s, SwitchOn(c))
    ensures Part(Reap(s, c), c).place.Keys == s.place.Keys
    ensures forall u | u in s.place :: Part(Reap(s, c), c).place[u] == Moved(s, c, [], u)
  {
    assert CpuOk(s, c);
    ReapKeepsInv(s, c);
    assert s.slots[c].On? ==> Reap(s, c).place[s.slots[c].thread] == s.place[s.slots[c].thread];
  }

  ghost function Starts<T>(s: State<T>, step: Step<T>): (a: seq<T>)
    requires Inv(s) && Legal(s, step)
    ensures |a| <= 1
  {
    var q := s.queue + Arrives(s, step);
    if step.SwitchOn? && q != [] then [q[0]] else []
  }

  /** One step takes what it starts from the front of the queue and appends what arrives, and
      a thread that starts is on the CPU that switched. */
  lemma StepIsFifo<T>(s: State<T>, step: Step<T>)
    requires Inv(s) && Legal(s, step)
    ensures s.queue + Arrives(s, step) == Starts(s, step) + Apply(s, step).queue
    ensures Starts(s, step) != [] ==> step.SwitchOn? && Apply(s, step).slots[step.cpu] == On(Starts(s, step)[0])
  {
    if step.SwitchOn? {
      SwitchIs(s, step.cpu);
    }
  }

  lemma FifoAt<T>(trace: seq<State<T>>, steps: seq<Step<T>>, i: nat)
    requires Run(trace, steps) && i < |steps|
    ensures Inv(trace[i]) && Legal(trace[i], steps[i])
    ensures trace[i].queue + Arrives(trace[i], steps[i]) == Starts(trace[i], steps[i]) + trace[i + 1].queue
  {
    RunKeepsInv(trace, steps, i);
    assert Follows(trace[i], steps[i], trace[i + 1]);
    StepIsFifo(trace[i], steps[i]);
  }

  ghost function Arrivals<T>(trace: seq<State<T>>, steps: seq<Step<T>>, n: nat): seq<T>
    requires Run(trace, steps) && n <= |steps|
  {
    if n == 0 then []
    else
      FifoAt(trace, steps, n - 1);
      Arrivals(trace, steps, n - 1) + Arrives(trace[n - 1], steps[n - 1])
  }

  ghost function Started<T>(trace: seq<State<T>>, steps: seq<Step<T>>, n: nat): seq<T>
    requires Run(trace, steps) && n <= |steps|
  {
    if n == 0 then []
    else
      FifoAt(trace, steps, n - 1);
      Started(trace, steps, n - 1) + Starts(trace[n - 1], steps[n - 1])
  }

  /** Over every run the threads started are those first in line, in the order in which they
      were in the queue or came to it, and the queue holds the rest. */
  lemma {:induction false} RunIsFifo<T>(trace: seq<State<T>>, steps: seq<Step<T>>, n: nat)
    requires Run(trace, steps) && n <= |steps|
    ensures trace[0].queue + Arrivals(trace, steps, n) == Started(trace, steps, n) + trace[n].queue
  {
    if n > 0 {
      RunIsFifo(trace, steps, n - 1);
      FifoAt(trace, steps, n - 1);
      var q, a, b := trace[0].queue, Arrivals(trace, steps, n - 1), Started(trace, steps, n - 1);
      var x, y := Arrives(trace[n - 1], steps[n - 1]), Starts(trace[n - 1], steps[n - 1]);
      calc {
        q + Arrivals(trace, steps, n);
        q + (a + x);
        { Associate(q, a, b, trace[n - 1].queue, x, y, trace[n].queue); }
        (b + y) + trace[n].queue;
        Started(trace, steps, n) + trace[n].queue;
      }
    }
  }

  lemma Associate<T>(q: seq<T>, a: seq<T>, b: seq<T>, r: seq<T>, x: seq<T>, y: seq<T>, r': seq<T>)
    requires q + a == b + r && r + x == y + r'
    ensures q + (a + x) == (b + y) + r'
  {
    assert q + (a + x) == (q + a) + x;
    assert (b + r) + x == b + (r + x);
    assert b + (y + r') == (b + y) + r';
  }

  /** A thread with `k` threads ahead of it is the one started on the `k + 1`-st take, and
      until then it has `k` minus the number of takes ahead of it. */
  lemma StartedInTurn<T>(trace: seq<State<T>>, steps: seq<Step<T>>, n: nat, k: nat)
    requires Run(trace, steps) && n <= |steps| && k < |trace[0].queue|
    ensures k < |Started(trace, steps, n)| ==> Started(trace, steps, n)[k] == trace[0].queue[k]
    ensures k >= |Started(trace, steps, n)| ==>
      var m := k - |Started(trace, steps, n)|; m < |trace[n].queue| && trace[n].queue[m] == trace[0].queue[k]
  {
    RunIsFifo(trace, steps, n);
    var all := trace[0].queue + Arrivals(trace, steps, n);
    assert all[k] == trace[0].queue[k];
    assert all == Started(trace, steps, n) + trace[n].queue;
  }

  // ---------------------------------------------------------------- freeing

  /** Exited threads stay exited, a freed thread is never freed again, and the thread a CPU
      owes is freed by the next switch there and by nothing else. */
  lemma StepFrees<T>(s: State<T>, step: Step<T>)
    requires Inv(s) && Legal(s, step)
    ensures s.freed <= Apply(s, step).freed
    ensures forall t | Exited(s, t) :: Exited(Apply(s, step), t)
    ensures forall c | 0 <= c < |s.owed| && s.owed[c].Some? ::
      if step == SwitchOn(c) then Apply(s, step).freed == s.freed + [s.owed[c].value]
      else Apply(s, step).owed[c] == s.owed[c]
    ensures (forall c | 0 <= c < |s.owed| && s.owed[c].Some? :: step != SwitchOn(c)) ==> Apply(s, step).freed == s.freed
  {
    if step.SwitchOn? {
      SwitchFrees(s, step.cpu);
      var s' := Switch(s, step.cpu);
      forall t | Exited(s, t) ensures Exited(s', t) {
        if t !in s.freed {
          var c :| 0 <= c < |s.owed| && s.owed[c] == Some(t);
          assert c != step.cpu ==> s'.owed[c] == Some(t);
        }
      }
    }
  }

  lemma SwitchFrees<T>(s: State<T>, c: nat)
    requires Inv(s) && c < |s.slots|
    ensures Switch(s, c).freed == s.freed + Owes(s, c)
    ensures |Switch(s, c).owed| == |s.owed| && forall d | 0 <= d < |s.owed|
      && d != c :: Switch(s, c).owed[d] == s.owed[d]
  {
    SwitchIs(s, c);
  }

  lemma FreesAt<T>(trace: seq<State<T>>, steps: seq<Step<T>>, c: nat, t: T, i: nat)
    requires Run(trace, steps) && i < |steps| && c < |trace[0].owed|
    ensures Inv(trace[i]) && c < |trace[i].owed| == |trace[i + 1].owed| && trace[i].freed <= trace[i + 1].freed
    ensures trace[i].owed[c] == Some(t) ==>
      if steps[i] == SwitchOn(c) then t in trace[i + 1].freed else trace[i + 1].owed[c] == Some(t)
  {
    RunKeepsInv(trace, steps, i);
    RunKeepsInv(trace, steps, i + 1);
    assert Follows(trace[i], steps[i], trace[i + 1]);
    StepFrees(trace[i], steps[i]);
  }

  /** A switch on the CPU of a thread that has declared its exit makes that CPU owe it. */
  lemma ExitIsOwed<T>(s: State<T>, c: nat, t: T)
    requires Inv(s) && Leaves(s, c, t, Exiting)
    ensures Switch(s, c).owed[c] == Some(t) && Exited(Switch(s, c), t)
  {
    SwitchIs(s, c);
    assert Switch(s, c).owed[c] == Some(t);
  }

  /** Over every run, a thread owed by a CPU is freed exactly when that CPU has switched since. */
  lemma {:induction false} FreedAtNextSwitch<T>(trace: seq<State<T>>, steps: seq<Step<T>>, c: nat, t: T, n: nat)
    requires Run(trace, steps) && n <= |steps| && c < |trace[0].owed| && trace[0].owed[c] == Some(t)
    ensures t in trace[n].freed <==> SwitchOn(c) in steps[..n]
    ensures SwitchOn(c) !in steps[..n] ==> c < |trace[n].owed| && trace[n].owed[c] == Some(t)
  {
    RunKeepsInv(trace, steps, n);
    if n > 0 {
      FreedAtNextSwitch(trace, steps, c, t, n - 1);
      FreesAt(trace, steps, c, t, n - 1);
      assert steps[..n] == steps[..n - 1] + [steps[n - 1]];
      if SwitchOn(c) !in steps[..n] {
        OwedNotFreed(trace[n], c, t);
      }
    }
    if SwitchOn(c) !in steps[..n] {
      OwedNotFreed(trace[n], c, t);
    }
  }

  lemma OwedNotFreed<T>(s: State<T>, c: nat, t: T)
    requires Inv(s) && c < |s.owed| && s.owed[c] == Some(t)
    ensures t !in s.freed
  {
    assert CpuOk(s, c);
  }

  /** The number of switches on CPU `c` among the first `n` steps. */
  ghost function Switches<T>(steps: seq<Step<T>>, c: nat, n: nat): nat
    requires n <= |steps|
  {
    if n == 0 then 0 else Switches(steps, c, n - 1) + if steps[n - 1] == SwitchOn(c) then 1 else 0
  }

  /** One step of a thread on its way out. */
  lemma ExitStep<T>(s: State<T>, step: Step<T>, t: T)
    requires Inv(s) && Legal(s, step) && t in s.place
    ensures t in Apply(s, step).place
    ensures s.place[t] == Stranded ==> Apply(s, step).place[t] == Stranded
    ensures s.place[t] == Freed ==> Apply(s, step).place[t] == Freed
    ensures s.place[t].Owed? ==>
      Apply(s, step).place[t] == if step == SwitchOn(s.place[t].at) then Freed else s.place[t]
    ensures s.place[t].Cpu? && s.place[t].intent == Exiting ==>
      Apply(s, step).place[t] == if step == SwitchOn(s.place[t].cpu) then Owed(s.place[t].cpu) else s.place[t]
  {
    assert ThreadOk(s, t);
    match step
    case SwitchOn(c) =>
      SwitchMoves(s, c);
      ExitMoves(s, c, t);
    case Declare(c, _) => assert CpuOk(s, c);
    case _ =>
  }

  lemma ExitMoves<T>(s: State<T>, c: nat, t: T)
    requires Inv(s) && c < |s.slots| && t in s.place
    ensures var p, p' := s.place[t], Moved(s, c, s.queue + Arrives(s, SwitchOn(c)), t);
      && (p == Stranded || p == Freed ==> p' == p)
      && (p.Owed? ==> p' == if c == p.at then Freed else p)
      && (p.Cpu? && p.intent == Exiting ==> p' == if c == p.cpu then Owed(c) else p)
  {
    assert ThreadOk(s, t) && CpuOk(s, c);
    var a := Arrives(s, SwitchOn(c));
    assert s.queue != [] ==> s.queue[0] in s.queue;
    assert s.queue + a != [] ==> (s.queue + a)[0] in s.queue || (s.queue + a)[0] in a;
  }

  /** Where a thread that has been told to exit is after `k` switches of the CPU it runs on or has
      left. */
  ghost function OnItsWay(p: Place, k: nat): Place {
    match p
    case Cpu(c, _) => if k == 0 then p else if k == 1 then Owed(c) else Freed
    case Owed(_) => if k == 0 then p else Freed
    case _ => p
  }

  ghost function Post(p: Place): nat {
    match p case Cpu(c, _) => c case Owed(c) => c case _ => 0
  }

  ghost predicate Doomed(p: Place) {
    p == Freed || p == Stranded || p.Owed? || (p.Cpu? && p.intent == Exiting)
  }

  /** Over every run, a thread that has been told to exit is handed over for freeing exactly when
      its CPU has switched twice since (once, if it had left the CPU), and one that was paused
      when it was told never is. */
  lemma {:induction false} HandedOverExactly<T>(trace: seq<State<T>>, steps: seq<Step<T>>, t: T, n: nat)
    requires Run(trace, steps) && n <= |steps| && t in trace[0].place && Doomed(trace[0].place[t])
    ensures var p := trace[0].place[t];
      && t in trace[n].place && trace[n].place[t] == OnItsWay(p, Switches(steps, Post(p), n))
      && (t in trace[n].freed <==>
            p == Freed || (p.Owed? && Switches(steps, p.at, n) >= 1) || (p.Cpu? && Switches(steps, p.cpu, n) >= 2))
  {
    RunKeepsInv(trace, steps, n);
    if n > 0 {
      HandedOverExactly(trace, steps, t, n - 1);
      RunKeepsInv(trace, steps, n - 1);
      assert Follows(trace[n - 1], steps[n - 1], trace[n]);
      ExitStep(trace[n - 1], steps[n - 1], t);
    }
    assert ThreadOk(trace[n], t);
  }

  // ---------------------------------------------------------------- unpausing

  /** `scheduler_unpause_thread` enqueues any thread whose pause flag is set. That leaves it in the
      queue alone, and not also on a CPU or handed over, exactly when it has left its CPU and not
      exited there. */
  lemma UnpauseExact<T>(s: State<T>, t: T)
    requires Inv(s) && Pending(s, t)
    ensures var s' := Enqueue(s, t);
      !(Queued(s', t) && OnCpu(s', t)) && !(Queued(s', t) && Exited(s', t)) <==>
      s.place[t] == Paused || s.place[t] == Stranded
  {
    var s' := Enqueue(s, t);
    assert s'.queue[|s.queue|] == t;
    assert ThreadOk(s, t);
    OnePlace(s, t);
  }

  /** A thread is launched and started, and declares its pause. */
  lemma StartThenPause<T>(t: T) returns (s1: State<T>, s2: State<T>, s3: State<T>)
    ensures Inv(Boot<T>(1)) && Inv(s1) && Inv(s2) && Inv(s3)
    ensures Legal(Boot(1), Launch(t)) && s1 == Apply(Boot(1), Launch(t))
    ensures Legal(s1, SwitchOn(0)) && s2 == Apply(s1, SwitchOn(0))
    ensures Legal(s2, Declare(0, Pausing)) && s3 == Apply(s2, Declare(0, Pausing))
    ensures |s3.slots| == 1 && s3.queue == [] && s3.slots[0] == On(t) && t in s3.place && s3.place[t] == Cpu(0, Pausing)
  {
    BootInv<T>(1);
    ApplyKeepsInv(Boot(1), Launch(t));
    s1 := Apply(Boot(1), Launch(t));
    ApplyKeepsInv(s1, SwitchOn(0));
    s2 := Apply(s1, SwitchOn(0));
    SwitchIs(s1, 0);
    SwitchMoves(s1, 0);
    assert s2.slots[0] == On(t) && s2.place[t] == Cpu(0, Running);
    ApplyKeepsInv(s2, Declare(0, Pausing));
    s3 := Apply(s2, Declare(0, Pausing));
  }

  /** Unpaused before the switch, it is in the queue and on the CPU. */
  lemma UnpausedTooEarly<T>(t: T) returns (trace: seq<State<T>>)
    ensures Run(trace, [Launch(t), SwitchOn(0), Declare(0, Pausing)]) && trace[0] == Boot(1)
    ensures var s := trace[3]; Pending(s, t) && Queued(Enqueue(s, t), t) && OnCpu(Enqueue(s, t), t)
  {
    var s1, s2, s3 := StartThenPause(t);
    trace := [Boot(1), s1, s2, s3];
    assert Enqueue(s3, t).queue == [t] && Enqueue(s3, t).slots[0] == On(t);
  }

  /** Told to exit after the switch, it is stranded. */
  lemma ExitsWhilePaused<T>(t: T) returns (trace: seq<State<T>>)
    ensures Run(trace, [Launch(t), SwitchOn(0), Declare(0, Pausing), SwitchOn(0), ExitPaused(t)]) && trace[0] == Boot(1)
    ensures t in trace[5].place && trace[5].place[t] == Stranded
  {
    var s1, s2, s3 := StartThenPause(t);
    ApplyKeepsInv(s3, SwitchOn(0));
    var s4 := Apply(s3, SwitchOn(0));
    SwitchMoves(s3, 0);
    trace := [Boot(1), s1, s2, s3, s4, Apply(s4, ExitPaused(t))];
  }
}
