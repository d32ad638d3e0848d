/** The kernel scheduler: an intrusive circular ready queue of threads, and the handler that
    runs on every CPU at a task switch. All methods run with the scheduler lock held. */
module Scheduler {

  import opened Distinctness
  import opened SchedulerModel
  import opened Machine

  /** The fields of a thread that the scheduler uses. */
  class Thread {
    var next: Thread?
    var last: Thread?
    var isInQueue: bool
    var isPausing: bool
    var isExiting: bool
    var isIgnoringCtx: bool
    var threadToFree: Thread?

    constructor ()
      ensures !isInQueue && !isPausing && !isExiting && !isIgnoringCtx
      ensures next == null && last == null && threadToFree == null
    {
      next, last, threadToFree := null, null, null;
      isInQueue, isPausing, isExiting, isIgnoringCtx := false, false, false, false;
    }

    /** Not in the queue and with no links. */
    ghost predicate Loose()
      reads this
    {
      !isInQueue && next == null && last == null
    }
  }

  /** Element `i` of the queue is linked to its neighbours, the last one to the first. */
  ghost predicate Node(q: seq<Thread>, i: nat, head: Thread?)
    reads q
  {
    && i < |q| && q[i].isInQueue && q[i].next == q[if i + 1 < |q| then i + 1 else 0]
    && q[i].last == if i == 0 then head else q[i - 1]
  }

  /** The nodes `q` are linked in order; the first one's backward link is `head`. */
  ghost predicate Ring(q: seq<Thread>, head: Thread?)
    reads q
  {
    Distinct(q) && forall i {:trigger Node(q, i, head)} | 0 <= i < |q| :: Node(q, i, head)
  }

  lemma QueuedThreads(q: seq<Thread>)
    requires Ring(q, null)
    ensures forall u | u in q :: u.isInQueue
  {
    forall u | u in q ensures u.isInQueue {
      var i :| 0 <= i < |q| && q[i] == u;
      assert Node(q, i, null);
    }
  }

  /** The neighbours of the element at `j` once the one at `i` has been taken out. */
  ghost predicate Relinked(all: seq<Thread>, j: nat, i: nat)
    reads all
  {
    var n := |all|;
    && i < n && j < n && j != i && n > 1
    && all[j].isInQueue
    && all[j].next == all[if j + 1 == i then (if i + 1 < n then i + 1 else 0)
                          else if j + 1 < n then j + 1 else if i == 0 then 1 else 0]
    && all[j].last == (if j == i + 1 then (if i == 0 then null else all[i - 1])
                       else if j == 0 then (if i == n - 1 then all[i - 1] else null) else all[j - 1])
  }

  lemma RelinkedRing(all: seq<Thread>, i: nat)
    requires Distinct(all) && i < |all|
    requires forall j {:trigger Relinked(all, j, i)} | 0 <= j < |all| && j != i :: Relinked(all, j, i)
    ensures Ring(Without(all, i), if 0 < i == |all| - 1 then all[i - 1] else null)
  {
    var q, head := Without(all, i), if 0 < i == |all| - 1 then all[i - 1] else null;
    DistinctDrop(all, i);
    forall j | 0 <= j < |q| ensures Node(q, j, head) {
      assert Relinked(all, if j < i then j else j + 1, i);
    }
  }

  /** The queue heads. */
  class Queue {
    var first: Thread?
    var end: Thread?
    ghost var q: seq<Thread>

    constructor ()
      ensures q == [] && Valid()
    {
      first, end, q := null, null, [];
    }

    /** The heads point at the ends of the list `q`. */
    ghost predicate Heads()
      reads this
    {
      if q == [] then first == null && end == null else first == q[0] && end == q[|q| - 1]
    }

    ghost predicate Valid()
      reads this, q
    {
      Heads() && Ring(q, null)
    }

    /** `scheduler_enqueue_wl` */
    method Enqueue(t: Thread)
      requires Valid() && t !in q && t.Loose()
      modifies this, q`next, t`next, t`last, t`isInQueue
      ensures Valid() && q == old(q) + [t] && forall u | u in q :: u.isInQueue
    {
      if first == null {
        first := t;
      }
      if end != null {
        end.next := t;
        t.last := end;
      }
      end := t;
      t.next := first;
      t.isInQueue := true;
      ghost var before := q;
      q := q + [t];
      DistinctPush(before, t);
      forall i | 0 <= i < |q| ensures Node(q, i, null) {
        if i < |before| {
          assert old(Node(before, i, null));
          Apart(before, i, |before| - 1);
        }
      }
      QueuedThreads(q);
    }

    /** `scheduler_dequeue_wl` for the element at `i`. The queue keeps its shape except that
        removing the last of several leaves the first one's backward link pointing at the new
        last one. */
    method Dequeue(t: Thread, ghost i: nat)
      requires Valid() && i < |q| && q[i] == t
      modifies this, q`next, q`last, t`isInQueue
      ensures q == Without(old(q), i) && Heads() && t.Loose()
      ensures Ring(q, if 0 < i == |old(q)| - 1 then old(q)[i - 1] else null)
      ensures Valid() <==> !(0 < i == |old(q)| - 1)
    {
      assert Node(q, i, null);
      Apart(q, 0, i);
      Apart(q, i, |q| - 1);
      Apart(q, 0, if i + 1 < |q| then i + 1 else 0);
      if first == t {
        if first != t.next {
          first := t.next;
        } else {
          first := null;
          end := null;
        }
      }
      if end == t {
        end := if t.last != null then t.last else first;
      }
      Unlink(t, i);
      RelinkedRing(q, i);
      ghost var head := if 0 < i == |q| - 1 then q[i - 1] else null;
      q := Without(q, i);
      if q != [] {
        assert Node(q, 0, head);
        assert head != null ==> !Node(q, 0, null);
      }
    }

    /** `scheduler_get_tread_wl` */
    method Get() returns (t: Thread?)
      requires Valid()
      modifies this, q`next, q`last, q`isInQueue
      ensures Valid()
      ensures if old(q) == [] then t == null && q == [] else t == old(q)[0] && q == old(q)[1..] && t.Loose()
      ensures forall u | u in q :: u.isInQueue
    {
      t := first;
      if t != null {
        Dequeue(t, 0);
        assert Without(old(q), 0) == old(q)[1..];
      }
      QueuedThreads(q);
    }

    /** The second half of the removal, with the heads already moved. */
    method Unlink(t: Thread, ghost i: nat)
      requires Ring(q, null) && i < |q| && q[i] == t
      requires if |q| == 1 then first == null && end == null
               else first == q[if i == 0 then 1 else 0] && end == q[if i == |q| - 1 then i - 1 else |q| - 1]
      modifies q`next, q`last, t`isInQueue
      ensures t.Loose()
      ensures forall j {:trigger Relinked(q, j, i)} | 0 <= j < |q| && j != i :: Relinked(q, j, i)
    {
      assert Node(q, i, null);
      if end != null {
        end.next := first;
      }
      if t.last != null {
        t.last.next := t.next;
      }
      t.next.last := t.last;
      t.last := null;
      t.next := null;
      t.isInQueue := false;
      forall j, k | 0 <= j < k < |q| ensures q[j] != q[k] { Apart(q, j, k); }
      forall j | 0 <= j < |q| && j != i ensures Relinked(q, j, i) {
        assert old(Node(q, j, null));
      }
    }
  }

  /** The fields of a thread outside the queue's order; `loose` means no links. */
  datatype Fields = Fields(queued: bool, loose: bool, pausing: bool, exiting: bool, ignoring: bool, debt: Thread?)

  ghost function View(t: Thread): Fields
    reads t
  {
    Fields(t.isInQueue, t.Loose(), t.isPausing, t.isExiting, t.isIgnoringCtx, t.threadToFree)
  }

  /** The flags and links of a thread say where it is. */
  ghost predicate Fits(v: Fields, p: Place) {
    match p
    case Ready => v.queued && !v.pausing && !v.exiting && !v.ignoring && v.debt == null
    case Cpu(_, intent) =>
      v.loose && v.pausing == (intent != Running) && v.exiting == (intent == Exiting)
        && (v.ignoring ==> intent == Running)
    case Paused => v.loose && v.pausing && !v.exiting && !v.ignoring && v.debt == null
    case Owed(_) => v.loose && v.pausing && v.exiting && v.debt == null
    case Freed => v.loose && v.pausing && v.exiting && v.debt == null
    case Stranded => v.loose && v.pausing && v.exiting && !v.ignoring && v.debt == null
  }

  ghost predicate Shape(t: Thread, p: Place)
    reads t
  {
    Fits(View(t), p)
  }

  /** The thread that leaves CPU `c` for good, if any. */
  ghost function Ends(s: State<Thread>, c: nat): Thread?
    requires c < |s.slots|
  {
    if s.slots[c].On? && Leaves(s, c, s.slots[c].thread, Exiting) then s.slots[c].thread else null
  }

  /** The thread whose freeing CPU `c` owes. */
  ghost function Debt(s: State<Thread>, c: nat): Thread?
    requires c < |s.owed|
  {
    match s.owed[c] case None => null case Some(t) => t
  }

  /** The thread that `t` has to hand over. */
  ghost function Carried(t: Thread?): seq<Thread>
    reads t
  {
    if t == null || t.threadToFree == null then [] else [t.threadToFree]
  }

  /** What the first half of a switch does to the fields of a thread: the one that ends drops
      its debt and goes back to the queue or not. */
  ghost function Left(ending: Thread?, back: bool, u: Thread, v: Fields): Fields {
    if u == ending then Fields(back, !back, v.pausing, v.exiting, false, null) else v
  }

  /** What the second half does: the first thread of the queue `q` takes over `debt`. */
  ghost function Seated(q: seq<Thread>, debt: Thread?, u: Thread, v: Fields): Fields {
    if q != [] && u == q[0] then
      Fields(false, true, v.pausing, v.exiting, v.ignoring, if debt != null then debt else v.debt)
    else v
  }

  ghost function Incumbent(s: State<Thread>, c: nat, idle: Thread): Thread?
    requires c < |s.slots|
  {
    match s.slots[c] case Off => null case Idle => idle case On(t) => t
  }

  /** Only the thread on the CPU can come back to the queue. */
  lemma ArrivesIs(s: State<Thread>, c: nat, idle: Thread)
    requires Inv(s) && c < |s.slots|
    ensures var a := Arrives(s, SwitchOn(c));
      a != [] ==> Incumbent(s, c, idle) != null && a == [Incumbent(s, c, idle)]
    ensures Incumbent(s, c, idle) == null <==> s.slots[c].Off?
  {
  }

  lemma FitsAfter(s: State<Thread>, c: nat, idle: Thread, u: Thread, v: Fields)
    requires Inv(s) && c < |s.slots| && idle !in s.place && u in s.place && Fits(v, s.place[u])
    ensures var a := Arrives(s, SwitchOn(c));
      Fits(Seated(s.queue + a, Ends(s, c), u, Left(Incumbent(s, c, idle), a != [], u, v)), Moved(s, c, s.queue + a, u))
  {
    assert CpuOk(s, c) && ThreadOk(s, u);
  }

  /** The thread that starts owes the one that exits, and nothing else. */
  lemma StarterOwes(s: State<Thread>, c: nat, idle: Thread, v: Fields)
    requires Inv(s) && c < |s.slots| && s.queue + Arrives(s, SwitchOn(c)) != []
    requires var u := (s.queue + Arrives(s, SwitchOn(c)))[0]; u in s.place && Fits(v, s.place[u])
    ensures var a := Arrives(s, SwitchOn(c)); var u := (s.queue + a)[0];
      Seated(s.queue + a, Ends(s, c), u, Left(Incumbent(s, c, idle), a != [], u, v)).debt == Ends(s, c)
  {
    assert CpuOk(s, c);
  }

  /** A switch on one CPU does not touch the thread on another. */
  lemma OthersKeep(s: State<Thread>, c: nat, d: nat, idle: Thread, u: Thread, v: Fields)
    requires Inv(s) && c < |s.slots| && d < |s.slots| && c != d && s.slots[d] == On(u) && idle != u
    ensures var a := Arrives(s, SwitchOn(c));
      Seated(s.queue + a, Ends(s, c), u, Left(Incumbent(s, c, idle), a != [], u, v)) == v
  {
    assert CpuOk(s, c) && CpuOk(s, d);
  }

  /** An idle thread looks like a paused one, so that it never queues. */
  ghost predicate IdleShape(t: Thread)
    reads t
  {
    t.Loose() && t.isPausing && !t.isExiting && !t.isIgnoringCtx
  }

  /** Two threads are queued and the second is taken out: the first one's backward link points at
      itself. */
  method DequeuesLast() returns (queue: Queue, t: Thread)
    ensures queue.q == [t] && !queue.Valid() && t.last == t
  {
    queue := new Queue();
    t := new Thread();
    var u := new Thread();
    queue.Enqueue(t);
    queue.Enqueue(u);
    queue.Dequeue(u, 1);
    assert Node(queue.q, 0, t);
  }

  /** The scheduler: the ready queue, what each CPU runs (its context's current thread), the
      idle threads, and the threads handed to `scheduler_free_thread` so far. */
  class Dispatcher {
    const queue: Queue
    const idle: seq<Thread>
    var current: seq<Thread?>
    var handedOver: seq<Thread>
    ghost var s: State<Thread>

    /** CPU `c` runs what the state says and its thread carries what the CPU owes; its idle
        thread is a pausing thread that never queues. */
    ghost predicate CpuShape(c: nat)
      reads this, idle, set t | t in current && t != null
    {
      && c < |current| == |idle| == |s.slots| == |s.owed|
      && current[c] == Incumbent(s, c, idle[c])
      && (current[c] != null ==> current[c].threadToFree == (match s.owed[c] case None => null case Some(t) => t))
      && IdleShape(idle[c]) && (s.slots[c] != Idle ==> idle[c].threadToFree == null)
    }

    ghost predicate Valid()
      reads this, queue, queue.q, idle, s.place.Keys, set t | t in current && t != null
    {
      && Inv(s) && queue.Valid() && queue.q == s.queue && handedOver == s.freed
      && |current| == |idle| == |s.slots| && Distinct(idle)
      && (forall c | 0 <= c < |idle| :: idle[c] !in s.place)
      && (forall t {:trigger Shape(t, s.place[t])} | t in s.place :: Shape(t, s.place[t]))
      && (forall c {:trigger CpuShape(c)} | 0 <= c < |idle| :: CpuShape(c))
    }

    /** `scheduler_init`: one idle thread per CPU. */
    constructor (n: nat)
      ensures Valid() && |idle| == n && s == Boot(n)
    {
      var threads: seq<Thread> := [];
      for i := 0 to n
        invariant |threads| == i && Distinct(threads)
        invariant forall j | 0 <= j < i :: fresh(threads[j]) && IdleShape(threads[j]) && threads[j].threadToFree == null
      {
        var t := new Thread();
        t.isPausing := true;
        DistinctPush(threads, t);
        threads := threads + [t];
      }
      queue := new Queue();
      idle := threads;
      current := seq(n, _ => null);
      handedOver := [];
      s := Boot(n);
      new;
      BootInv<Thread>(n);
      forall c | 0 <= c < |idle| ensures CpuShape(c) {
      }
    }

    /** `scheduler_launch_thread` */
    method Launch(t: Thread)
      requires Valid() && t !in s.place && t !in idle
      requires t.Loose() && !t.isPausing && !t.isExiting && !t.isIgnoringCtx && t.threadToFree == null
      modifies this`s, queue, queue.q`next, t`next, t`last, t`isInQueue
      ensures Valid() && s == Enqueue(old(s), t)
    {
      EnqueueKeepsInv(s, t);
      assert t !in s.queue;
      queue.Enqueue(t);
      s := Enqueue(s, t);
      forall u | u in s.place ensures Shape(u, s.place[u]) {
        assert u != t ==> old(Shape(u, s.place[u]));
      }
      forall c | 0 <= c < |idle| ensures CpuShape(c) {
        assert old(CpuShape(c)) && CpuOk(old(s), c);
      }
    }

    /** `scheduler_pause_thread` and the first half of `scheduler_exit_thread`, called by the
        thread on CPU `c`; the switch comes next. Pausing is refused (`EINVAL`) to a thread that
        is already pausing. */
    method Declare(c: nat, exit: bool) returns (ok: bool)
      requires Valid() && c < |idle| && s.slots[c].On? && !s.slots[c].thread.isIgnoringCtx
      modifies this`s, current[c]
      ensures Valid() && s == if ok then Mark(old(s), c, if exit then Exiting else Pausing) else old(s)
      ensures ok <==> exit || !Pending(old(s), old(s).slots[c].thread)
    {
      assert CpuShape(c) && CpuOk(s, c);
      var t := current[c];
      assert Shape(t, s.place[t]);
      ok := exit || !(t.isPausing || t.isExiting);
      if ok {
        Flag(t, c, exit);
      }
    }

    /** The flags of the thread on CPU `c`. */
    method Flag(t: Thread, ghost c: nat, exit: bool)
      requires Valid() && c < |idle| && s.slots[c] == On(t) && t in s.place && current[c] == t && !t.isIgnoringCtx
      requires exit || !t.isExiting
      modifies this`s, t`isPausing, t`isExiting
      ensures Valid() && s == Mark(old(s), c, if exit then Exiting else Pausing)
    {
      ghost var intent := if exit then Exiting else Pausing;
      MarkKeepsInv(s, c, intent);
      assert Shape(t, s.place[t]) && CpuOk(s, c);
      t.isPausing := true;
      if exit {
        t.isExiting := true;
      }
      s := Mark(s, c, intent);
      forall u | u in s.place ensures Shape(u, s.place[u]) {
        assert old(Shape(u, s.place[u]));
      }
      forall d | 0 <= d < |idle| ensures CpuShape(d) {
        assert old(CpuShape(d)) && CpuOk(old(s), d);
      }
    }

    /** `scheduler_exit_thread` for a paused thread, called by another: its flags are set, and no
        switch follows. */
    method ExitPaused(t: Thread)
      requires Valid() && t in s.place && s.place[t] == Paused
      modifies this`s, t`isPausing, t`isExiting
      ensures Valid() && s == Strand(old(s), t)
    {
      assert Shape(t, s.place[t]);
      StrandKeepsInv(s, t);
      t.isPausing := true;
      t.isExiting := true;
      s := Strand(s, t);
      forall u | u in s.place ensures Shape(u, s.place[u]) {
        assert old(Shape(u, s.place[u]));
      }
      forall c | 0 <= c < |idle| ensures CpuShape(c) {
        assert old(CpuShape(c)) && CpuOk(old(s), c);
      }
    }

    /** `scheduler_unpause_thread`, of a thread that is ready, running, or paused and off its CPU;
        `EINVAL` for one that does not pause. */
    method Unpause(t: Thread) returns (ok: bool)
      requires Valid() && t in s.place
      requires s.place[t] == Ready || s.place[t] == Paused || (s.place[t].Cpu? && s.place[t].intent == Running)
      modifies this`s, queue, queue.q`next, t`next, t`last, t`isInQueue, t`isPausing
      ensures Valid() && s == if ok then Enqueue(old(s), t) else old(s)
      ensures ok <==> old(s).place[t] == Paused
    {
      assert Shape(t, s.place[t]);
      if !t.isPausing {
        return false;
      }
      EnqueueKeepsInv(s, t);
      assert t !in s.queue;
      t.isPausing := false;
      assert queue.Valid() by {
        assert old(queue.Valid());
        forall i | 0 <= i < |queue.q| ensures Node(queue.q, i, null) { assert old(Node(queue.q, i, null)); }
      }
      queue.Enqueue(t);
      s := Enqueue(s, t);
      forall u | u in s.place ensures Shape(u, s.place[u]) {
        assert old(Shape(u, s.place[u]));
      }
      forall c | 0 <= c < |idle| ensures CpuShape(c) {
        assert old(CpuShape(c)) && CpuOk(old(s), c);
      }
      ok := true;
    }

    /** The first half of `scheduler_handler`: the freeing of the thread the CPU owes, and the
        way out of the thread that ends. Signals and `waitpid` are not part of this model. */
    method Depart(ending: Thread, ghost all: set<Thread>)
      requires queue.Valid() && ending !in queue.q && ending.Loose() && (ending.isIgnoringCtx ==> !ending.isPausing)
      modifies this`handedOver, queue, queue.q`next, ending`next, ending`last, ending`isInQueue,
        ending`isIgnoringCtx, ending`threadToFree
      ensures queue.Valid() && queue.q == old(queue.q) + (if old(ending.isPausing) then [] else [ending])
      ensures var debt := old(ending.threadToFree);
        handedOver == old(handedOver) + if debt == null then [] else [debt]
      ensures forall u | u in all :: View(u) == Left(ending, !old(ending.isPausing), u, old(View(u)))
    {
      QueuedThreads(queue.q);
      if ending.threadToFree != null {
        handedOver := handedOver + [ending.threadToFree];
        ending.threadToFree := null;
      }
      if ending.isIgnoringCtx {
        ending.isIgnoringCtx := false;
        queue.Enqueue(ending);
      } else if !ending.isPausing {
        queue.Enqueue(ending);
      }
    }

    /** The second half: the first thread of the queue `q`, or the idle thread, starts and takes
        over one that exits. */
    method Seat(c: nat, ending: Thread?, ghost q: seq<Thread>, ghost all: set<Thread>, ghost debt: Thread?,
      ghost seat: Thread?)
      requires c < |idle| && c < |current| && queue.Valid() && queue.q == q && (forall t | t in q :: t in all)
      requires idle[c] !in all && idle[c].Loose()
      requires debt == if ending != null && ending.isPausing && ending.isExiting then ending else null
      requires seat == if q != [] then q[0] else if ending != null && ending.isPausing then idle[c] else current[c]
      modifies this`current, queue, idle[c], all
      ensures queue.Valid() && queue.q == (if q == [] then [] else q[1..])
      ensures current == old(current)[c := seat] && forall u | u in all :: View(u) == Seated(q, debt, u, old(View(u)))
      ensures View(idle[c]) == Seated(if q == [] then [idle[c]] else q, debt, idle[c], old(View(idle[c])))
    {
      assert current == current[c := current[c]];
      var starting := Next(q, all);
      if ending != null && ending.isPausing {
        if starting == null {
          starting := idle[c];
        }
        if ending.isExiting {
          starting.threadToFree := ending;
        }
      }
      if starting != null {
        current := current[c := starting];
      }
    }

    /** The take, with its effect thread by thread. */
    method Next(ghost q: seq<Thread>, ghost all: set<Thread>) returns (starting: Thread?)
      requires queue.Valid() && queue.q == q && (forall t | t in q :: t in all)
      modifies queue, q`next, q`last, q`isInQueue
      ensures queue.Valid() && queue.q == (if q == [] then [] else q[1..])
      ensures starting == if q == [] then null else q[0]
      ensures q != [] ==> q[0] !in q[1..]
      ensures forall u | u in all :: View(u) == Seated(q, null, u, old(View(u)))
    {
      QueuedThreads(queue.q);
      starting := queue.Get();
      if q != [] {
        DistinctDrop(q, 0);
        assert Without(q, 0) == q[1..];
        assert q == [q[0]] + q[1..];
      }
    }

    /** What a switch on CPU `c` relies on: the thread there is outside the queue, and is the
        idle thread or one of those whose fields `before` records. */
    ghost predicate Settled(c: nat, before: map<Thread, Fields>)
      reads this, queue, queue.q, idle, before.Keys, set t | t in current && t != null
    {
      && c < |idle| == |current| && queue.Valid() && (forall t | t in queue.q :: t in before)
      && (forall u | u in before :: before[u] == View(u))
      && (current[c] != null ==>
            && current[c] !in queue.q && current[c].Loose() && (current[c].isIgnoringCtx ==> !current[c].isPausing)
            && (current[c] in before || current[c] == idle[c]))
      && IdleShape(idle[c]) && idle[c] !in before && (current[c] != idle[c] ==> idle[c].threadToFree == null)
    }

    /** A switch on CPU `c` has been carried out. Before it the CPU ran `was[c]`, the queue was
        `line` and the threads handed over were `log`; `back` and `ends` say what the thread
        that ended wanted, and `before` what the fields were. */
    ghost predicate Passed(c: nat, before: map<Thread, Fields>, was: seq<Thread?>, line: seq<Thread>, log: seq<Thread>,
                           back: bool, ends: Thread?)
      reads this`current, this`handedOver, queue, queue.q, idle, before.Keys
    {
      && c < |was| == |idle| && (back ==> was[c] != null)
      && var q := line + if back then [was[c]] else [];
      && queue.Valid() && queue.q == (if q == [] then [] else q[1..]) && handedOver == log
      && current == was[c := if q != [] then q[0] else if was[c] == null then null else idle[c]]
      && (forall u | u in before :: View(u) == Seated(q, ends, u, Left(was[c], back, u, before[u])))
      && IdleShape(idle[c]) && idle[c].threadToFree == if q == [] then ends else null
    }

    /** The first half, also where nothing runs yet. */
    method Begin(c: nat, ghost before: map<Thread, Fields>, ghost back: bool)
      requires Settled(c, before) && back == (current[c] != null && !current[c].isPausing)
      modifies this`handedOver, queue, idle[c], before.Keys
      ensures queue.Valid() && queue.q == old(queue.q) + (if back then [current[c]] else [])
      ensures handedOver == old(handedOver) + old(Carried(current[c]))
      ensures forall u | u in before :: View(u) == Left(current[c], back, u, before[u])
      ensures View(idle[c]) == Left(current[c], back, idle[c], old(View(idle[c])))
    {
      var ending := current[c];
      if ending != null {
        Depart(ending, before.Keys + {idle[c]});
      }
    }

    /** `scheduler_handler`, with its effect thread by thread. */
    method Pass(c: nat, ghost before: map<Thread, Fields>, ghost back: bool, ghost ends: Thread?)
      requires Settled(c, before)
      requires back == (current[c] != null && !current[c].isPausing)
      requires ends == if current[c] != null && current[c].isPausing && current[c].isExiting then current[c] else null
      modifies this`current, this`handedOver, queue, idle[c], before.Keys
      ensures var log := old(handedOver) + old(Carried(current[c]));
        Passed(c, before, old(current), old(queue.q), log, back, ends)
    {
      var ending := current[c];
      ghost var q := queue.q + if back then [ending] else [];
      Begin(c, before, back);
      Seat(c, ending, q, before.Keys, ends, if q != [] then q[0] else if ending == null then null else idle[c]);
    }

    /** The idle thread of CPU `d` looks as it should; it carries the debt of the CPU while it
        runs. */
    ghost predicate IdleOk(t: State<Thread>, d: nat)
      reads if d < |idle| then {idle[d]} else {}
    {
      && d < |idle| && d < |t.slots| && d < |t.owed| && IdleShape(idle[d])
      && idle[d].threadToFree == if t.slots[d] == Idle then Debt(t, d) else null
    }

    /** What is known of CPU `d` before a switch. */
    ghost predicate CpuWas(t: State<Thread>, d: nat, before: map<Thread, Fields>, was: seq<Thread?>)
      reads if d < |idle| then {idle[d]} else {}
    {
      && d < |was| && IdleOk(t, d) && was[d] == Incumbent(t, d, idle[d])
      && (t.slots[d].On? ==> t.slots[d].thread in before && before[t.slots[d].thread].debt == Debt(t, d))
    }

    /** What is known of the threads before a switch. */
    ghost predicate ThreadsWere(t: State<Thread>, before: map<Thread, Fields>) {
      && before.Keys == t.place.Keys && Distinct(idle) && (forall d | 0 <= d < |idle| :: idle[d] !in before)
      && forall u {:trigger before[u]} | u in before :: Fits(before[u], t.place[u])
    }

    /** A switch on CPU `c` has been carried out, as seen from the state `t` before it. */
    ghost predicate Switched(t: State<Thread>, c: nat, before: map<Thread, Fields>, was: seq<Thread?>)
      requires Inv(t)
      reads this`current, this`handedOver, queue, queue.q, idle, before.Keys
    {
      && c < |t.slots| == |idle| && |was| == |idle| && was[c] == Incumbent(t, c, idle[c]) && ThreadsWere(t, before)
      && Passed(c, before, was, t.queue, t.freed + Owes(t, c), Arrives(t, SwitchOn(c)) != [], Ends(t, c))
    }

    lemma Snapshot(before: map<Thread, Fields>)
      requires Valid() && before.Keys == s.place.Keys && forall u | u in s.place :: before[u] == View(u)
      ensures ThreadsWere(s, before)
      ensures forall d {:trigger CpuWas(s, d, before, current)} | 0 <= d < |idle| :: CpuWas(s, d, before, current)
    {
      forall u | u in s.place ensures Fits(before[u], s.place[u]) { assert Shape(u, s.place[u]); }
      forall d | 0 <= d < |idle| ensures CpuWas(s, d, before, current) {
        assert CpuShape(d) && CpuOk(s, d);
      }
    }

    lemma ValidIsSettled(c: nat, before: map<Thread, Fields>)
      requires Valid() && c < |idle| && before.Keys == s.place.Keys && forall u | u in s.place :: before[u] == View(u)
      ensures Settled(c, before)
    {
      assert CpuShape(c) && CpuOk(s, c);
      if s.slots[c].On? {
        assert Shape(s.slots[c].thread, s.place[s.slots[c].thread]);
      }
    }

    /** What the flags of the thread on a CPU mean for the state. */
    lemma Wants(c: nat)
      requires Valid() && c < |idle|
      ensures current[c] == Incumbent(s, c, idle[c])
      ensures (Arrives(s, SwitchOn(c)) != []) == (current[c] != null && !current[c].isPausing)
      ensures Ends(s, c) ==
              if current[c] != null && current[c].isPausing && current[c].isExiting then current[c] else null
      ensures Owes(s, c) == Carried(current[c])
    {
      assert CpuShape(c) && CpuOk(s, c);
      if s.slots[c].On? {
        assert Shape(s.slots[c].thread, s.place[s.slots[c].thread]);
      }
    }

    /** After a switch the threads look as the new state says; */
    lemma ThreadsSettle(t: State<Thread>, c: nat, before: map<Thread, Fields>, was: seq<Thread?>)
      requires Inv(t) && Switched(t, c, before, was) && s == Switch(t, c)
      ensures s.place.Keys == t.place.Keys && forall u | u in s.place :: Shape(u, s.place[u])
    {
      SwitchMoves(t, c);
      ArrivesIs(t, c, idle[c]);
      forall u | u in s.place ensures Shape(u, s.place[u]) {
        FitsAfter(t, c, idle[c], u, before[u]);
      }
    }

    /** so do the other CPUs; */
    lemma OthersSettle(t: State<Thread>, c: nat, d: nat, before: map<Thread, Fields>, was: seq<Thread?>)
      requires Inv(t) && Switched(t, c, before, was) && s == Switch(t, c)
      requires d < |t.slots| && d != c && CpuWas(t, d, before, was)
      ensures CpuShape(d)
    {
      SwitchIs(t, c);
      ArrivesIs(t, c, idle[c]);
      assert CpuOk(t, d);
      if t.slots[d].On? {
        OthersKeep(t, c, d, idle[c], t.slots[d].thread, before[t.slots[d].thread]);
      }
    }

    /** and the CPU itself. */
    lemma CpuSettles(t: State<Thread>, c: nat, before: map<Thread, Fields>, was: seq<Thread?>)
      requires Inv(t) && Switched(t, c, before, was) && s == Switch(t, c)
      ensures CpuShape(c)
    {
      SwitchIs(t, c);
      ArrivesIs(t, c, idle[c]);
      assert CpuOk(t, c);
      var q := t.queue + Arrives(t, SwitchOn(c));
      if q != [] {
        assert q[0] in t.place;
        StarterOwes(t, c, idle[c], before[q[0]]);
      }
    }

    /** A switch keeps the scheduler's data in agreement. */
    lemma Settles(t: State<Thread>, c: nat, before: map<Thread, Fields>, was: seq<Thread?>)
      requires Inv(t) && Switched(t, c, before, was) && s == Switch(t, c)
      requires forall d {:trigger CpuWas(t, d, before, was)} | 0 <= d < |idle| && d != c :: CpuWas(t, d, before, was)
      ensures Valid()
    {
      SwitchKeepsInv(t, c);
      SwitchIs(t, c);
      ArrivesIs(t, c, idle[c]);
      ThreadsSettle(t, c, before, was);
      CpuSettles(t, c, before, was);
      forall d | 0 <= d < |idle| ensures CpuShape(d) {
        if d != c { OthersSettle(t, c, d, before, was); }
      }
    }

    /** `scheduler_handler` */
    method Handle(c: nat)
      requires Valid() && c < |idle|
      modifies this, queue, idle[c], s.place.Keys
      ensures Valid() && s == Switch(old(s), c)
    {
      ghost var t, before, was := s, map u | u in s.place :: View(u), current;
      Snapshot(before);
      ValidIsSettled(c, before);
      Wants(c);
      Advance(c);
      PassOthers(c, t, before, was);
      Settles(t, c, before, was);
    }

    /** The switch leaves the other CPUs as they were. */
    method PassOthers(c: nat, ghost t: State<Thread>, ghost before: map<Thread, Fields>, ghost was: seq<Thread?>)
      requires Settled(c, before) && Inv(t) && c < |t.slots| && Distinct(idle) && was == current
      requires (Arrives(t, SwitchOn(c)) != []) == (current[c] != null && !current[c].isPausing)
      requires Ends(t, c) ==
               if current[c] != null && current[c].isPausing && current[c].isExiting then current[c] else null
      requires forall d | 0 <= d < |idle| :: idle[d] !in before
      requires forall d {:trigger CpuWas(t, d, before, was)} | 0 <= d < |idle| :: CpuWas(t, d, before, was)
      modifies this`current, this`handedOver, queue, idle[c], before.Keys
      ensures var log := old(handedOver) + old(Carried(current[c]));
        Passed(c, before, was, old(queue.q), log, Arrives(t, SwitchOn(c)) != [], Ends(t, c))
      ensures forall d {:trigger CpuWas(t, d, before, was)} | 0 <= d < |idle| && d != c :: CpuWas(t, d, before, was)
    {
      Pass(c, before, Arrives(t, SwitchOn(c)) != [], Ends(t, c));
      forall d | 0 <= d < |idle| && d != c ensures CpuWas(t, d, before, was) {
        assert old(CpuWas(t, d, before, was));
        Apart(idle, c, d);
      }
    }

    ghost method Advance(c: nat)
      requires Inv(s) && c < |s.slots|
      modifies this`s
      ensures s == Switch(old(s), c)
    {
      s := Switch(s, c);
    }
  }
}
