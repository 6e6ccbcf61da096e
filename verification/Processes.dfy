/** Which processes are in use: what execute and halt do to them, and what every run makes of them. */
module Processes {
  import opened Bytes
  import opened FileSystem
  import opened Descriptors

  predicate InUse(s: State, p: nat) {
    p < |s.pcbs| && s.pcbs[p].inUse
  }

  predicate AllInUse(s: State) {
    forall p :: 0 <= p < PCB_COUNT ==> InUse(s, p)
  }

  lemma FreePcbExactly(s: State)
    requires |s.pcbs| == PCB_COUNT
    ensures FreePcb(s.pcbs, 0) == PCB_COUNT <==> AllInUse(s)
  {
    var p := FreePcb(s.pcbs, 0);
    assert p < PCB_COUNT ==> !InUse(s, p);
  }

  /** An execute fails if and only if its program does not load or all six processes are in use. */
  lemma ExecuteFailsExactly(s: State, ok: bool)
    requires |s.pcbs| == PCB_COUNT
    ensures ExecuteStep(s, ok).ret == -1 <==> !ok || AllInUse(s)
    ensures ExecuteStep(s, ok).ret == -1 || ExecuteStep(s, ok).ret == 0
  {
    FreePcbExactly(s);
  }

  /**
   * After an execute the processes in use are those of before, and with success one more, which is the one that
   * runs now; without success the same one runs.
   */
  lemma ExecuteUsesOne(s: State, ok: bool, p: nat)
    requires |s.pcbs| == PCB_COUNT && p < PCB_COUNT
    ensures var o := ExecuteStep(s, ok);
            && |o.state.pcbs| == PCB_COUNT
            && (InUse(o.state, p) <==> InUse(s, p) || (o.ret == 0 && p == o.state.pid))
            && (o.ret == 0 ==> o.state.pid < PCB_COUNT && !InUse(s, o.state.pid)
                               && forall q :: 0 <= q < o.state.pid ==> InUse(s, q))
            && (o.ret != 0 ==> o.state.pid == s.pid)
            && (InUse(s, p) ==> o.state.pcbs[p] == s.pcbs[p])
  {
    FreePcbExactly(s);
  }

  /** After a halt the process that ran is not in use, every other process is as it was, and the given one runs. */
  lemma HaltFreesProcess(disk: Disk, s: State, next: nat, p: nat)
    requires ValidState(disk.img, s) && p < PCB_COUNT
    ensures var t := HaltStep(s, next).state;
            && |t.pcbs| == PCB_COUNT && t.pid == next
            && (InUse(t, p) <==> InUse(s, p) && p != s.pid)
            && (p != s.pid ==> t.pcbs[p] == s.pcbs[p])
            && forall fd :: 2 <= fd < MAX_FD ==> !t.Entry(s.pid, fd).used
  {
    CloseFromKeepsValid(disk, s, 0);
    if p != s.pid {
      CloseFromIsLocal(disk, s, 0, p);
    }
    forall fd | 2 <= fd < MAX_FD ensures !HaltStep(s, next).state.Entry(s.pid, fd).used {
      CloseFromCloses(disk, s, 0, fd);
    }
  }

  /** Opens, closes and reads use and free no process. */
  lemma OthersKeepProcesses(disk: Disk, s: State, ev: Event, p: nat)
    requires disk.Valid() && ValidState(disk.img, s) && ValidEvent(ev) && p < PCB_COUNT
    requires ev.Open? || ev.Close? || ev.Read?
    ensures var t := Step(disk, s, ev).state;
            |t.pcbs| == PCB_COUNT && t.pid == s.pid && (InUse(t, p) <==> InUse(s, p))
  {
    StepKeepsValid(disk, s, ev);
  }

  /** Process numbers alone: those alive, and the one that runs. */
  datatype Pool = Pool(alive: set<nat>, running: nat)

  /** The least number that is not alive, among the six. */
  function LeastFree(alive: set<nat>, from: nat): (r: nat)
    requires from <= PCB_COUNT
    ensures from <= r <= PCB_COUNT && (r < PCB_COUNT ==> r !in alive)
    ensures forall p :: from <= p < r ==> p in alive
    decreases PCB_COUNT - from
  {
    if from == PCB_COUNT || from !in alive then from else LeastFree(alive, from + 1)
  }

  /** A program that loads comes alive under the least free number, if there is one; a halt ends the one that runs. */
  function PoolStep(q: Pool, ev: Event): Pool {
    match ev
    case Execute(ok) =>
      var p := LeastFree(q.alive, 0);
      if ok && p < PCB_COUNT then Pool(q.alive + {p}, p) else q
    case Halt(next) => Pool(q.alive - {q.running}, next)
    case _ => q
  }

  function PoolRun(es: seq<Event>): Pool {
    if es == [] then Pool({}, 0) else PoolStep(PoolRun(es[..|es| - 1]), es[|es| - 1])
  }

  /** The process table shows exactly the pool. */
  ghost predicate Shows(s: State, q: Pool) {
    && |s.pcbs| == PCB_COUNT && s.pid == q.running
    && forall p: nat :: p in q.alive <==> p < PCB_COUNT && InUse(s, p)
  }

  lemma StepShowsPool(disk: Disk, s: State, ev: Event, q: Pool)
    requires disk.Valid() && ValidState(disk.img, s) && ValidEvent(ev) && Shows(s, q)
    ensures Shows(Step(disk, s, ev).state, PoolStep(q, ev))
  {
    hide ExecuteStep, HaltStep, OpenStep, CloseStep, ReadStep, ValidState;
    match ev
    case Execute(ok) => ExecuteShowsPool(s, ok, q);
    case Halt(next) =>
      forall p: nat | p < PCB_COUNT ensures InUse(HaltStep(s, next).state, p) <==> InUse(s, p) && p != s.pid {
        HaltFreesProcess(disk, s, next, p);
      }
      HaltFreesProcess(disk, s, next, 0);
    case _ =>
      forall p: nat | p < PCB_COUNT ensures InUse(Step(disk, s, ev).state, p) <==> InUse(s, p) {
        OthersKeepProcesses(disk, s, ev, p);
      }
      OthersKeepProcesses(disk, s, ev, 0);
  }

  lemma ExecuteShowsPool(s: State, ok: bool, q: Pool)
    requires Shows(s, q)
    ensures Shows(ExecuteStep(s, ok).state, PoolStep(q, Execute(ok)))
  {
    hide ExecuteStep;
    var o := ExecuteStep(s, ok);
    ExecuteFailsExactly(s, ok);
    forall p: nat | p < PCB_COUNT
      ensures InUse(o.state, p) <==> InUse(s, p) || (o.ret == 0 && p == o.state.pid)
    {
      ExecuteUsesOne(s, ok, p);
    }
    ExecuteUsesOne(s, ok, 0);
    var p := LeastFree(q.alive, 0);
    if p < PCB_COUNT {
      assert !InUse(s, p);
    } else {
      assert forall r: nat :: r < PCB_COUNT ==> r in q.alive && InUse(s, r);
    }
    if o.ret == 0 {
      assert o.state.pid !in q.alive;
      assert p == o.state.pid;
    }
  }

  /** Over every run the processes in use are exactly those executed and not yet halted; the pool says which runs. */
  lemma {:induction false} RunShowsPool(disk: Disk, es: seq<Event>)
    requires ValidRun(disk, es)
    ensures Shows(Descriptors.Run(disk, es), PoolRun(es))
  {
    if es != [] {
      RunShowsPool(disk, es[..|es| - 1]);
      StepShowsPool(disk, Descriptors.Run(disk, es[..|es| - 1]), es[|es| - 1], PoolRun(es[..|es| - 1]));
    }
  }

  /** After any run a program that loads is refused if and only if six processes are alive. */
  lemma SixAtOnceExactly(disk: Disk, es: seq<Event>)
    requires ValidRun(disk, es)
    ensures ExecuteStep(Descriptors.Run(disk, es), true).ret == -1 <==> |PoolRun(es).alive| == PCB_COUNT
  {
    var s, alive := Descriptors.Run(disk, es), PoolRun(es).alive;
    hide ExecuteStep, Descriptors.Run, PoolRun;
    RunShowsPool(disk, es);
    ExecuteFailsExactly(s, true);
    forall p: nat | p in alive ensures p in {0, 1, 2, 3, 4, 5} {
    }
    SixAreAll(alive);
  }

  lemma SixAreAll(alive: set<nat>)
    requires alive <= {0, 1, 2, 3, 4, 5}
    ensures |alive| == PCB_COUNT <==> forall p: nat :: p < PCB_COUNT ==> p in alive
  {
    var all: set<nat> := {0, 1, 2, 3, 4, 5};
    assert |all| == 6;
    if p: nat :| p < PCB_COUNT && p !in alive {
      SubsetIsSmaller(alive, all - {p});
    } else {
      assert alive == all;
    }
  }
}
