/**
  The process queue: a linked list extended at its end by fork, and walked by the timer. The
  guard that leaves the last process running makes the wrap-around behind it unreachable, so the
  running process only ever moves towards the end of the list.
 */
module ProcQueue {

  datatype Regs = Regs(eip: int, esp: int, ebp: int)

  class Proc {
    var id: int
    var regs: Regs
    var pd: int
    var next: Proc?

    constructor (id: int, pd: int)
      ensures this.id == id && this.pd == pd && regs == Regs(0, 0, 0) && next == null
    {
      this.id, this.pd, regs, next := id, pd, Regs(0, 0, 0), null;
    }
  }

  ghost function Saved(q: seq<Proc>): (r: seq<Regs>)
    reads q
    ensures |r| == |q| && forall i :: 0 <= i < |q| ==> r[i] == q[i].regs
  {
    seq(|q|, i requires 0 <= i < |q| reads q => q[i].regs)
  }

  ghost function Directories(q: seq<Proc>): (r: seq<int>)
    reads q
    ensures |r| == |q| && forall i :: 0 <= i < |q| ==> r[i] == q[i].pd
  {
    seq(|q|, i requires 0 <= i < |q| reads q => q[i].pd)
  }

  lemma OneMoreProcess(q: seq<Proc>, p: Proc)
    ensures Saved(q + [p]) == Saved(q) + [p.regs] && Directories(q + [p]) == Directories(q) + [p.pd]
  {
  }

  /** The queue as a value: what each process has saved, and which one runs. */
  datatype View = View(saved: seq<Regs>, pds: seq<int>, running: int)

  function Forked(v: View, pd: int, regs: Regs): View {
    View(v.saved + [regs], v.pds + [pd], v.running)
  }

  /** A timer tick while the running process has the registers `regs`. */
  function Switched(v: View, regs: Regs): View {
    if 0 <= v.running < |v.saved| - 1 then View(v.saved[v.running := regs], v.pds, v.running + 1) else v
  }

  /** PIDs count up from 1, and the links run through the processes of `q` and end there. */
  ghost predicate Chained(q: seq<Proc>)
    reads q
  {
    && |q| >= 1
    && (forall i :: 0 <= i < |q| ==> q[i].id == i + 1)
    && (forall i, j :: 0 <= i < |q| - 1 && j == i + 1 ==> q[i].next == q[j])
    && q[|q| - 1].next == null
  }

  /** PIDs differ, so processes do. */
  lemma Different(q: seq<Proc>)
    requires Chained(q)
    ensures forall i, j :: 0 <= i < j < |q| ==> q[i] != q[j]
  {
    assert forall i :: 0 <= i < |q| ==> q[i].id == i + 1;
  }

  /** Hangs `child` behind the last process and saves its registers; nothing else changes. */
  method Enqueue(last: Proc, child: Proc, regs: Regs, ghost q: seq<Proc>)
    requires Chained(q) && last == q[|q| - 1] && child !in q && child.id == |q| + 1 && child.next == null
    modifies last`next, child`regs
    ensures Chained(q + [child]) && child.regs == regs
    ensures Saved(q) == old(Saved(q)) && Directories(q) == old(Directories(q))
  {
    hide Saved, Directories;
    Different(q);
    last.next := child;
    child.regs := regs;
    ghost var r := q + [child];
    assert forall i :: 0 <= i < |q| ==> r[i] == q[i];
    assert forall i :: 0 <= i < |q| - 1 ==> q[i].next == old(q[i].next);
  }

  class Scheduler {
    var current: Proc
    const readyQueue: Proc
    var nextPid: int
    ghost var queue: seq<Proc>
    ghost var at: int

    /** The links run through the queue without a cycle, PIDs count up from 1, and the running process is on it. */
    ghost predicate Valid()
      reads this, queue
    {
      && Chained(queue) && readyQueue == queue[0] && nextPid == |queue| + 1
      && 0 <= at < |queue| && current == queue[at]
    }

    ghost function Look(): View
      reads this, queue
    {
      View(Saved(queue), Directories(queue), at)
    }

    constructor (pd: int)
      ensures Valid() && Look() == View([Regs(0, 0, 0)], [pd], 0) && fresh(queue)
    {
      var p := new Proc(1, pd);
      current, readyQueue, nextPid := p, p, 2;
      queue, at := [p], 0;
    }

    /** Follows the links to the end of the queue. */
    method FindLast() returns (last: Proc)
      requires Valid()
      ensures last == queue[|queue| - 1]
    {
      last := readyQueue;
      ghost var i := 0;
      while last.next != null
        invariant 0 <= i < |queue| && last == queue[i] && (i < |queue| - 1 ==> last.next == queue[i + 1])
        decreases |queue| - i
      {
        last := last.next;
        i := i + 1;
      }
    }

    /** Appends a child at the end of the queue; the parent goes on and gets its PID. */
    method Fork(pd: int, regs: Regs) returns (pid: int)
      requires Valid()
      modifies this, queue
      ensures Valid() && Look() == Forked(old(Look()), pd, regs)
      ensures old(queue) < queue && fresh(queue[|queue| - 1]) && pid == |queue|
    {
      hide Saved, Directories, Chained;
      ChainLength();
      ghost var q, saved, pds := queue, Saved(queue), Directories(queue);
      var last := FindLast();
      var child := new Proc(nextPid, pd);
      assert Saved(q) == saved && Directories(q) == pds && last in q;
      Enqueue(last, child, regs, q);
      OneMoreProcess(q, child);
      nextPid := nextPid + 1;
      queue := q + [child];
      pid := child.id;
      assert Saved(queue) == saved + [regs] && Directories(queue) == pds + [pd];
    }

    lemma ChainLength()
      requires Chained(queue)
      ensures |queue| >= 1
    {
    }

    /** The timer tick: the registers are saved and the next process resumes with its own. */
    method Switch(regs: Regs) returns (resumed: Regs, pd: int)
      requires Valid()
      modifies this`current, this`at, queue
      ensures Valid() && queue == old(queue) && Look() == Switched(old(Look()), regs)
      ensures old(at) < |queue| - 1 ==> resumed == old(queue[at + 1].regs) && pd == old(queue[at + 1].pd)
      ensures old(at) == |queue| - 1 ==> resumed == regs && pd == old(current.pd)
    {
      hide Saved, Directories;
      Different(queue);
      assert at < |queue| - 1 ==> queue[at].next == queue[at + 1];
      if current.next == null {
        return regs, current.pd;
      }
      current.regs := regs;
      current := current.next;
      at := at + 1;
      resumed, pd := current.regs, current.pd;
    }
  }

  // ---------------------------------------------------------------- whole runs

  datatype Event = ForkIt(pd: int, regs: Regs) | Tick(regs: Regs)

  function After(v: View, e: Event): View {
    match e
    case ForkIt(pd, regs) => Forked(v, pd, regs)
    case Tick(regs) => Switched(v, regs)
  }

  function Run(v: View, es: seq<Event>): View
    decreases |es|
  {
    if es == [] then v else Run(After(v, es[0]), es[1..])
  }

  /** Ticks and forks in a run. */
  function Ticks(es: seq<Event>): nat {
    if es == [] then 0 else (if es[0].Tick? then 1 else 0) + Ticks(es[1..])
  }

  /** The registers and the directories of the forks of a run, in order. */
  function ForkRegs(es: seq<Event>): seq<Regs> {
    if es == [] then [] else (if es[0].ForkIt? then [es[0].regs] else []) + ForkRegs(es[1..])
  }

  function ForkDirectories(es: seq<Event>): seq<int> {
    if es == [] then [] else (if es[0].ForkIt? then [es[0].pd] else []) + ForkDirectories(es[1..])
  }

  /**
    The registers at the ticks of a run that move on, when `behind` processes wait behind the running one: a
    fork adds one, such a tick takes one, and with none there is nothing to move on to.
   */
  function LeftWith(behind: nat, es: seq<Event>): seq<Regs>
    decreases |es|
  {
    if es == [] then []
    else if es[0].ForkIt? then LeftWith(behind + 1, es[1..])
    else if behind == 0 then LeftWith(0, es[1..])
    else [es[0].regs] + LeftWith(behind - 1, es[1..])
  }

  /**
    From `v` to `w` the processes left behind have saved `left`; the running one and those behind it still
    have the registers they came with, the new ones `forks`; and the directories `dirs` were added.
   */
  ghost predicate Leads(v: View, w: View, left: seq<Regs>, forks: seq<Regs>, dirs: seq<int>) {
    var all := v.saved + forks;
    && 0 <= v.running <= w.running == v.running + |left| < |all| && w.pds == v.pds + dirs
    && w.saved == all[..v.running] + left + all[w.running..]
  }

  lemma LeadsNowhere(v: View)
    requires 0 <= v.running < |v.saved|
    ensures Leads(v, v, [], [], [])
  {
    assert v.saved + [] == v.saved && v.pds + [] == v.pds;
  }

  lemma {:induction false} LeadsByFork(v: View, w: View, pd: int, r: Regs,
                                       left: seq<Regs>, forks: seq<Regs>, dirs: seq<int>)
    requires Leads(Forked(v, pd, r), w, left, forks, dirs)
    ensures Leads(v, w, left, [r] + forks, [pd] + dirs)
  {
    assert v.saved + ([r] + forks) == v.saved + [r] + forks;
    assert v.pds + ([pd] + dirs) == v.pds + [pd] + dirs;
  }

  lemma {:induction false} LeadsByTick(v: View, w: View, r: Regs, left: seq<Regs>, forks: seq<Regs>, dirs: seq<int>)
    requires 0 <= v.running < |v.saved| - 1 && Leads(Switched(v, r), w, left, forks, dirs)
    ensures Leads(v, w, [r] + left, forks, dirs)
  {
    var i, all, all' := v.running, v.saved + forks, v.saved[v.running := r] + forks;
    assert all'[..i + 1] == all[..i] + [r] && all'[w.running..] == all[w.running..];
    assert all[..i] + [r] + left == all[..i] + ([r] + left);
  }

  /**
    A whole run, by counting alone: every process left behind has saved the registers of the tick that left
    it; the running process and those behind it still have the ones they came with, in the order of the
    forks; and directories are only ever added.
   */
  lemma {:induction false} RunExact(v: View, es: seq<Event>)
    requires 0 <= v.running < |v.saved| == |v.pds|
    ensures Leads(v, Run(v, es), LeftWith(|v.saved| - 1 - v.running, es), ForkRegs(es), ForkDirectories(es))
    decreases |es|
  {
    hide Leads;
    if es == [] {
      LeadsNowhere(v);
    } else {
      var u, rest := After(v, es[0]), es[1..];
      RunExact(u, rest);
      var left := LeftWith(|u.saved| - 1 - u.running, rest);
      match es[0]
      case ForkIt(pd, regs) =>
        LeadsByFork(v, Run(u, rest), pd, regs, left, ForkRegs(rest), ForkDirectories(rest));
      case Tick(regs) =>
        assert ForkRegs(es) == ForkRegs(rest) && ForkDirectories(es) == ForkDirectories(rest);
        if v.running < |v.saved| - 1 {
          LeadsByTick(v, Run(u, rest), regs, left, ForkRegs(rest), ForkDirectories(rest));
        }
    }
  }

  /**
    Over every run the running process only moves forward, one place a tick at most, a process it
    has left never runs again, and what that process saved stays as it was.
   */
  lemma {:induction false} OnlyForward(v: View, es: seq<Event>)
    requires 0 <= v.running < |v.saved| == |v.pds|
    ensures var w := Run(v, es);
            && v.running <= w.running <= v.running + Ticks(es) && w.running < |w.saved| == |w.pds|
            && |v.saved| <= |w.saved| && v.pds <= w.pds
            && forall k :: 0 <= k < v.running ==> w.saved[k] == v.saved[k]
    decreases |es|
  {
    if es != [] {
      OnlyForward(After(v, es[0]), es[1..]);
    }
  }

  /** With no forks, ticks alone carry the machine to the last process, where it stays. */
  lemma {:induction false} EndsAtTheLast(v: View, es: seq<Event>)
    requires 0 <= v.running < |v.saved| == |v.pds| && forall k :: 0 <= k < |es| ==> es[k].Tick?
    ensures Run(v, es).running == if v.running + |es| < |v.saved| then v.running + |es| else |v.saved| - 1
    ensures |Run(v, es).saved| == |v.saved|
    decreases |es|
  {
    if es != [] {
      EndsAtTheLast(After(v, es[0]), es[1..]);
    }
  }
}
