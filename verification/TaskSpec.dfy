/** What the task stacks of a location are meant to be: one mathematical stack for each
    live task, changed by the operations of src/measurement/SCOREP_Task.c, together with
    the number of 30-slot frames the stacks call for. */
module TaskSpec {
  import opened MachineWords
  import opened Wrappers
  import opened JenkinsHash

  type Region = uint32

  const STACK_SIZE: nat := 30

  datatype Op<T> =
    | Create(task: T)
    | Complete(task: T)
    | Switch(task: T)
    | Enter(region: Region)
    | Exit
    | Clear(task: T)

  /** The stacks of the live tasks; those that completed tasks left behind, as long as their
      objects are not used again; the task that enters and exits act on; the frames lost
      with tasks that were completed on a non-empty stack; and the largest demand so far. */
  datatype Tasks<T> =
    Tasks(stacks: map<T, seq<Region>>, left: map<T, seq<Region>>, current: Option<T>, leaked: nat, peak: nat)

  function Frames(depth: nat): nat { (depth + STACK_SIZE - 1) / STACK_SIZE }

  /** The frames the live stacks need; a sum over a map, one key at a time. */
  ghost function Need<T>(stacks: map<T, seq<Region>>): nat
    decreases |stacks|
  {
    if stacks == map[] then 0
    else
      var t :| t in stacks;
      Frames(|stacks[t]|) + Need(stacks - {t})
  }

  ghost function Demand<T>(s: Tasks<T>): nat { Need(s.stacks) + s.leaked }

  predicate Legal<T(==)>(s: Tasks<T>, op: Op<T>) {
    match op
    case Create(t) => t !in s.stacks
    case Complete(t) => t in s.stacks
    case Switch(t) => t in s.stacks
    case Enter(_) => s.current.Some? && s.current.value in s.stacks
    case Exit => s.current.Some? && s.current.value in s.stacks && s.stacks[s.current.value] != []
    case Clear(t) => t in s.stacks
  }

  function Push(st: seq<Region>, r: Region): seq<Region> { st + [r] }

  function Pop(st: seq<Region>): seq<Region> { if st == [] then [] else st[..|st| - 1] }

  ghost function Change<T>(s: Tasks<T>, stacks: map<T, seq<Region>>, leaked: nat): Tasks<T> {
    var demand := Need(stacks) + leaked;
    s.(stacks := stacks, leaked := leaked, peak := if s.peak < demand then demand else s.peak)
  }

  /** One operation; one the source excludes changes nothing. */
  ghost function Step<T>(s: Tasks<T>, op: Op<T>): Tasks<T> {
    if !Legal(s, op) then s else
    match op
    case Create(t) => Change(s, s.stacks[t := []], s.leaked).(left := s.left - {t})
    case Complete(t) =>
      Change(s, s.stacks - {t}, s.leaked + Frames(|s.stacks[t]|)).(left := s.left[t := s.stacks[t]])
    case Switch(t) => s.(current := Some(t))
    case Enter(r) => var t := s.current.value; Change(s, s.stacks[t := Push(s.stacks[t], r)], s.leaked)
    case Exit => var t := s.current.value; Change(s, s.stacks[t := Pop(s.stacks[t])], s.leaked)
    case Clear(t) => Change(s, s.stacks[t := []], s.leaked)
  }

  ghost function Start<T>(): Tasks<T> { Tasks(map[], map[], None, 0, 0) }

  ghost function Run<T>(log: seq<Op<T>>): Tasks<T> {
    if log == [] then Start() else Step(Run(log[..|log| - 1]), log[|log| - 1])
  }

  ghost predicate LegalRun<T>(log: seq<Op<T>>) {
    log == [] || (LegalRun(log[..|log| - 1]) && Legal(Run(log[..|log| - 1]), log[|log| - 1]))
  }

  lemma RunStep<T>(log: seq<Op<T>>, op: Op<T>)
    requires LegalRun(log) && Legal(Run(log), op)
    ensures LegalRun(log + [op]) && Run(log + [op]) == Step(Run(log), op)
  {
    hide Step, Legal;
    assert (log + [op])[..|log|] == log;
  }

  // --------------------------------------------------- the sum does not depend on order

  lemma {:induction false} NeedWithout<T>(stacks: map<T, seq<Region>>, t: T)
    requires t in stacks
    ensures Need(stacks) == Frames(|stacks[t]|) + Need(stacks - {t})
    decreases |stacks|
  {
    var u :| u in stacks && Need(stacks) == Frames(|stacks[u]|) + Need(stacks - {u});
    if u != t {
      NeedWithout(stacks - {u}, t);
      NeedWithout(stacks - {t}, u);
      assert stacks - {u} - {t} == stacks - {t} - {u};
    }
  }

  lemma NeedUpdate<T>(stacks: map<T, seq<Region>>, t: T, st: seq<Region>)
    ensures Need(stacks[t := st]) == Frames(|st|) + Need(stacks) - (if t in stacks then Frames(|stacks[t]|) else 0)
  {
    NeedWithout(stacks[t := st], t);
    if t in stacks {
      NeedWithout(stacks, t);
      assert stacks[t := st] - {t} == stacks - {t};
    } else {
      assert stacks[t := st] - {t} == stacks;
    }
  }

  /** One stack changes, all else stays: the step of enter, exit, clear and create. */
  lemma StepOneStack<T>(s: Tasks<T>, op: Op<T>, t: T, st: seq<Region>)
    requires Legal(s, op)
    requires match op {
      case Create(u) => u == t && st == []
      case Enter(r) => s.current.value == t && st == Push(s.stacks[t], r)
      case Exit => s.current.value == t && st == Pop(s.stacks[t])
      case Clear(u) => u == t && st == []
      case _ => false
    }
    ensures var s' := Step(s, op);
            s'.stacks == s.stacks[t := st] && s'.left == (if op.Create? then s.left - {t} else s.left) &&
            s'.current == s.current && s'.leaked == s.leaked &&
            Demand(s') == Demand(s) + Frames(|st|) - (if t in s.stacks then Frames(|s.stacks[t]|) else 0) &&
            s'.peak == if s.peak < Demand(s') then Demand(s') else s.peak
  {
    NeedUpdate(s.stacks, t, st);
    hide Need, Frames;
  }

  lemma StepClear<T>(s: Tasks<T>, t: T)
    requires t in s.stacks
    ensures var s' := Step(s, Clear(t));
            Legal(s, Clear(t)) && s'.stacks == s.stacks[t := []] && s'.left == s.left && s'.current == s.current &&
            Demand(s') == Demand(s) - Frames(|s.stacks[t]|) && (Demand(s) <= s.peak ==> s'.peak == s.peak)
  {
    StepOneStack(s, Clear(t), t, []);
    assert Frames(0) == 0;
    hide Need;
  }

  lemma StepExit<T>(s: Tasks<T>, t: T)
    requires s.current == Some(t) && t in s.stacks && s.stacks[t] != []
    ensures var s', n := Step(s, Op.Exit), |s.stacks[t]|;
            Legal(s, Op.Exit) && s'.stacks == s.stacks[t := Pop(s.stacks[t])] && s'.left == s.left &&
            s'.current == s.current && Demand(s') == Demand(s) + Frames(n - 1) - Frames(n) &&
            (Demand(s) <= s.peak ==> s'.peak == s.peak)
  {
    StepOneStack(s, Op.Exit, t, Pop(s.stacks[t]));
    assert Frames(|s.stacks[t]| - 1) <= Frames(|s.stacks[t]|);
    hide Need;
  }

  /** Completing a task keeps the demand: what its stack held is lost. */
  lemma StepComplete<T>(s: Tasks<T>, t: T)
    requires t in s.stacks
    ensures var s' := Step(s, Complete(t));
            s'.stacks == s.stacks - {t} && s'.current == s.current && Demand(s') == Demand(s) &&
            s'.left == s.left[t := s.stacks[t]] && s'.leaked == s.leaked + Frames(|s.stacks[t]|) &&
            s'.peak == if s.peak < Demand(s') then Demand(s') else s.peak
  {
    NeedWithout(s.stacks, t);
    hide Need, Frames;
  }

  /** What an enter or exit does to the stacks, read off the run. */
  lemma RunOneStack<T>(log: seq<Op<T>>, op: Op<T>)
    requires LegalRun(log) && Legal(Run(log), op) && (op.Enter? || op.Exit?)
    ensures var s := Run(log);
            var t := s.current.value;
            Run(log + [op]).current == s.current && Run(log + [op]).left == s.left &&
            Run(log + [op]).stacks == s.stacks[t :=
              if op.Enter? then Push(s.stacks[t], op.region) else Pop(s.stacks[t])]
  {
    var s := Run(log);
    var t := s.current.value;
    RunStep(log, op);
    StepOneStack(s, op, t, if op.Enter? then Push(s.stacks[t], op.region) else Pop(s.stacks[t]));
  }

  // ------------------------------------------------------------------- the stack hash

  /** One region more on the stack: jenkins_hash of the region's hash value, seeded with
      the hash so far. */
  function HashStep(hash: uint32, value: uint32): uint32 {
    Lookup3([value], Seed(4, hash, 0)).c
  }

  /** The hash of a stack, bottom to top, starting at the hash of the parent. */
  function HashFold(parent: uint32, st: seq<Region>, values: map<Region, uint32>): uint32
    requires forall r :: r in st ==> r in values
  {
    if st == [] then parent
    else HashStep(HashFold(parent, st[..|st| - 1], values), values[st[|st| - 1]])
  }

  /** What SCOREP_Task_GetRegionStackHash returns: an empty stack hashes to 0, whatever
      the parent. */
  function StackHash(parent: uint32, st: seq<Region>, values: map<Region, uint32>): uint32
    requires forall r :: r in st ==> r in values
  {
    if st == [] then 0 else HashFold(parent, st, values)
  }

  // --------------------------------------------------------------- tasks on their own

  datatype StackOp = Pushed(region: Region) | Popped | Emptied

  function Apply(st: seq<Region>, op: StackOp): seq<Region> {
    match op
    case Pushed(r) => Push(st, r)
    case Popped => Pop(st)
    case Emptied => []
  }

  function Replay(ops: seq<StackOp>): seq<Region> {
    if ops == [] then [] else Apply(Replay(ops[..|ops| - 1]), ops[|ops| - 1])
  }

  lemma ReplayStep(ops: seq<StackOp>, op: StackOp)
    ensures Replay(ops + [op]) == Apply(Replay(ops), op)
  {
    assert (ops + [op])[..|ops|] == ops;
  }

  /** How many more regions are entered than exited. */
  function Level(ops: seq<StackOp>): int {
    if ops == [] then 0
    else
      var op := ops[|ops| - 1];
      Level(ops[..|ops| - 1]) + (if op.Pushed? then 1 else if op.Popped? then -1 else 0)
  }

  /** Nothing is exited that was not entered in these operations. */
  predicate Above(ops: seq<StackOp>) {
    (forall n :: 0 <= n <= |ops| ==> Level(ops[..n]) >= 0) && forall k :: 0 <= k < |ops| ==> !ops[k].Emptied?
  }

  /** Such operations leave what was on the stack before in place. */
  lemma {:induction false} RestStays(before: seq<StackOp>, ops: seq<StackOp>)
    requires Above(ops)
    ensures var st := Replay(before + ops);
            Replay(before) <= st && |st| == |Replay(before)| + Level(ops)
    decreases |ops|
  {
    hide Replay;
    if ops == [] {
      assert before + ops == before;
    } else {
      var front, op := ops[..|ops| - 1], ops[|ops| - 1];
      assert forall n :: 0 <= n <= |front| ==> front[..n] == ops[..n];
      assert ops[..|ops|] == ops;
      RestStays(before, front);
      assert before + ops == before + front + [op];
      ReplayStep(before + front, op);
    }
  }

  /** An exit undoes its enter: the stack is the same again, and in between the region of the
      enter lies right above what was there before. */
  lemma ExitUndoesEnter(before: seq<StackOp>, r: Region, ops: seq<StackOp>)
    requires Above(ops) && Level(ops) == 0
    ensures Replay(before + [Pushed(r)] + ops) == Replay(before) + [r]
    ensures Replay(before + [Pushed(r)] + ops + [Popped]) == Replay(before)
  {
    ReplayStep(before, Pushed(r));
    RestStays(before + [Pushed(r)], ops);
    ReplayStep(before + [Pushed(r)] + ops, Popped);
  }

  function CurrentTask<T(==)>(log: seq<Op<T>>): Option<T> {
    if log == [] then None
    else if log[|log| - 1].Switch? then Some(log[|log| - 1].task)
    else CurrentTask(log[..|log| - 1])
  }

  /** The operations on one task's own stack since it was created: the enters and exits
      made while it was the current task, and its clears. */
  function Own<T(==)>(log: seq<Op<T>>, t: T): seq<StackOp> {
    if log == [] then []
    else
      var front := log[..|log| - 1];
      match log[|log| - 1]
      case Create(u) => if u == t then [] else Own(front, t)
      case Enter(r) => if CurrentTask(front) == Some(t) then Own(front, t) + [Pushed(r)] else Own(front, t)
      case Exit => if CurrentTask(front) == Some(t) then Own(front, t) + [Popped] else Own(front, t)
      case Clear(u) => if u == t then Own(front, t) + [Emptied] else Own(front, t)
      case _ => Own(front, t)
  }

  /** However the tasks of a location are interleaved, a live task's stack is the replay of
      its own operations, and so is what a completed one has left behind. */
  lemma {:induction false} Interleaving<T>(log: seq<Op<T>>, t: T)
    requires LegalRun(log)
    ensures Run(log).current == CurrentTask(log)
    ensures t in Run(log).stacks ==> Run(log).stacks[t] == Replay(Own(log, t))
    ensures t in Run(log).left ==> t !in Run(log).stacks && Run(log).left[t] == Replay(Own(log, t))
  {
    if log != [] {
      var front := log[..|log| - 1];
      Interleaving(front, t);
      var own := Own(front, t);
      match log[|log| - 1] {
        case Enter(r) => ReplayStep(own, Pushed(r));
        case Exit => ReplayStep(own, Popped);
        case Clear(u) => ReplayStep(own, Emptied);
        case _ =>
      }
    }
  }

  /** The current task is live, or completed and its object not used again. */
  lemma {:induction false} CurrentKnown<T>(log: seq<Op<T>>)
    requires LegalRun(log) && Run(log).current.Some?
    ensures var t := Run(log).current.value; t in Run(log).stacks || t in Run(log).left
  {
    hide Need, Frames;
    var front := log[..|log| - 1];
    if Run(front).current.Some? { CurrentKnown(front); }
  }

  // ------------------------------------------------------------------- the peak demand

  lemma StepPeak<T>(s: Tasks<T>, op: Op<T>)
    requires Demand(s) <= s.peak
    ensures var t := Step(s, op); t.peak == if s.peak < Demand(t) then Demand(t) else s.peak
  {
    hide Need, Frames;
  }

  /** The peak is the largest demand of any moment of the run. */
  lemma {:induction false} PeakBoundsDemand<T>(log: seq<Op<T>>, n: nat)
    requires n <= |log|
    ensures Demand(Run(log[..n])) <= Run(log).peak
    decreases |log|
  {
    hide Step, Demand;
    if log == [] {
      assert Demand(Start<T>()) == 0 by { EmptyDemand<T>(); }
    } else {
      var front := log[..|log| - 1];
      PeakBoundsDemand(front, |front|);
      assert front[..|front|] == front;
      StepPeak(Run(front), log[|log| - 1]);
      if n < |log| {
        PeakBoundsDemand(front, n);
        assert front[..n] == log[..n];
      } else {
        assert log[..n] == log;
      }
    }
  }

  lemma EmptyDemand<T>()
    ensures Demand(Start<T>()) == 0
  {}

  lemma EmptyRun<T>(log: seq<Op<T>>)
    requires log == []
    ensures LegalRun(log) && Run(log) == Start() && Demand(Run(log)) == 0
  {
    assert LegalRun(log) by { hide Run, Step, Demand; }
    assert Run(log) == Start() by { hide LegalRun, Step, Demand; }
    hide *;
    EmptyDemand<T>();
  }

  lemma {:induction false} PeakIsReached<T>(log: seq<Op<T>>) returns (n: nat)
    ensures n <= |log| && Demand(Run(log[..n])) == Run(log).peak
  {
    hide Step, Demand;
    if log == [] {
      n := 0;
      EmptyDemand<T>();
    } else {
      var front := log[..|log| - 1];
      PeakBoundsDemand(front, |front|);
      assert front[..|front|] == front;
      StepPeak(Run(front), log[|log| - 1]);
      if Run(log).peak == Run(front).peak {
        n := PeakIsReached(front);
        assert front[..n] == log[..n];
      } else {
        n := |log|;
        assert log[..n] == log;
      }
    }
  }

  /** No frame is lost exactly when every task was completed on an empty stack. */
  ghost predicate CompletedEmpty<T>(log: seq<Op<T>>)
    requires LegalRun(log)
  {
    log == [] ||
    (CompletedEmpty(log[..|log| - 1]) &&
     (log[|log| - 1].Complete? ==> Run(log[..|log| - 1]).stacks[log[|log| - 1].task] == []))
  }

  lemma {:induction false} LeakIff<T>(log: seq<Op<T>>)
    requires LegalRun(log)
    ensures Run(log).leaked == 0 <==> CompletedEmpty(log)
  {
    if log != [] {
      LeakIff(log[..|log| - 1]);
    }
  }

  /** What is left behind is nothing then. */
  lemma {:induction false} NothingLeft<T>(log: seq<Op<T>>)
    requires LegalRun(log) && CompletedEmpty(log)
    ensures forall t :: t in Run(log).left ==> Run(log).left[t] == []
  {
    if log != [] {
      NothingLeft(log[..|log| - 1]);
      hide Need, Frames;
    }
  }

  /** A run in which frames are lost: a task is completed inside a region. */
  function LeakingRun<T>(t: T, r: Region): seq<Op<T>> { [Op.Create(t), Op.Switch(t), Op.Enter(r), Op.Complete(t)] }

  lemma FrameLost<T>(t: T, r: Region)
    ensures LegalRun(LeakingRun(t, r)) && Run(LeakingRun(t, r)).leaked == 1 && Run(LeakingRun(t, r)).stacks == map[]
  {
    hide LegalRun, Run, Step, Demand;
    var run: seq<Op<T>> := [];
    EmptyRun(run);
    StepOneStack(Run(run), Op.Create(t), t, []);
    RunStep(run, Op.Create(t));
    run := run + [Op.Create(t)];
    SwitchStep(Run(run), t);
    RunStep(run, Op.Switch(t));
    run := run + [Op.Switch(t)];
    StepOneStack(Run(run), Op.Enter(r), t, [r]);
    RunStep(run, Op.Enter(r));
    run := run + [Op.Enter(r)];
    StepComplete(Run(run), t);
    RunStep(run, Op.Complete(t));
    assert run + [Op.Complete(t)] == LeakingRun(t, r);
  }

  lemma SwitchStep<T>(s: Tasks<T>, t: T)
    requires t in s.stacks
    ensures Step(s, Op.Switch(t)) == s.(current := Some(t))
  {}

  lemma {:induction false} PrefixLegal<T>(log: seq<Op<T>>, n: nat)
    requires n <= |log| && LegalRun(log) && CompletedEmpty(log)
    ensures LegalRun(log[..n]) && CompletedEmpty(log[..n])
    decreases |log|
  {
    if n < |log| {
      PrefixLegal(log[..|log| - 1], n);
      assert log[..|log| - 1][..n] == log[..n];
    } else {
      assert log[..n] == log;
    }
  }

  /** If tasks are only completed on empty stacks, the peak is the largest number of frames
      that the live stacks of any moment called for. */
  lemma PeakOfStacks<T>(log: seq<Op<T>>)
    requires LegalRun(log) && CompletedEmpty(log)
    ensures Demand(Run(log)) == Need(Run(log).stacks)
    ensures forall n: nat :: n <= |log| ==> Need(Run(log[..n]).stacks) <= Run(log).peak
    ensures exists n: nat :: n <= |log| && Need(Run(log[..n]).stacks) == Run(log).peak
  {
    hide Run, LegalRun, CompletedEmpty, Need;
    forall n: nat | n <= |log|
      ensures Need(Run(log[..n]).stacks) == Demand(Run(log[..n])) <= Run(log).peak
    {
      PrefixLegal(log, n);
      LeakIff(log[..n]);
      PeakBoundsDemand(log, n);
    }
    assert log[..|log|] == log;
    var n := PeakIsReached(log);
    assert Need(Run(log[..n]).stacks) == Run(log).peak;
  }
}
