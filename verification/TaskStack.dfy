/** The task objects of a location, src/measurement/SCOREP_Task.c: stacks kept as linked
    lists of 30-slot frames, with frames and task objects recycled through free lists.

    `log` records the operations of the run so far, and `Valid` says that the linked
    structure represents exactly what TaskSpec makes of that run. */
module TaskStack {
  import opened MachineWords
  import opened Wrappers
  import opened TaskSpec
  import opened JenkinsHash

  const INVALID_REGION: Region := 0

  /** The array of regions is part of the frame itself, so it is a field without an identity
      of its own.  The ghost fields say which list the frame is in, and where. */
  class Frame {
    var regions: seq<Region>
    var prev: Frame?
    ghost var owner: object?
    ghost var level: nat

    constructor ()
      ensures |regions| == STACK_SIZE
    {
      regions := seq(STACK_SIZE, _ => 0);
    }
  }

  class Task {
    var current_frame: Frame?
    var current_index: uint32
    var thread_id: uint32
    var generation_number: uint32
    var parent_hash_value: uint32
    var next: Task?
    ghost var slot: nat

    constructor () {
      current_frame, next, current_index, thread_id, generation_number, parent_hash_value := null, null, 0, 0, 0, 0;
    }
  }

  /** fs, bottom first, is a linked list of whole frames that all belong to o. */
  ghost predicate Chain(fs: seq<Frame>, o: object)
    reads fs`owner, fs`level, fs`regions, fs`prev
  {
    (forall i :: 0 <= i < |fs| ==> fs[i].owner == o && fs[i].level == i && |fs[i].regions| == STACK_SIZE) &&
    (fs != [] ==> fs[0].prev == null) &&
    (forall i {:trigger fs[i].prev} :: 0 < i < |fs| ==> fs[i].prev == fs[i - 1])
  }

  ghost function Top<T>(s: seq<T>): T
    requires s != []
  {
    s[|s| - 1]
  }

  ghost function Below<T>(s: seq<T>): seq<T> { if s == [] then [] else s[..|s| - 1] }

  /** The frames hold the stack, 30 regions to a frame. */
  ghost predicate Holds(fs: seq<Frame>, st: seq<Region>)
    reads fs`regions
  {
    |fs| == Frames(|st|) &&
    (forall i :: 0 <= i < |fs| ==> |fs[i].regions| == STACK_SIZE) &&
    forall k :: 0 <= k < |st| ==> st[k] == fs[k / STACK_SIZE].regions[k % STACK_SIZE]
  }

  ghost predicate Represents(t: Task, fs: seq<Frame>, st: seq<Region>)
    reads t`current_frame, t`current_index, fs`owner, fs`level, fs`regions, fs`prev
  {
    Chain(fs, t) && Holds(fs, st) &&
    t.current_frame == (if fs == [] then null else Top(fs)) &&
    t.current_index == if fs == [] then STACK_SIZE - 1 else (|st| - 1) % STACK_SIZE
  }

  /** What that means, slot by slot: 30 regions to a frame, each frame linked to the one
      below, the top one up to the index in use; without a frame the index is 29. */
  lemma RepresentsIs(t: Task, fs: seq<Frame>, st: seq<Region>)
    requires Represents(t, fs, st)
    ensures |fs| == (|st| + 29) / 30 && forall k :: 0 <= k < |st| ==> st[k] == fs[k / 30].regions[k % 30]
    ensures forall i :: 0 <= i < |fs| ==>
      fs[i].prev == (if i == 0 then null else fs[i - 1]) && |fs[i].regions| == 30
    ensures if st == [] then t.current_frame == null && t.current_index == 29
            else fs != [] && t.current_frame == fs[|fs| - 1] && t.current_index == (|st| - 1) % 30
  {}

  /** Where slot n of a stack lies: in a new frame, or in the top one. */
  lemma SlotArithmetic(n: nat)
    ensures n % STACK_SIZE == 0 ==> Frames(n + 1) == Frames(n) + 1 && n / STACK_SIZE == Frames(n)
    ensures n % STACK_SIZE != 0 ==> Frames(n + 1) == Frames(n) > 0 && n / STACK_SIZE == Frames(n) - 1
    ensures n > 0 ==> (n - 1) % STACK_SIZE == (if n % STACK_SIZE == 0 then STACK_SIZE - 1 else n % STACK_SIZE - 1)
    ensures n == 0 <==> Frames(n) == 0
  {}

  lemma SlotsBelow(n: nat, k: nat)
    requires k < n
    ensures k / STACK_SIZE < Frames(n) && k % STACK_SIZE < STACK_SIZE
    ensures k / STACK_SIZE == n / STACK_SIZE ==> k % STACK_SIZE < n % STACK_SIZE
  {}

  // ------------------------------------------------- one task and its list of frames

  lemma Shape(t: Task, fs: seq<Frame>, st: seq<Region>)
    requires Represents(t, fs, st)
    ensures |fs| == Frames(|st|) && (t.current_frame == null <==> st == [])
    ensures t.current_index <= STACK_SIZE - 1
    ensures t.current_index < STACK_SIZE - 1 ==> Frames(|st| + 1) == Frames(|st|)
    ensures t.current_index == STACK_SIZE - 1 ==> Frames(|st| + 1) == Frames(|st|) + 1
    ensures st != [] && t.current_index > 0 ==> Frames(|st| - 1) == Frames(|st|)
    ensures st != [] && t.current_index == 0 ==> Frames(|st| - 1) == Frames(|st|) - 1
    ensures st != [] ==> t.current_frame.regions[t.current_index] == Top(st)
  {
    SlotArithmetic(|st|);
    if st != [] {
      SlotArithmetic(|st| - 1);
    }
  }

  method PushInFrame(t: Task, region: Region, ghost fs: seq<Frame>, ghost st: seq<Region>)
    requires Represents(t, fs, st) && t.current_index < STACK_SIZE - 1
    modifies t`current_index, fs`regions
    ensures Represents(t, fs, Push(st, region))
  {
    SlotArithmetic(|st|);
    t.current_index := t.current_index + 1;
    t.current_frame.regions := t.current_frame.regions[t.current_index := region];
    forall k | 0 <= k < |st| ensures st[k] == fs[k / STACK_SIZE].regions[k % STACK_SIZE] {
      SlotsBelow(|st|, k);
    }
  }

  method PushNewFrame(t: Task, f: Frame, region: Region, ghost fs: seq<Frame>, ghost st: seq<Region>)
    requires Represents(t, fs, st) && t.current_index == STACK_SIZE - 1
    requires f !in fs && |f.regions| == STACK_SIZE
    modifies t`current_frame, t`current_index, f`prev, f`regions, f`owner, f`level
    ensures Represents(t, fs + [f], Push(st, region))
  {
    SlotArithmetic(|st|);
    f.prev := t.current_frame;
    t.current_frame := f;
    t.current_frame.regions := t.current_frame.regions[0 := region];
    t.current_index := 0;
    f.owner, f.level := t, |fs|;
    forall k | 0 <= k < |st| ensures st[k] == (fs + [f])[k / STACK_SIZE].regions[k % STACK_SIZE] {
      SlotsBelow(|st|, k);
    }
  }

  lemma HoldsWithoutSlot(fs: seq<Frame>, st: seq<Region>)
    requires Holds(fs, st) && st != [] && (|st| - 1) % STACK_SIZE != 0
    ensures Holds(fs, Pop(st)) && |st| > 1 && fs != []
    ensures (|st| - 2) % STACK_SIZE == (|st| - 1) % STACK_SIZE - 1
  {
    SlotArithmetic(|st| - 1);
    SlotArithmetic(|st|);
  }

  method PopInFrame(t: Task, ghost fs: seq<Frame>, ghost st: seq<Region>)
    requires Represents(t, fs, st) && st != [] && t.current_index != 0
    modifies t`current_index
    ensures Represents(t, fs, Pop(st))
  {
    HoldsFrames(fs, st);
    HoldsWithoutSlot(fs, st);
    hide Holds, Chain;
    t.current_index := t.current_index - 1;
  }

  lemma HoldsFrames(fs: seq<Frame>, st: seq<Region>)
    requires Holds(fs, st)
    ensures fs == [] <==> st == []
  {
    SlotArithmetic(|st|);
  }

  lemma ChainWithoutTop(fs: seq<Frame>, o: object)
    requires Chain(fs, o) && fs != []
    ensures Chain(fs[..|fs| - 1], o)
    ensures Top(fs).prev == if |fs| == 1 then null else Top(fs[..|fs| - 1])
  {}

  lemma HoldsWithoutTop(fs: seq<Frame>, st: seq<Region>)
    requires Holds(fs, st) && st != [] && (|st| - 1) % STACK_SIZE == 0
    ensures fs != [] && Holds(fs[..|fs| - 1], Pop(st))
    ensures |fs| > 1 ==> |st| > 1 && (|st| - 2) % STACK_SIZE == STACK_SIZE - 1
  {
    SlotArithmetic(|st| - 1);
    forall k | 0 <= k < |st| - 1
      ensures k / STACK_SIZE < |fs| - 1 && fs[..|fs| - 1][k / STACK_SIZE] == fs[k / STACK_SIZE]
    {
      SlotsBelow(|st| - 1, k);
    }
  }

  method PopFrame(t: Task, ghost fs: seq<Frame>, ghost st: seq<Region>) returns (f: Frame)
    requires Represents(t, fs, st) && st != [] && t.current_index == 0
    modifies t`current_frame, t`current_index
    ensures fs != [] && f == Top(fs) && Represents(t, fs[..|fs| - 1], Pop(st))
  {
    hide Holds, Chain;
    ChainWithoutTop(fs, t);
    HoldsWithoutTop(fs, st);
    f := t.current_frame;
    t.current_frame := t.current_frame.prev;
    t.current_index := STACK_SIZE - 1;
  }

  class TaskData {
    var current_task: Task?
    var recycled_tasks: Task?
    var implicit_task: Task?
    var recycled_frames: Frame?

    ghost var log: seq<Op<Task>>
    ghost var frames: map<Task, seq<Frame>>
    ghost var freeFrames: seq<Frame>
    ghost var freeTasks: seq<Task>
    ghost var liveTasks: set<Task>
    ghost var allFrames: set<Frame>
    ghost var allTasks: set<Task>
    ghost var frameCount: nat

    ghost predicate FreeFrames()
      reads this`freeFrames, this`allFrames, this`recycled_frames
      reads freeFrames`owner, freeFrames`level, freeFrames`regions, freeFrames`prev
    {
      (forall i :: 0 <= i < |freeFrames| ==> freeFrames[i] in allFrames) &&
      Chain(freeFrames, this) &&
      recycled_frames == (if freeFrames == [] then null else Top(freeFrames))
    }

    ghost predicate FreeTasks()
      reads this`freeTasks, this`allTasks, this`liveTasks, this`recycled_tasks, freeTasks`slot, freeTasks`next
    {
      (forall i :: 0 <= i < |freeTasks| ==>
         freeTasks[i] in allTasks && freeTasks[i] !in liveTasks && freeTasks[i].slot == i) &&
      (freeTasks != [] ==> freeTasks[0].next == null) &&
      (forall i {:trigger freeTasks[i].next} :: 0 < i < |freeTasks| ==> freeTasks[i].next == freeTasks[i - 1]) &&
      recycled_tasks == if freeTasks == [] then null else Top(freeTasks)
    }

    /** The frame lists represent the given stacks, except perhaps for one task. */
    ghost predicate Listed(stacks: map<Task, seq<Region>>, except: Task?)
      reads this`frames, this`allTasks, this`allFrames
      reads allTasks`current_frame, allTasks`current_index
      reads allFrames`owner, allFrames`level, allFrames`regions, allFrames`prev
    {
      frames.Keys == stacks.Keys && frames.Keys <= allTasks &&
      (forall t, i :: t in frames && 0 <= i < |frames[t]| ==> frames[t][i] in allFrames) &&
      (forall t :: t in frames && t != except ==> Represents(t, frames[t], stacks[t]))
    }

    ghost predicate Valid()
      reads this, allTasks, allFrames, freeTasks, freeFrames
    {
      LegalRun(log) && FreeFrames() && FreeTasks() && Listed(All(), null) &&
      liveTasks == Run(log).stacks.Keys && Run(log).left.Keys == (set t | t in freeTasks) &&
      Run(log).current == (if current_task == null then None else Some(current_task)) &&
      frameCount == Demand(Run(log)) + |freeFrames| == Run(log).peak
    }

    ghost function Stacks(): map<Task, seq<Region>>
      reads this
    {
      Run(log).stacks
    }

    /** The stacks of the live tasks and those the completed ones on the free list have left
        behind, with their frames. */
    ghost function All(): map<Task, seq<Region>>
      reads this
    {
      Run(log).left + Run(log).stacks
    }

    /** The stack of the current task. */
    ghost function Current(): seq<Region>
      requires current_task != null && current_task in Stacks()
      reads this
    {
      Stacks()[current_task]
    }

    // ------------------------------------------------------------------ frames

    lemma FreeNotListed(stacks: map<Task, seq<Region>>, t: Task, f: Frame)
      requires FreeFrames() && Listed(stacks, null) && t in frames && freeFrames != [] && f == Top(freeFrames)
      ensures forall i :: 0 <= i < |frames[t]| ==> frames[t][i] != f
    {
      assert Represents(t, frames[t], stacks[t]);
      assert f.owner == this;
    }

    /** The frames of a live task are in no other list. */
    lemma Separate(stacks: map<Task, seq<Region>>, t: Task)
      requires FreeFrames() && Listed(stacks, null) && t in frames
      ensures forall i :: 0 <= i < |freeFrames| ==> freeFrames[i] !in frames[t]
      ensures forall u, i :: u in frames && u != t && 0 <= i < |frames[u]| ==> frames[u][i] !in frames[t]
    {
      assert Represents(t, frames[t], stacks[t]);
      assert forall f :: f in frames[t] ==> f.owner == t;
      forall u, i | u in frames && 0 <= i < |frames[u]| ensures frames[u][i].owner == u {
        assert Represents(u, frames[u], stacks[u]);
      }
    }

    /** The frame is in no list. */
    ghost predicate Unlisted(f: Frame)
      reads this`freeFrames, this`frames
    {
      (forall i :: 0 <= i < |freeFrames| ==> freeFrames[i] != f) &&
      forall t, i :: t in frames && 0 <= i < |frames[t]| ==> frames[t][i] != f
    }

    method TakeFreeFrame(ghost stacks: map<Task, seq<Region>>) returns (f: Frame)
      requires FreeFrames() && Listed(stacks, null) && recycled_frames != null
      modifies this`recycled_frames, this`freeFrames
      ensures FreeFrames() && Listed(stacks, null) && f in allFrames && |f.regions| == STACK_SIZE && Unlisted(f)
      ensures old(freeFrames) != [] && freeFrames == old(freeFrames)[..|old(freeFrames)| - 1]
      ensures f == Top(old(freeFrames))
    {
      hide Represents;
      f := recycled_frames;
      forall t | t in frames ensures forall i :: 0 <= i < |frames[t]| ==> frames[t][i] != f {
        FreeNotListed(stacks, t, f);
      }
      recycled_frames := f.prev;
      freeFrames := freeFrames[..|freeFrames| - 1];
    }

    /** alloc_new_stack_frame: the top of the free list, or a new frame. */
    method AllocFrame(ghost stacks: map<Task, seq<Region>>) returns (f: Frame)
      requires FreeFrames() && Listed(stacks, null)
      modifies this`recycled_frames, this`freeFrames, this`allFrames, this`frameCount
      ensures FreeFrames() && Listed(stacks, null) && f in allFrames && |f.regions| == STACK_SIZE && Unlisted(f)
      ensures old(allFrames) <= allFrames && fresh(allFrames - old(allFrames))
      ensures freeFrames == Below(old(freeFrames))
      ensures if old(freeFrames) == [] then fresh(f) else f == Top(old(freeFrames))
      ensures |freeFrames| == if old(freeFrames) == [] then 0 else |old(freeFrames)| - 1
      ensures frameCount == old(frameCount) + (if old(freeFrames) == [] then 1 else 0)
    {
      hide Represents;
      if recycled_frames != null {
        f := TakeFreeFrame(stacks);
      } else {
        f := new Frame();
        allFrames := allFrames + {f};
        frameCount := frameCount + 1;
      }
    }

    /** recycle_stack_frame */
    method RecycleFrame(ghost stacks: map<Task, seq<Region>>, ghost except: Task?, f: Frame)
      requires FreeFrames() && Listed(stacks, except) && f in allFrames && |f.regions| == STACK_SIZE && Unlisted(f)
      modifies this`recycled_frames, this`freeFrames, f`prev, f`owner, f`level
      ensures FreeFrames() && Listed(stacks, except) && freeFrames == old(freeFrames) + [f]
    {
      hide Represents;
      f.prev := recycled_frames;
      recycled_frames := f;
      f.owner, f.level := this, |freeFrames|;
      freeFrames := freeFrames + [f];
    }

    // ---------------------------------------------------------------- operations

    ghost method Record(op: Op<Task>)
      requires LegalRun(log) && Legal(Run(log), op)
      modifies this`log
      ensures log == old(log) + [op] && LegalRun(log) && Run(log) == Step(Run(old(log)), op)
    {
      RunStep(log, op);
      log := log + [op];
    }

    lemma ListedTask(stacks: map<Task, seq<Region>>, task: Task)
      requires Listed(stacks, null) && task in stacks
      ensures task in frames && task in allTasks && Represents(task, frames[task], stacks[task])
      ensures forall f :: f in frames[task] ==> f in allFrames
    {}

    lemma ListedAgain(stacks: map<Task, seq<Region>>, task: Task, st: seq<Region>)
      requires Listed(stacks, task) && task in frames && Represents(task, frames[task], st)
      ensures Listed(stacks[task := st], null)
    {
      hide Represents;
    }

    method EnterSameFrame(ghost stacks: map<Task, seq<Region>>, task: Task, region: Region)
      requires FreeFrames() && FreeTasks() && Listed(stacks, null) && task in frames
      requires task.current_index < STACK_SIZE - 1
      modifies task`current_index, frames[task]`regions
      ensures FreeFrames() && FreeTasks() && Listed(stacks[task := Push(stacks[task], region)], null)
    {
      hide Represents;
      Separate(stacks, task);
      PushInFrame(task, region, frames[task], stacks[task]);
      assert forall t :: t in frames ==> old(Represents(t, frames[t], stacks[t]));
      ListedAgain(stacks, task, Push(stacks[task], region));
    }

    /** A task's list is now fs, and represents st. */
    ghost method SetFrames(stacks: map<Task, seq<Region>>, task: Task, fs: seq<Frame>, st: seq<Region>)
      requires FreeFrames() && FreeTasks() && Listed(stacks, task) && task in stacks
      requires Represents(task, fs, st) && forall i :: 0 <= i < |fs| ==> fs[i] in allFrames
      modifies this`frames
      ensures FreeFrames() && FreeTasks() && Listed(stacks[task := st], null) && frames == old(frames)[task := fs]
    {
      hide Represents, Chain;
      frames := frames[task := fs];
      assert forall t :: t in frames && t != task ==> old(Represents(t, frames[t], stacks[t]));
    }

    /** Puts an unlisted frame on top of a task's full frames. */
    method AttachFrame(ghost stacks: map<Task, seq<Region>>, task: Task, f: Frame, region: Region)
      requires FreeFrames() && FreeTasks() && Listed(stacks, null) && task in frames
      requires task.current_index == STACK_SIZE - 1
      requires f in allFrames && |f.regions| == STACK_SIZE && Unlisted(f)
      modifies this`frames, task`current_frame, task`current_index, f`prev, f`regions, f`owner, f`level
      ensures FreeFrames() && FreeTasks() && Listed(stacks[task := Push(stacks[task], region)], null)
    {
      hide Represents, Chain;
      ghost var fs := frames[task] + [f];
      PushNewFrame(task, f, region, frames[task], stacks[task]);
      forall t | t in frames && t != task ensures Represents(t, frames[t], stacks[t]) {
        assert old(Represents(t, frames[t], stacks[t]));
      }
      hide FreeFrames, FreeTasks;
      SetFrames(stacks, task, fs, Push(stacks[task], region));
    }

    method EnterNewFrame(ghost stacks: map<Task, seq<Region>>, task: Task, region: Region)
      requires FreeFrames() && FreeTasks() && Listed(stacks, null) && task in frames
      requires task.current_index == STACK_SIZE - 1
      modifies this`frames, this`recycled_frames, this`freeFrames, this`allFrames, this`frameCount
      modifies task`current_frame, task`current_index, allFrames
      ensures FreeFrames() && FreeTasks() && Listed(stacks[task := Push(stacks[task], region)], null)
      ensures old(allFrames) <= allFrames && fresh(allFrames - old(allFrames))
      ensures |freeFrames| == if old(freeFrames) == [] then 0 else |old(freeFrames)| - 1
      ensures frameCount == old(frameCount) + (if old(freeFrames) == [] then 1 else 0)
    {
      hide Represents, Chain, FreeFrames, FreeTasks;
      var f := AllocFrame(stacks);
      AttachFrame(stacks, task, f, region);
    }

    /** The frames that are not on the free list. */
    ghost function InUse(): int
      reads this`frameCount, this`freeFrames
    {
      frameCount - |freeFrames|
    }

    method PushRegion(ghost stacks: map<Task, seq<Region>>, task: Task, region: Region)
      requires FreeFrames() && FreeTasks() && Listed(stacks, null) && task in stacks
      modifies this`frames, this`recycled_frames, this`freeFrames, this`allFrames, this`frameCount
      modifies allTasks`current_frame, allTasks`current_index, allFrames
      ensures FreeFrames() && FreeTasks() && Listed(stacks[task := Push(stacks[task], region)], null)
      ensures old(allFrames) <= allFrames && fresh(allFrames - old(allFrames))
      ensures InUse() == old(InUse()) + Frames(|stacks[task]| + 1) - Frames(|stacks[task]|)
      ensures frameCount == if old(frameCount) < InUse() then InUse() else old(frameCount)
    {
      hide Represents, Frames, Chain, FreeFrames, FreeTasks, Listed;
      ListedTask(stacks, task);
      Shape(task, frames[task], stacks[task]);
      if task.current_index < STACK_SIZE - 1 {
        EnterSameFrame(stacks, task, region);
      } else {
        EnterNewFrame(stacks, task, region);
      }
    }

    /** SCOREP_Task_Enter */
    method Enter(region: Region)
      requires Valid() && current_task != null && current_task in Stacks()
      modifies this`log, this`frames, this`recycled_frames, this`freeFrames, this`allFrames, this`frameCount
      modifies allTasks`current_frame, allTasks`current_index, allFrames
      ensures Valid() && log == old(log) + [Op.Enter(region)]
      ensures Stacks() == old(Stacks()[current_task := Push(Current(), region)])
      ensures old(allFrames) <= allFrames && fresh(allFrames - old(allFrames))
    {
      hide Represents, Run, LegalRun, Step, Demand, Frames, Chain, FreeFrames, FreeTasks, Listed;
      var task := current_task;
      ghost var stacks := All();
      StepOneStack(Run(log), Op.Enter(region), task, Push(stacks[task], region));
      UnionUpdate(Run(log).left, Run(log).stacks, task, Push(stacks[task], region));
      PushRegion(stacks, task, region);
      Record(Op.Enter(region));
    }

    /** A task whose frames are being released: its index is no longer meaningful. */
    ghost predicate Releasing(stacks: map<Task, seq<Region>>, task: Task)
      reads this`frames, this`allTasks, this`allFrames
      reads allTasks`current_frame, allTasks`current_index
      reads allFrames`owner, allFrames`level, allFrames`regions, allFrames`prev
    {
      Listed(stacks, task) && task in frames && Chain(frames[task], task) &&
      task.current_frame == if frames[task] == [] then null else Top(frames[task])
    }

    lemma Unfinished(stacks: map<Task, seq<Region>>, task: Task)
      requires Listed(stacks, null) && task in stacks
      ensures Releasing(stacks, task)
    {
      hide Chain, Holds;
      assert Represents(task, frames[task], stacks[task]);
    }

    /** The top frame of a task is nowhere else. */
    lemma TopElsewhere(stacks: map<Task, seq<Region>>, task: Task)
      requires FreeFrames() && Releasing(stacks, task) && frames[task] != []
      ensures var f, fs := Top(frames[task]), frames[task];
              f in allFrames && |f.regions| == STACK_SIZE &&
              (forall i :: 0 <= i < |freeFrames| ==> freeFrames[i] != f) &&
              (forall t, i :: t in frames && t != task && 0 <= i < |frames[t]| ==> frames[t][i] != f) &&
              (forall i :: 0 <= i < |fs| - 1 ==> fs[i] != f)
    {
      var f := Top(frames[task]);
      assert f.owner == task && f.level == |frames[task]| - 1;
      forall t, i | t in frames && t != task && 0 <= i < |frames[t]| ensures frames[t][i] != f {
        assert Represents(t, frames[t], stacks[t]);
      }
    }

    /** Takes the top frame, which holds one region, off a task's list. */
    method DetachFrame(ghost stacks: map<Task, seq<Region>>, task: Task) returns (f: Frame)
      requires FreeFrames() && FreeTasks() && Listed(stacks, null) && task in stacks && stacks[task] != []
      requires task.current_index == 0
      modifies this`frames, task`current_frame, task`current_index
      ensures FreeFrames() && FreeTasks() && Listed(stacks[task := Pop(stacks[task])], null)
      ensures Unlisted(f) && f in allFrames && |f.regions| == STACK_SIZE
    {
      hide Represents, Chain, FreeFrames, FreeTasks;
      ListedTask(stacks, task);
      ghost var fs := frames[task];
      Unfinished(stacks, task);
      NonEmptyList(task, fs, stacks[task]);
      TopElsewhere(stacks, task);
      f := PopFrame(task, fs, stacks[task]);
      forall t | t in frames && t != task ensures Represents(t, frames[t], stacks[t]) {
        assert old(Represents(t, frames[t], stacks[t]));
      }
      SetFrames(stacks, task, fs[..|fs| - 1], Pop(stacks[task]));
    }

    static lemma NonEmptyList(task: Task, fs: seq<Frame>, st: seq<Region>)
      requires Represents(task, fs, st) && st != []
      ensures fs != []
    {
      HoldsFrames(fs, st);
    }

    /** task_pop_stack; an empty stack is the source's underflow bug. */
    method PopRegion(ghost stacks: map<Task, seq<Region>>, task: Task)
      requires FreeFrames() && FreeTasks() && Listed(stacks, null) && task in stacks && stacks[task] != []
      modifies this`frames, this`recycled_frames, this`freeFrames
      modifies allTasks`current_frame, allTasks`current_index, allFrames`prev, allFrames`owner, allFrames`level
      ensures FreeFrames() && FreeTasks() && Listed(stacks[task := Pop(stacks[task])], null)
      ensures InUse() == old(InUse()) + Frames(|stacks[task]| - 1) - Frames(|stacks[task]|)
    {
      hide Represents, Frames, Chain, FreeFrames, FreeTasks, Listed;
      ListedTask(stacks, task);
      Shape(task, frames[task], stacks[task]);
      if task.current_index == 0 {
        var f := DetachFrame(stacks, task);
        RecycleFrame(stacks[task := Pop(stacks[task])], null, f);
      } else {
        LeaveSlot(stacks, task);
      }
    }

    method LeaveSlot(ghost stacks: map<Task, seq<Region>>, task: Task)
      requires FreeFrames() && FreeTasks() && Listed(stacks, null) && task in stacks && stacks[task] != []
      requires task.current_index != 0
      modifies task`current_index
      ensures FreeFrames() && FreeTasks() && Listed(stacks[task := Pop(stacks[task])], null)
    {
      hide Represents, Chain;
      ListedTask(stacks, task);
      PopInFrame(task, frames[task], stacks[task]);
      forall t | t in frames && t != task ensures Represents(t, frames[t], stacks[t]) {
        assert old(Represents(t, frames[t], stacks[t]));
      }
      ListedAgain(stacks, task, Pop(stacks[task]));
    }

    /** SCOREP_Task_Exit */
    method Exit()
      requires Valid() && current_task != null && current_task in Stacks() && Stacks()[current_task] != []
      modifies this`log, this`frames, this`recycled_frames, this`freeFrames
      modifies allTasks`current_frame, allTasks`current_index, allFrames`prev, allFrames`owner, allFrames`level
      ensures Valid() && log == old(log) + [Op.Exit]
      ensures Stacks() == old(Stacks()[current_task := Pop(Current())])
    {
      hide Represents, Run, LegalRun, Step, Legal, Demand, Frames, Chain, FreeFrames, FreeTasks, Listed;
      var task := current_task;
      ghost var stacks := All();
      StepExit(Run(log), task);
      UnionUpdate(Run(log).left, Run(log).stacks, task, Pop(stacks[task]));
      PopRegion(stacks, task);
      Record(Op.Exit);
    }

    /** SCOREP_Task_GetTopRegion */
    method GetTopRegion(task: Task) returns (region: Region)
      requires Valid() && task in Stacks()
      ensures region == if Stacks()[task] == [] then INVALID_REGION else Top(Stacks()[task])
    {
      ListedTask(All(), task);
      Shape(task, frames[task], All()[task]);
      region := if task.current_frame == null then INVALID_REGION
                else task.current_frame.regions[task.current_index];
    }

    /** A task, live or on the free list, has no frame exactly when its stack is empty. */
    lemma NoFrameIff(task: Task)
      requires Valid() && task in All()
      ensures task.current_frame == null <==> All()[task] == []
    {
      ListedTask(All(), task);
      Shape(task, frames[task], All()[task]);
    }

    /** SCOREP_Task_ClearStack */
    method ClearStack(task: Task)
      requires Valid() && task in Stacks()
      modifies this`log, this`frames, this`recycled_frames, this`freeFrames
      modifies allTasks`current_frame, allTasks`current_index, allFrames`prev, allFrames`owner, allFrames`level
      ensures Valid() && log == old(log) + [Op.Clear(task)]
      ensures Stacks() == old(Stacks())[task := []]
    {
      hide Represents, Run, LegalRun, Step, Legal, Demand, Frames, Chain, FreeFrames, FreeTasks, Listed;
      ghost var stacks := All();
      StepClear(Run(log), task);
      UnionUpdate(Run(log).left, Run(log).stacks, task, []);
      ReleaseAll(stacks, task);
      Record(Op.Clear(task));
    }

    static lemma NoFrames()
      ensures Frames(0) == 0
    {}

    method ReleaseAll(ghost stacks: map<Task, seq<Region>>, task: Task)
      requires FreeFrames() && FreeTasks() && Listed(stacks, null) && task in stacks
      modifies this`frames, this`recycled_frames, this`freeFrames
      modifies allTasks`current_frame, allTasks`current_index, allFrames`prev, allFrames`owner, allFrames`level
      ensures FreeFrames() && FreeTasks() && Listed(stacks[task := []], null)
      ensures InUse() == old(InUse()) - Frames(|stacks[task]|)
    {
      hide Represents, Chain, FreeFrames, FreeTasks, Listed, Frames;
      ListedTask(stacks, task);
      Shape(task, frames[task], stacks[task]);
      Unfinished(stacks, task);
      while task.current_frame != null
        invariant FreeFrames() && FreeTasks() && Releasing(stacks, task)
        invariant InUse() == old(InUse()) - Frames(|stacks[task]|) + |frames[task]|
        decreases |frames[task]|
      {
        var oldFrame := TakeTop(stacks, task);
        RecycleFrame(stacks, task, oldFrame);
      }
      Released(stacks, task);
      ResetIndex(stacks, task);
    }

    lemma Released(stacks: map<Task, seq<Region>>, task: Task)
      requires Releasing(stacks, task) && task.current_frame == null
      ensures frames[task] == []
    {}

    method ResetIndex(ghost stacks: map<Task, seq<Region>>, task: Task)
      requires Listed(stacks, task) && task in frames && frames[task] == [] && task.current_frame == null
      modifies task`current_index
      ensures Listed(stacks[task := []], null)
    {
      task.current_index := STACK_SIZE - 1;
      assert Represents(task, [], []);
      hide Represents;
      forall t | t in frames && t != task ensures Represents(t, frames[t], stacks[t]) {
        assert old(Represents(t, frames[t], stacks[t]));
      }
      ListedAgain(stacks, task, []);
    }

    method TakeTop(ghost stacks: map<Task, seq<Region>>, task: Task) returns (f: Frame)
      requires FreeFrames() && FreeTasks() && Releasing(stacks, task) && task.current_frame != null
      modifies this`frames, task`current_frame
      ensures FreeFrames() && FreeTasks() && Releasing(stacks, task) && |frames[task]| == old(|frames[task]|) - 1
      ensures Unlisted(f) && f in allFrames && |f.regions| == STACK_SIZE
    {
      hide Chain, Represents, FreeFrames, FreeTasks;
      ghost var fs := frames[task];
      f := task.current_frame;
      TopElsewhere(stacks, task);
      ChainWithoutTop(fs, task);
      task.current_frame := task.current_frame.prev;
      forall t | t in frames && t != task ensures Represents(t, frames[t], stacks[t]) {
        assert old(Represents(t, frames[t], stacks[t]));
      }
      Shorten(stacks, task);
    }

    ghost method Shorten(stacks: map<Task, seq<Region>>, task: Task)
      requires FreeTasks() && Listed(stacks, task) && task in frames && frames[task] != []
      modifies this`frames
      ensures FreeTasks() && Listed(stacks, task) && frames == old(frames)[task := Below(old(frames[task]))]
    {
      hide Chain, Represents;
      frames := frames[task := Below(frames[task])];
      assert forall t :: t in frames && t != task ==> old(Represents(t, frames[t], stacks[t]));
    }

    // -------------------------------------------------------------------- task objects

    /** A recycled or new task object, neither live nor on the free list. */
    method TakeTask(ghost stacks: map<Task, seq<Region>>) returns (t: Task)
      requires FreeFrames() && FreeTasks() && Listed(stacks, null) && liveTasks <= allTasks
      modifies this`recycled_tasks, this`freeTasks, this`allTasks
      ensures FreeFrames() && FreeTasks() && Listed(stacks, null) && t in allTasks && t !in liveTasks
      ensures forall i :: 0 <= i < |freeTasks| ==> freeTasks[i] != t
      ensures old(allTasks) <= allTasks && fresh(allTasks - old(allTasks))
      ensures freeTasks == Below(old(freeTasks))
      ensures (if old(freeTasks) == [] then fresh(t) else t == Top(old(freeTasks)))
    {
      hide Represents, Chain;
      if recycled_tasks != null {
        t := recycled_tasks;
        assert t == Top(freeTasks) && t.slot == |freeTasks| - 1;
        recycled_tasks := t.next;
        freeTasks := freeTasks[..|freeTasks| - 1];
      } else {
        t := new Task();
        allTasks := allTasks + {t};
        assert forall u :: u in frames ==> old(Represents(u, frames[u], stacks[u]));
      }
    }

    /** A task object starts with an empty stack. */
    method ResetTask(ghost stacks: map<Task, seq<Region>>, t: Task)
      requires FreeFrames() && FreeTasks() && Listed(stacks, null) && t in allTasks
      requires forall i :: 0 <= i < |freeTasks| ==> freeTasks[i] != t
      modifies this`frames, this`liveTasks, t`current_frame, t`current_index
      ensures FreeFrames() && FreeTasks() && Listed(stacks[t := []], null) && liveTasks == old(liveTasks) + {t}
    {
      hide Represents, Chain, Holds, FreeTasks, FreeFrames;
      t.current_frame := null;
      t.current_index := STACK_SIZE - 1;
      EmptyTask(t);
      forall u | u in frames && u != t ensures Represents(u, frames[u], stacks[u]) {
        assert old(Represents(u, frames[u], stacks[u]));
      }
      AddTask(stacks, t);
    }

    static lemma EmptyTask(t: Task)
      requires t.current_frame == null && t.current_index == STACK_SIZE - 1
      ensures Represents(t, [], [])
    {}

    ghost method AddTask(stacks: map<Task, seq<Region>>, t: Task)
      requires FreeFrames() && FreeTasks() && Listed(stacks, t) && t in allTasks
      requires Represents(t, [], []) && forall i :: 0 <= i < |freeTasks| ==> freeTasks[i] != t
      modifies this`frames, this`liveTasks
      ensures FreeFrames() && FreeTasks() && Listed(stacks[t := []], null) && liveTasks == old(liveTasks) + {t}
    {
      hide Represents, Chain, FreeFrames;
      assert forall u :: u in frames && u != t ==> old(Represents(u, frames[u], stacks[u]));
      frames := frames[t := []];
      liveTasks := liveTasks + {t};
    }

    /** What identifies a task to the measurement: t has kept it. */
    twostate predicate SameIdentity(t: Task)
      reads t
    {
      t.parent_hash_value == old(t.parent_hash_value) && t.thread_id == old(t.thread_id) &&
      t.generation_number == old(t.generation_number)
    }

    /** A task object with an empty stack, recycled or new. */
    method EmptyTaskObject(ghost stacks: map<Task, seq<Region>>) returns (t: Task)
      requires FreeFrames() && FreeTasks() && Listed(stacks, null) && liveTasks <= allTasks
      modifies this`frames, this`recycled_tasks, this`freeTasks, this`allTasks, this`liveTasks
      modifies allTasks`current_frame, allTasks`current_index
      ensures FreeFrames() && FreeTasks() && Listed(stacks[t := []], null) && t in allTasks
      ensures t !in old(liveTasks) && liveTasks == old(liveTasks) + {t} && t !in freeTasks
      ensures old(allTasks) <= allTasks && fresh(allTasks - old(allTasks))
      ensures freeTasks == Below(old(freeTasks))
      ensures (if old(freeTasks) == [] then fresh(t) else t == Top(old(freeTasks)))
    {
      hide Represents, Chain, FreeFrames, FreeTasks, Listed;
      t := TakeTask(stacks);
      ResetTask(stacks, t);
    }

    /** The current task has been completed, and its object is the one that is used next. */
    ghost predicate CurrentReused()
      reads this`current_task, this`freeTasks
    {
      freeTasks != [] && current_task == Top(freeTasks)
    }

    /** The hash that a task which is created now finds for its parent: of the current task's
        stack, live or left behind; 0 if the new task uses the current one's object. */
    ghost function FoundHash(values: map<Region, uint32>): uint32
      requires Valid() && current_task != null && current_task in All()
      requires !CurrentReused() ==> forall r :: r in All()[current_task] ==> r in values
      reads this, allTasks, allFrames, freeTasks, freeFrames, current_task
    {
      if CurrentReused() then 0 else StackHash(current_task.parent_hash_value, All()[current_task], values)
    }

    lemma FoundIs(values: map<Region, uint32>)
      requires Valid() && current_task != null && current_task in All()
      requires !CurrentReused() ==> forall r :: r in All()[current_task] ==> r in values
      ensures FoundHash(values) ==
              if CurrentReused() then 0 else StackHash(current_task.parent_hash_value, All()[current_task], values)
    {
      hide Valid, StackHash;
    }

    static lemma UnionUpdate(left: map<Task, seq<Region>>, stacks: map<Task, seq<Region>>, t: Task, st: seq<Region>)
      ensures left + stacks[t := st] == (left + stacks)[t := st]
    {}

    static lemma FreeSet(free: seq<Task>, rest: seq<Task>, t: Task)
      requires rest == Below(free) && (free == [] || t == Top(free)) && t !in rest
      ensures (set u | u in free) - {t} == (set u | u in rest)
    {}

    static lemma UnionCreate(left: map<Task, seq<Region>>, stacks: map<Task, seq<Region>>, t: Task)
      ensures (left - {t}) + stacks[t := []] == (left + stacks)[t := []]
    {}

    lemma CurrentListed()
      requires Valid() && current_task != null
      ensures current_task in All() && current_task in allTasks
    {
      CurrentKnown(log);
      ListedTask(All(), current_task);
    }

    /** scorep_task_create.  The current task may have been completed.  The hash values are
        those of the region definitions; a filtered region has none, so it must not be on the
        stack that is hashed. */
    method Create(threadId: uint32, generationNumber: uint32, values: map<Region, uint32>) returns (t: Task)
      requires Valid()
      requires current_task != null && current_task in All() && !CurrentReused() ==>
        forall r :: r in All()[current_task] ==> r in values
      modifies this`log, this`frames, this`recycled_tasks, this`freeTasks, this`allTasks, this`liveTasks, allTasks
      ensures Valid() && log == old(log) + [Op.Create(t)]
      ensures t !in old(Stacks()) && t in allTasks && Stacks() == old(Stacks())[t := []]
      ensures old(allTasks) <= allTasks && fresh(allTasks - old(allTasks))
      ensures freeTasks == Below(old(freeTasks))
      ensures (if old(freeTasks) == [] then fresh(t) else t == Top(old(freeTasks)))
      ensures t.thread_id == threadId && t.generation_number == generationNumber
      ensures current_task != null ==> old(current_task in All()) && t.parent_hash_value == old(FoundHash(values))
      ensures forall u :: u in old(All()) && u != t ==> SameIdentity(u)
    {
      hide Represents, Run, LegalRun, Step, Demand, Frames, Chain, FreeFrames, FreeTasks, Listed, StackHash;
      ghost var stacks := All();
      ghost var found := 0;
      if current_task != null {
        CurrentListed();
        found := FoundHash(values);
        FoundIs(values);
      }
      hide FoundHash;
      AllListed(stacks);
      t := NewTask(stacks, threadId, generationNumber, values);
      StepOneStack(Run(log), Op.Create(t), t, []);
      UnionCreate(Run(log).left, Run(log).stacks, t);
      FreeSet(old(freeTasks), freeTasks, t);
      NoFrames();
      Record(Op.Create(t));
      assert current_task != null ==> t.parent_hash_value == found;
    }

    lemma AllListed(stacks: map<Task, seq<Region>>)
      requires Listed(stacks, null)
      ensures forall u :: u in stacks ==> u in allTasks
    {}

    /** A task object for use, with all its fields. */
    method NewTask(ghost stacks: map<Task, seq<Region>>, threadId: uint32, generationNumber: uint32,
                   values: map<Region, uint32>)
      returns (t: Task)
      requires FreeFrames() && FreeTasks() && Listed(stacks, null) && liveTasks <= allTasks
      requires current_task != null ==>
        current_task in stacks && (CurrentReused() || forall r :: r in stacks[current_task] ==> r in values)
      modifies this`frames, this`recycled_tasks, this`freeTasks, this`allTasks, this`liveTasks, allTasks
      ensures FreeFrames() && FreeTasks() && Listed(stacks[t := []], null)
      ensures t in allTasks && t !in old(liveTasks) && liveTasks == old(liveTasks) + {t} && t !in freeTasks
      ensures old(allTasks) <= allTasks && fresh(allTasks - old(allTasks))
      ensures freeTasks == Below(old(freeTasks))
      ensures (if old(freeTasks) == [] then fresh(t) else t == Top(old(freeTasks)))
      ensures t.thread_id == threadId && t.generation_number == generationNumber
      ensures current_task != null ==>
        t.parent_hash_value == if old(CurrentReused()) then 0
                               else old(StackHash(current_task.parent_hash_value, stacks[current_task], values))
      ensures forall u :: u in stacks && u != t ==> SameIdentity(u)
    {
      hide Represents, Chain, FreeFrames, FreeTasks, Listed, StackHash;
      AllListed(stacks);
      t := EmptyTaskObject(stacks);
      NoHash();
      Identify(stacks[t := []], t, threadId, generationNumber, values);
    }

    static lemma NoHash()
      ensures forall p, values :: StackHash(p, [], values) == 0
    {}

    method Identify(ghost stacks: map<Task, seq<Region>>, t: Task, threadId: uint32, generationNumber: uint32,
                    values: map<Region, uint32>)
      requires FreeFrames() && FreeTasks() && Listed(stacks, null) && t in allTasks
      requires current_task != null ==> current_task in stacks && forall r :: r in stacks[current_task] ==> r in values
      modifies t`thread_id, t`generation_number, t`parent_hash_value
      ensures FreeFrames() && FreeTasks() && Listed(stacks, null)
      ensures t.thread_id == threadId && t.generation_number == generationNumber
      ensures current_task != null ==>
        t.parent_hash_value == old(StackHash(current_task.parent_hash_value, stacks[current_task], values))
    {
      hide Represents, Run, Chain, FreeFrames, FreeTasks, Listed, StackHash;
      t.thread_id, t.generation_number := threadId, generationNumber;
      if current_task != null {
        t.parent_hash_value := GetRegionStackHash(stacks, current_task, values);
      }
    }

    /** scorep_task_complete: the frames of a task that still has some are not returned. */
    method Complete(t: Task)
      requires Valid() && t in Stacks()
      modifies this`log, this`recycled_tasks, this`freeTasks, this`liveTasks, t`next, t`slot
      ensures Valid() && log == old(log) + [Op.Complete(t)] && freeTasks == old(freeTasks) + [t]
      ensures Stacks() == old(Stacks()) - {t}
    {
      hide Represents, Run, Step, Demand, Frames, Chain, FreeFrames, FreeTasks, Listed;
      ghost var stacks := All();
      StepComplete(Run(log), t);
      RecycleTask(stacks, t);
      Record(Op.Complete(t));
      assert All() == stacks;
    }

    /** recycle_task: the object keeps its frames. */
    method RecycleTask(ghost stacks: map<Task, seq<Region>>, t: Task)
      requires FreeFrames() && FreeTasks() && Listed(stacks, null) && t in stacks && t in liveTasks
      modifies this`recycled_tasks, this`freeTasks, this`liveTasks, t`next, t`slot
      ensures FreeFrames() && FreeTasks() && Listed(stacks, null)
      ensures freeTasks == old(freeTasks) + [t] && liveTasks == old(liveTasks) - {t}
    {
      hide Represents, Chain;
      t.next := recycled_tasks;
      recycled_tasks := t;
      t.slot := |freeTasks|;
      freeTasks := freeTasks + [t];
      liveTasks := liveTasks - {t};
      forall u | u in frames ensures Represents(u, frames[u], stacks[u]) {
        assert old(Represents(u, frames[u], stacks[u]));
      }
    }

    /** scorep_task_switch */
    method Switch(t: Task)
      requires Valid() && t in Stacks()
      modifies this`log, this`current_task
      ensures Valid() && log == old(log) + [Op.Switch(t)] && current_task == t && Stacks() == old(Stacks())
    {
      hide Represents, Run, Demand, Frames, Chain, FreeFrames, FreeTasks, Listed;
      current_task := t;
      Record(Op.Switch(t));
      assert Demand(Run(log)) == old(Demand(Run(log))) by { SameNeed(Run(old(log)), Run(log)); }
    }

    static lemma SameNeed(s: Tasks<Task>, s': Tasks<Task>)
      requires s'.stacks == s.stacks && s'.leaked == s.leaked
      ensures Demand(s') == Demand(s)
    {}

    // ------------------------------------------------------------------- whole runs

    /** Whatever the other tasks did in between: the frames of a live task, and of a completed
        one whose object has not been used again, hold what its own enters and exits make of
        its stack, and are in no other list. */
    lemma HoldsOwn(t: Task)
      requires Valid() && (t in Stacks() || t in freeTasks)
      ensures t in frames && Represents(t, frames[t], Replay(Own(log, t)))
      ensures t.current_frame == null ==> t.current_index == STACK_SIZE - 1
      ensures forall i :: 0 <= i < |freeFrames| ==> freeFrames[i] !in frames[t]
      ensures forall u, i :: u in frames && u != t && 0 <= i < |frames[u]| ==> frames[u][i] !in frames[t]
    {
      hide Run, LegalRun, Replay, Own, Chain, Holds, FreeFrames;
      Interleaving(log, t);
      ListedTask(All(), t);
      Separate(All(), t);
    }

    /** The frames ever allocated are in live stacks or on the free list, exactly when tasks
        have only been completed on empty stacks. */
    lemma FramesConservedIff()
      requires Valid()
      ensures frameCount == Need(Stacks()) + |freeFrames| <==> CompletedEmpty(log)
    {
      hide Run, LegalRun, Need, CompletedEmpty, FreeFrames, FreeTasks, Listed;
      LeakIff(log);
    }

    /** Then no frame has been made in vain either: there are just as many as the live stacks
        needed at the worst moment of the run. */
    lemma FramesAtPeak()
      requires Valid() && CompletedEmpty(log)
      ensures forall n: nat :: n <= |log| ==> Need(Run(log[..n]).stacks) <= frameCount
      ensures exists n: nat :: n <= |log| && Need(Run(log[..n]).stacks) == frameCount
    {
      hide Run, LegalRun, Need, Demand, CompletedEmpty, FreeFrames, FreeTasks, Listed;
      PeakOfStacks(log);
    }

    /** Let h be the hash of the stack that a new task is meant to hang under.  If the current
        task is live, that is its stack's, and the new task gets it.  If it is completed, the
        new task gets h exactly when h is the hash of what is left of the current task. */
    lemma ParentHashIff(values: map<Region, uint32>, h: uint32)
      requires Valid() && current_task != null && current_task in All()
      requires !CurrentReused() ==> forall r :: r in All()[current_task] ==> r in values
      requires current_task in Stacks() && !CurrentReused() ==>
        h == StackHash(current_task.parent_hash_value, Stacks()[current_task], values)
      ensures current_task in Stacks() ==> FoundHash(values) == h
      ensures current_task !in Stacks() ==>
        (FoundHash(values) == h <==>
         h == if CurrentReused() || Run(log).left[current_task] == [] then 0
              else StackHash(current_task.parent_hash_value, Run(log).left[current_task], values))
    {
      if current_task in Stacks() { LiveNotReused(); }
      hide FreeFrames, FreeTasks, Listed, Demand;
    }

    lemma LiveNotReused()
      requires Valid() && current_task != null && current_task in Stacks()
      ensures !CurrentReused()
    {
      hide FreeFrames, Listed, Demand;
    }

    /** As tasks complete on empty stacks, that is 0: the new task gets the hash it is meant
        to have exactly when the current task is live, or that hash is 0. */
    lemma ParentHashLostIff(values: map<Region, uint32>, h: uint32)
      requires Valid() && CompletedEmpty(log) && current_task != null && current_task in All()
      requires !CurrentReused() ==> forall r :: r in All()[current_task] ==> r in values
      requires current_task in Stacks() && !CurrentReused() ==>
        h == StackHash(current_task.parent_hash_value, Stacks()[current_task], values)
      ensures FoundHash(values) == h <==> current_task in Stacks() || h == 0
    {
      NothingLeft(log);
      ParentHashIff(values, h);
      if current_task in Stacks() { LiveNotReused(); }
      hide FreeFrames, FreeTasks, Listed, Demand, FoundHash, StackHash;
    }

    // -------------------------------------------------------------------------- hash

    /** stack_frame_aggregation: the frames below are full, the top one is used up to last. */
    method Aggregate(ghost fs: seq<Frame>, ghost st: seq<Region>, frame: Frame?, last: nat, task: Task,
                     values: map<Region, uint32>)
      returns (hash: uint32)
      requires Chain(fs, task) && Holds(fs, st)
      requires frame == if fs == [] then null else Top(fs)
      requires fs != [] ==> last == (|st| - 1) % STACK_SIZE
      requires forall r :: r in st ==> r in values
      ensures hash == HashFold(task.parent_hash_value, st, values)
      decreases |fs|
    {
      HoldsFrames(fs, st);
      if frame == null { return task.parent_hash_value; }
      ghost var below := st[..|st| - 1 - last];
      FullBelow(fs, st, last);
      ChainWithoutTop(fs, task);
      hide Holds, Chain, HashFold;
      hash := Aggregate(fs[..|fs| - 1], below, frame.prev, STACK_SIZE - 1, task, values);
      hash := HashFrame(fs, st, frame, last, task.parent_hash_value, hash, values);
    }

    /** The loop over the regions of one frame. */
    static method HashFrame(ghost fs: seq<Frame>, ghost st: seq<Region>, frame: Frame, last: nat, ghost parent: uint32,
                            below: uint32, values: map<Region, uint32>)
      returns (hash: uint32)
      requires Holds(fs, st) && fs != [] && frame == Top(fs)
      requires st != [] && last == (|st| - 1) % STACK_SIZE
      requires forall r :: r in st ==> r in values
      requires below == HashFold(parent, st[..|st| - 1 - last], values)
      ensures hash == HashFold(parent, st, values)
    {
      hide Holds, HashFold, HashStep, Frames;
      hash := below;
      ghost var start := |st| - 1 - last;
      for i := 0 to last + 1
        invariant hash == HashFold(parent, st[..start + i], values)
      {
        TopSlot(fs, st, last, i);
        FoldStep(parent, st, start + i, values);
        var value := values[frame.regions[i]];
        hash := HashRegion(value, hash);
      }
      assert st[..|st|] == st;
    }

    static lemma FoldStep(parent: uint32, st: seq<Region>, n: nat, values: map<Region, uint32>)
      requires n < |st| && forall r :: r in st ==> r in values
      ensures HashFold(parent, st[..n + 1], values) == HashStep(HashFold(parent, st[..n], values), values[st[n]])
    {
      hide HashStep;
      assert st[..n + 1][..n] == st[..n];
    }

    static lemma FullBelow(fs: seq<Frame>, st: seq<Region>, last: nat)
      requires Holds(fs, st) && fs != [] && st != [] && last == (|st| - 1) % STACK_SIZE
      ensures last < |st| && Holds(fs[..|fs| - 1], st[..|st| - 1 - last])
      ensures |fs| > 1 ==> |st| - 1 - last > 0 && STACK_SIZE - 1 == (|st| - 1 - last - 1) % STACK_SIZE
    {
      var below, gs := st[..|st| - 1 - last], fs[..|fs| - 1];
      assert |below| == STACK_SIZE * ((|st| - 1) / STACK_SIZE);
      forall k | 0 <= k < |below| ensures k / STACK_SIZE < |gs| && fs[k / STACK_SIZE] == gs[k / STACK_SIZE] {}
    }

    static lemma TopSlot(fs: seq<Frame>, st: seq<Region>, last: nat, i: nat)
      requires Holds(fs, st) && fs != [] && st != [] && last == (|st| - 1) % STACK_SIZE && i <= last
      ensures |Top(fs).regions| == STACK_SIZE && 0 <= |st| - 1 - last
      ensures st[|st| - 1 - last + i] == Top(fs).regions[i]
    {
      var k := |st| - 1 - last + i;
      assert k / STACK_SIZE == |fs| - 1 && k % STACK_SIZE == i;
    }

    /** jenkins_hash( &region_hash, 4, hash ) on a little-endian machine. */
    static method HashRegion(value: uint32, hash: uint32) returns (hash': uint32)
      ensures hash' == HashStep(hash, value)
    {
      WordsOfBytes([value], Little);
      hash' := HashLittle(Bytes([value], Little), hash);
    }

    /** SCOREP_Task_GetRegionStackHash: the frames make no difference, only the stack. */
    method GetRegionStackHash(ghost stacks: map<Task, seq<Region>>, task: Task, values: map<Region, uint32>)
      returns (hash: uint32)
      requires Listed(stacks, null) && task in stacks
      requires forall r :: r in stacks[task] ==> r in values
      ensures hash == StackHash(task.parent_hash_value, stacks[task], values)
    {
      ListedTask(stacks, task);
      Shape(task, frames[task], stacks[task]);
      if task.current_frame == null { return 0; }
      hash := Aggregate(frames[task], stacks[task], task.current_frame, task.current_index, task, values);
    }

    lemma NoLists()
      requires frames == map[] && freeFrames == [] && freeTasks == []
      requires recycled_tasks == null && recycled_frames == null
      ensures FreeFrames() && FreeTasks() && Listed(map[], null)
    {}

    lemma NothingYet()
      requires log == [] && frames == map[] && freeFrames == [] && freeTasks == [] && liveTasks == {} && frameCount == 0
      requires current_task == null && recycled_tasks == null && recycled_frames == null
      ensures Valid() && Stacks() == map[]
    {
      hide FreeFrames, FreeTasks, Listed, Run, LegalRun, Demand, Need, Frames, Chain, Represents;
      NoLists();
      EmptyRun(log);
      assert Run(log).stacks == Run(log).left == map[];
      assert Run(log).current == None;
    }

    /** What a location's data is once its implicit task exists. */
    ghost predicate Begun(task: Task)
      reads this
    {
      current_task == implicit_task == task &&
      |log| == 2 && log[0].Create? && log[1].Switch? && log[0].task == log[1].task == task
    }

    /** Creates the first task of a location and makes it the current one. */
    method Begin(locationId: uint32, forkHash: uint32)
      requires Valid() && log == [] && current_task == null
      modifies this, allTasks
      ensures Valid() && current_task != null && Begun(current_task)
      ensures allFrames == old(allFrames) && old(allTasks) <= allTasks && fresh(allTasks - old(allTasks))
      ensures current_task.parent_hash_value == forkHash && current_task.thread_id == locationId
      ensures current_task.generation_number == 0
    {
      hide Represents, Run, LegalRun, Demand, Frames, Chain, FreeFrames, FreeTasks, Listed, StackHash;
      var t := Create(locationId, 0, map[]);
      Created(t);
      Switch(t);
      SetIdentity(t, forkHash);
    }

    lemma Created(t: Task)
      requires Valid() && log == [Op.Create(t)]
      ensures t in Stacks() && t in allTasks
    {
      assert log[..0] == [];
      hide FreeFrames, FreeTasks, Demand, Represents;
    }

    method SetIdentity(task: Task, forkHash: uint32)
      requires Valid()
      modifies this`implicit_task, task`parent_hash_value
      ensures Valid() && implicit_task == task && task.parent_hash_value == forkHash
    {
      hide Represents, Run, LegalRun, Demand, Chain, FreeFrames, FreeTasks, Listed;
      implicit_task := task;
      task.parent_hash_value := forkHash;
    }

    lemma BegunEmpty()
      requires Valid() && current_task != null && Begun(current_task)
      ensures current_task in Stacks() && Current() == []
    {
      var create := log[..1];
      assert create[..0] == [] && log[..|log| - 1] == create;
      assert Run(log) == Step(Run(create), log[1]);
      hide FreeFrames, FreeTasks, Listed, Demand, Represents;
      assert Run(create) == Step(Run(create[..0]), create[0]);
    }

    /** task_subsystem_init_location: the implicit task of a new location. */
    constructor (locationId: uint32, forkHash: uint32)
      ensures Valid() && current_task != null && Begun(current_task)
      ensures current_task in Stacks() && Current() == []
      ensures fresh(allTasks) && fresh(allFrames)
      ensures current_task.parent_hash_value == forkHash && current_task.thread_id == locationId
      ensures current_task.generation_number == 0
    {
      hide *;
      current_task, recycled_tasks, implicit_task, recycled_frames := null, null, null, null;
      log, frames, freeFrames, freeTasks, frameCount := [], map[], [], [], 0;
      allFrames, allTasks, liveTasks := {}, {}, {};
      new;
      hide Valid, Begun;
      NothingYet();
      Begin(locationId, forkHash);
      BegunEmpty();
    }
  }

  /** One region more extends the hash by one step, also where it starts a new frame, and
      only then does the parent's hash come in. */
  lemma HashExtends(parent: uint32, st: seq<Region>, r: Region, values: map<Region, uint32>)
    requires r in values && forall q :: q in st ==> q in values
    ensures StackHash(parent, Push(st, r), values) ==
            HashStep(if st == [] then parent else StackHash(parent, st, values), values[r])
  {
    hide HashStep;
    var longer := Push(st, r);
    assert longer[..|longer| - 1] == st;
    assert HashFold(parent, longer, values) == HashStep(HashFold(parent, st, values), values[r]);
  }

  /** The hash of a stack is the fold from the parent's hash exactly when the stack is not
      empty, or the parent's hash is 0 as well. */
  lemma HashIsFoldIff(parent: uint32, st: seq<Region>, values: map<Region, uint32>)
    requires forall q :: q in st ==> q in values
    ensures StackHash(parent, st, values) == HashFold(parent, st, values) <==> st != [] || parent == 0
  {}

  /** So the parent's hash is lost for an empty stack: two parents, one hash. */
  lemma ParentHashLost()
    ensures StackHash(1, [], map[]) == StackHash(2, [], map[]) == 0
    ensures HashFold(1, [], map[]) == 1 && HashFold(2, [], map[]) == 2
  {}

  /** One step of the hash that does not come to 0. */
  lemma HashExample()
    ensures StackHash(0x2152_410D, [1], map[1 := 0x80_0080]) == 0x21DE_21DF
  {
    FinalExample();
    hide Final;
    var st, values := [1], map[1 := 0x80_0080];
    assert st[..0] == [];
    assert HashFold(0x2152_410D, st, values) == HashStep(0x2152_410D, 0x80_0080);
    assert Seed(4, 0x2152_410D, 0) == State(0, 0, 0);
    assert AddBlock(State(0, 0, 0), 0x80_0080, 0, 0) == State(0x80_0080, 0, 0);
  }

  /** Two tasks run back to back inside a region: the first one gets the hash of the stack
      with that region, the second one 0. */
  method RunTwoTasks(data: TaskData, region: Region, values: map<Region, uint32>)
    returns (first: uint32, second: uint32)
    requires data.Valid() && data.current_task != null && data.current_task in data.Stacks()
    requires data.Current() == [] && region in values
    modifies data, data.allTasks, data.allFrames
    ensures first == old(StackHash(data.current_task.parent_hash_value, [region], values)) && second == 0
  {
    hide TaskData.Valid, TaskData.Stacks, TaskData.All, StackHash;
    data.Enter(region);
    assert data.Current() == [region];
    InAll(data);
    var t := data.Create(0, 1, values);
    first := t.parent_hash_value;
    data.Switch(t);
    data.Complete(t);
    var u := data.Create(0, 2, values);
    second := u.parent_hash_value;
  }

  lemma InAll(data: TaskData)
    requires data.Valid() && data.current_task != null && data.current_task in data.Stacks()
    ensures !data.CurrentReused() && data.current_task in data.All()
    ensures data.All()[data.current_task] == data.Current()
  {
    data.LiveNotReused();
    hide TaskData.Valid;
  }

  /** With a hash that is not 0. */
  method BackToBack() returns (first: uint32, second: uint32, h: uint32)
    ensures h == StackHash(0x2152_410D, [1], map[1 := 0x80_0080]) && h != 0
    ensures first == h && second == 0
  {
    HashExample();
    hide TaskData.Valid, TaskData.Stacks, StackHash;
    h := 0x21DE_21DF;
    var data := new TaskData(0, 0x2152_410D);
    first, second := RunTwoTasks(data, 1, map[1 := 0x80_0080]);
  }
}
