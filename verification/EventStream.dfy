/** The enter and exit events of the main location, between the begin and the end of the
    program: src/measurement/SCOREP_Events.c, SCOREP_RuntimeManagement.c, SCOREP_Task.c and
    scorep_location_management.c.  Recording is on, unwinding off, and the main location has
    its implicit task only.  Any thread may finalize, and subsystems and exit callbacks may
    still record before the end. */
module EventStream {
  import opened MachineWords
  import opened Wrappers
  import opened TaskSpec
  import opened TaskStack

  const FILTERED_REGION: Region := 0xFFFF_FFFF

  datatype Event =
    | ProgramBegin(time: uint64)
    | EnterRegion(time: uint64, region: Region)
    | ExitRegion(time: uint64, region: Region)
    | ProgramEnd(time: uint64)

  predicate IsRegionEvent(e: Event) { e.EnterRegion? || e.ExitRegion? }

  // ------------------------------------------------------------- what a stream should be

  /** The regions open after the events; None if an exit does not match the last open one. */
  function Open(events: seq<Event>): Option<seq<Region>> {
    if events == [] then Some([])
    else match Open(events[..|events| - 1])
      case None => None
      case Some(open) =>
        match events[|events| - 1]
        case EnterRegion(_, r) => Some(open + [r])
        case ExitRegion(_, r) => if open != [] && open[|open| - 1] == r then Some(open[..|open| - 1]) else None
        case _ => Some(open)
  }

  /** Times never go back. */
  predicate Ordered(events: seq<Event>) {
    forall i :: 0 < i < |events| ==> events[i - 1].time <= events[i].time
  }

  /** The stack without the regions that are filtered. */
  function Recorded(st: seq<Region>): seq<Region> {
    if st == [] then []
    else
      var n := |st| - 1;
      if st[n] == FILTERED_REGION then Recorded(st[..n]) else Recorded(st[..n]) + [st[n]]
  }

  /** A program's stream: balanced and properly nested region events between begin and end,
      in the order of their times. */
  predicate CompleteStream(stream: seq<Event>) {
    |stream| >= 2 && stream[0].ProgramBegin? && stream[|stream| - 1].ProgramEnd? &&
    var inner := stream[1..|stream| - 1];
    (forall i :: 0 <= i < |inner| ==> IsRegionEvent(inner[i])) && Open(inner) == Some([]) && Ordered(inner)
  }

  lemma OpenStep(events: seq<Event>, e: Event)
    requires Open(events).Some? && IsRegionEvent(e)
    requires e.ExitRegion? ==> Open(events).value != [] && Top(Open(events).value) == e.region
    ensures Open(events + [e]) ==
            Some(if e.EnterRegion? then Push(Open(events).value, e.region) else Pop(Open(events).value))
  {
    assert (events + [e])[..|events|] == events;
  }

  lemma OrderedStep(events: seq<Event>, e: Event)
    requires Ordered(events) && forall i :: 0 <= i < |events| ==> events[i].time <= e.time
    ensures Ordered(events + [e])
  {}

  predicate ExitsAdded(before: seq<Event>, after: seq<Event>) {
    before <= after && forall i :: |before| <= i < |after| ==> after[i].ExitRegion?
  }

  lemma NoExits(events: seq<Event>)
    ensures ExitsAdded(events, events)
  {}

  lemma NothingRecorded()
    ensures Recorded([]) == []
  {}

  lemma MoreExits(before: seq<Event>, between: seq<Event>, after: seq<Event>)
    requires ExitsAdded(before, between) && ExitsAdded(between, after)
    ensures ExitsAdded(before, after)
  {}

  lemma RecordedPush(st: seq<Region>, r: Region)
    ensures Recorded(Push(st, r)) == if r == FILTERED_REGION then Recorded(st) else Push(Recorded(st), r)
  {
    assert Push(st, r)[..|st|] == st;
  }

  lemma RecordedPop(st: seq<Region>)
    requires st != []
    ensures Recorded(Pop(st)) == if Top(st) == FILTERED_REGION then Recorded(st) else Pop(Recorded(st))
    ensures Top(st) != FILTERED_REGION ==> Recorded(st) != [] && Top(Recorded(st)) == Top(st)
  {}

  // ----------------------------------------------------------- what should be delivered

  /** An event that is recorded while the program is being finalized. */
  datatype Action = Enters(region: Region) | Exits

  /** A region event without its time. */
  datatype Bare = Opened(region: Region) | Closed(region: Region)

  function Untimed(events: seq<Event>): seq<Bare> {
    if events == [] then []
    else
      Untimed(events[..|events| - 1]) +
      match events[|events| - 1]
      case EnterRegion(_, r) => [Opened(r)]
      case ExitRegion(_, r) => [Closed(r)]
      case _ => []
  }

  /** The exits of all regions of a stack that are not filtered, from the top down. */
  function Closings(st: seq<Region>): seq<Bare> {
    if st == [] then []
    else
      var n := |st| - 1;
      (if st[n] == FILTERED_REGION then [] else [Closed(st[n])]) + Closings(st[..n])
  }

  /** The region events that actions on a stack lead to, up to the first underflow. */
  function Recordings(st: seq<Region>, actions: seq<Action>): seq<Bare>
    decreases |actions|
  {
    if actions == [] then []
    else match actions[0]
      case Enters(r) => (if r == FILTERED_REGION then [] else [Opened(r)]) + Recordings(st + [r], actions[1..])
      case Exits =>
        if st == [] then []
        else
          var n := |st| - 1;
          (if st[n] == FILTERED_REGION then [] else [Closed(st[n])]) + Recordings(st[..n], actions[1..])
  }

  /** The stack that is left. */
  function StackAfter(st: seq<Region>, actions: seq<Action>): seq<Region>
    decreases |actions|
  {
    if actions == [] then st
    else match actions[0]
      case Enters(r) => StackAfter(st + [r], actions[1..])
      case Exits => if st == [] then st else StackAfter(st[..|st| - 1], actions[1..])
  }

  lemma UntimedStep(events: seq<Event>, e: Event)
    ensures Untimed(events + [e]) ==
            Untimed(events) +
            match e { case EnterRegion(_, r) => [Opened(r)] case ExitRegion(_, r) => [Closed(r)] case _ => [] }
  {
    assert (events + [e])[..|events|] == events;
  }

  lemma NoClosings()
    ensures Closings([]) == []
  {}

  lemma ClosingsStep(st: seq<Region>)
    requires st != []
    ensures Closings(st) == (if Top(st) == FILTERED_REGION then [] else [Closed(Top(st))]) + Closings(Pop(st))
  {}

  lemma RecordingsStep(st: seq<Region>, actions: seq<Action>)
    requires actions != [] && (actions[0].Exits? ==> st != [])
    ensures var next := if actions[0].Enters? then Push(st, actions[0].region) else Pop(st);
            Recordings(st, actions) == Recordings(st, [actions[0]]) + Recordings(next, actions[1..]) &&
            StackAfter(st, actions) == StackAfter(next, actions[1..])
  {
    assert [actions[0]][1..] == [];
  }

  lemma OneRecording(events: seq<Event>, st: seq<Region>, action: Action, t: uint64)
    requires action.Exits? ==> st != []
    ensures Untimed(events) + Recordings(st, [action]) ==
            if action.Enters? then
              (if action.region == FILTERED_REGION then Untimed(events)
               else Untimed(events + [EnterRegion(t, action.region)]))
            else if Top(st) == FILTERED_REGION then Untimed(events)
            else Untimed(events + [ExitRegion(t, Top(st))])
  {
    hide Untimed;
    assert [action][1..] == [];
    match action
    case Enters(r) => UntimedStep(events, EnterRegion(t, r));
    case Exits => UntimedStep(events, ExitRegion(t, Top(st)));
  }

  lemma NoActions(st: seq<Region>)
    ensures Recordings(st, []) == [] && StackAfter(st, []) == st
  {}

  // --------------------------------------------------------------------- the measurement

  class Measurement {
    /** The n-th reading of the clock, whatever it is. */
    const clock: nat -> uint64
    const tasks: TaskData
    var readings: nat
    var initialized: bool
    var finalized: bool
    var application_aborted: bool
    var last_timestamp: uint64
    var epoch_begin: uint64
    var epoch_end_set: bool
    /** A check of the source has failed and ended the process. */
    var ended: bool
    /** The events of the main location, and the region events among them. */
    var stream: seq<Event>
    ghost var events: seq<Event>
    /** Which readings of the clock went into the begin, the first region event and the end. */
    ghost var begin_reading: nat
    ghost var first_reading: nat
    ghost var end_reading: nat

    ghost function Stack(): seq<Region>
      reads tasks
    {
      if tasks.current_task != null && tasks.current_task in tasks.Stacks() then tasks.Current() else []
    }

    ghost predicate TasksValid()
      reads tasks, tasks.allTasks, tasks.allFrames, tasks.freeTasks, tasks.freeFrames
    {
      tasks.Valid() && tasks.current_task != null && tasks.current_task in tasks.Stacks()
    }

    /** The clock never goes back. */
    ghost predicate Steady() { forall m: nat, n: nat :: m <= n ==> clock(m) <= clock(n) }

    /** With such a clock all times lie between the begin and the next reading. */
    ghost predicate InTime()
      reads this`events, this`last_timestamp, this`epoch_begin, this`readings
    {
      Steady() ==>
        last_timestamp <= clock(readings) && epoch_begin <= clock(readings) &&
        forall i :: 0 <= i < |events| ==> epoch_begin <= events[i].time
    }

    /** The region events are ordered and not later than the last time stamp; what is open
        in them is what is on the stack and not filtered. */
    ghost predicate EventsValid()
      reads this`events, this`last_timestamp, this`epoch_begin, this`readings, tasks
    {
      (forall i :: 0 <= i < |events| ==> IsRegionEvent(events[i]) && events[i].time <= last_timestamp) &&
      Ordered(events) && InTime() && Open(events) == Some(Recorded(Stack()))
    }

    /** The first region event has the time of its reading, the last one the last time. */
    ghost predicate Marked()
      reads this`events, this`last_timestamp, this`first_reading
    {
      events != [] ==> events[0].time == clock(first_reading) && events[|events| - 1].time == last_timestamp
    }

    /** Between begin and end: what has been delivered is the begin and the region events. */
    ghost predicate Running()
      reads this`events, this`last_timestamp, this`epoch_begin, this`readings, this`first_reading
      reads this`begin_reading, this`initialized, this`stream, tasks, tasks.allTasks, tasks.allFrames
      reads tasks.freeTasks, tasks.freeFrames
    {
      TasksValid() && EventsValid() && Marked() && initialized && epoch_begin == clock(begin_reading) &&
      stream == [ProgramBegin(epoch_begin)] + events
    }

    /** The end is delivered last, once, and only when every region is closed. */
    ghost predicate Done()
      reads this, tasks, tasks.allTasks, tasks.allFrames, tasks.freeTasks, tasks.freeFrames
    {
      var e := ProgramEnd(clock(end_reading));
      TasksValid() && EventsValid() && Marked() && initialized && epoch_begin == clock(begin_reading) &&
      Stack() == [] && epoch_begin < e.time && (Steady() ==> last_timestamp <= e.time) &&
      stream == [ProgramBegin(epoch_begin)] + events + [e]
    }

    ghost predicate Valid()
      reads this, tasks, tasks.allTasks, tasks.allFrames, tasks.freeTasks, tasks.freeFrames
    {
      if !initialized then
        TasksValid() && EventsValid() && Stack() == [] && stream == [] && events == [] &&
        !finalized && !epoch_end_set && !ended
      else
        (epoch_end_set ==> finalized) && if epoch_end_set && !ended then Done() else Running()
    }

    constructor (clock: nat -> uint64, tasks: TaskData)
      requires tasks.Valid() && tasks.current_task != null
      requires tasks.current_task in tasks.Stacks() && tasks.Current() == []
      ensures Valid() && !initialized && !finalized && !ended && !epoch_end_set && !application_aborted
      ensures Stack() == []
      ensures this.clock == clock && this.tasks == tasks && readings == last_timestamp == 0
    {
      hide TaskData.Valid, TaskData.Stacks, TaskData.Current, TasksValid, EventsValid, Valid, Stack, Running, Done;
      this.clock, this.tasks := clock, tasks;
      readings, initialized, finalized, application_aborted, last_timestamp, ended := 0, false, false, false, 0, false;
      stream, events, epoch_begin, epoch_end_set := [], [], 0, false;
      begin_reading, first_reading, end_reading := 0, 0, 0;
      new;
      NothingYet();
      NothingOnStack();
    }

    lemma NothingOnStack()
      requires tasks.current_task != null && tasks.current_task in tasks.Stacks() && tasks.Current() == []
      ensures Stack() == []
    {}

    lemma NothingYet()
      requires tasks.Valid() && tasks.current_task != null
      requires tasks.current_task in tasks.Stacks() && tasks.Current() == []
      requires !initialized && !finalized && !ended && !epoch_end_set
      requires stream == events == [] && last_timestamp == epoch_begin == 0
      ensures Valid()
    {
      hide TaskData.Valid, TaskData.Stacks;
    }

    // ------------------------------------------------------------------------ events

    method ClockTicks() returns (t: uint64)
      requires EventsValid()
      modifies this`readings
      ensures EventsValid() && t == clock(old(readings)) && readings == old(readings) + 1
      ensures Steady() ==> epoch_begin <= t <= clock(readings) && last_timestamp <= t
    {
      t := clock(readings);
      readings := readings + 1;
    }

    /** SCOREP_Location_SetLastTimestamp; a time that goes back ends the process. */
    method SetLastTimestamp(t: uint64)
      requires EventsValid() && (Steady() ==> t <= clock(readings))
      modifies this`last_timestamp, this`ended
      ensures EventsValid() && last_timestamp == (if t < old(last_timestamp) then old(last_timestamp) else t)
      ensures ended == (old(ended) || t < old(last_timestamp))
    {
      if t < last_timestamp {
        ended := true;
      } else {
        last_timestamp := t;
      }
    }

    lemma LegalLog()
      requires TasksValid()
      ensures LegalRun(tasks.log) && Run(tasks.log).current == Some(tasks.current_task)
      ensures tasks.Stacks() == Run(tasks.log).stacks
    {}

    /** SCOREP_Task_Enter on the stack of the main location. */
    method PushRegion(region: Region)
      requires TasksValid()
      modifies tasks, tasks.allTasks, tasks.allFrames
      ensures TasksValid() && Stack() == Push(old(Stack()), region)
      ensures fresh(tasks.allTasks - old(tasks.allTasks)) && fresh(tasks.allFrames - old(tasks.allFrames))
    {
      hide TaskData.Valid, Run, Step, LegalRun;
      LegalLog();
      RunOneStack(tasks.log, Op.Enter(region));
      tasks.Enter(region);
    }

    /** SCOREP_Task_Exit */
    method PopRegion()
      requires TasksValid() && Stack() != []
      modifies tasks, tasks.allTasks, tasks.allFrames
      ensures TasksValid() && Stack() == Pop(old(Stack()))
      ensures fresh(tasks.allTasks - old(tasks.allTasks)) && fresh(tasks.allFrames - old(tasks.allFrames))
    {
      hide TaskData.Valid, Run, Step, LegalRun;
      LegalLog();
      RunOneStack(tasks.log, Op<Task>.Exit);
      tasks.Exit();
    }

    /** enter_region */
    method DoEnter(t: uint64, region: Region)
      requires TasksValid() && EventsValid() && t == last_timestamp && region != FILTERED_REGION
      requires Steady() ==> epoch_begin <= t
      modifies this`stream, this`events, tasks, tasks.allTasks, tasks.allFrames
      ensures TasksValid() && EventsValid() && Stack() == Push(old(Stack()), region)
      ensures stream == old(stream) + [EnterRegion(t, region)] && events == old(events) + [EnterRegion(t, region)]
      ensures fresh(tasks.allTasks - old(tasks.allTasks)) && fresh(tasks.allFrames - old(tasks.allFrames))
    {
      hide TasksValid, Stack, Open, Ordered, Recorded;
      RecordedPush(Stack(), region);
      OpenStep(events, EnterRegion(t, region));
      OrderedStep(events, EnterRegion(t, region));
      PushRegion(region);
      stream := stream + [EnterRegion(t, region)];
      events := events + [EnterRegion(t, region)];
    }

    /** exit_region */
    method DoExit(t: uint64, region: Region)
      requires TasksValid() && EventsValid() && t == last_timestamp && region != FILTERED_REGION
      requires Steady() ==> epoch_begin <= t
      requires Stack() != [] && Top(Stack()) == region
      modifies this`stream, this`events, tasks, tasks.allTasks, tasks.allFrames
      ensures TasksValid() && EventsValid() && Stack() == Pop(old(Stack()))
      ensures stream == old(stream) + [ExitRegion(t, region)] && events == old(events) + [ExitRegion(t, region)]
      ensures fresh(tasks.allTasks - old(tasks.allTasks)) && fresh(tasks.allFrames - old(tasks.allFrames))
    {
      hide TasksValid, Stack, Open, Ordered, Recorded;
      RecordedPop(Stack());
      OpenStep(events, ExitRegion(t, region));
      OrderedStep(events, ExitRegion(t, region));
      stream := stream + [ExitRegion(t, region)];
      PopRegion();
      events := events + [ExitRegion(t, region)];
    }

    /** SCOREP_EnterRegion: nothing happens any more if the clock has gone back. */
    method EnterRegionEvent(region: Region)
      requires TasksValid() && EventsValid() && Marked() && !ended && region != FILTERED_REGION
      modifies this`readings, this`last_timestamp, this`ended, this`stream, this`events, this`first_reading
      modifies tasks, tasks.allTasks, tasks.allFrames
      ensures TasksValid() && EventsValid() && Marked() && ended == (clock(old(readings)) < old(last_timestamp))
      ensures readings == old(readings) + 1 && (Steady() ==> !ended)
      ensures !ended ==> Stack() == Push(old(Stack()), region) && last_timestamp == clock(old(readings))
      ensures !ended ==> Emitted(old(stream), old(events), EnterRegion(last_timestamp, region))
      ensures ended ==> Stack() == old(Stack()) && stream == old(stream) && events == old(events)
      ensures fresh(tasks.allTasks - old(tasks.allTasks)) && fresh(tasks.allFrames - old(tasks.allFrames))
    {
      hide TasksValid, Stack, EventsValid;
      var t := ClockTicks();
      SetLastTimestamp(t);
      if ended { return; }
      if events == [] { first_reading := old(readings); }
      DoEnter(t, region);
    }

    /** SCOREP_ExitRegion, of the top region. */
    method ExitRegionEvent(region: Region)
      requires TasksValid() && EventsValid() && Marked() && !ended && region != FILTERED_REGION
      requires Stack() != [] && Top(Stack()) == region
      modifies this`readings, this`last_timestamp, this`ended, this`stream, this`events
      modifies tasks, tasks.allTasks, tasks.allFrames
      ensures TasksValid() && EventsValid() && Marked() && ended == (clock(old(readings)) < old(last_timestamp))
      ensures readings == old(readings) + 1 && (Steady() ==> !ended)
      ensures !ended ==> Stack() == Pop(old(Stack())) && last_timestamp == clock(old(readings))
      ensures !ended ==> Emitted(old(stream), old(events), ExitRegion(last_timestamp, region))
      ensures ended ==> Stack() == old(Stack()) && stream == old(stream) && events == old(events)
      ensures fresh(tasks.allTasks - old(tasks.allTasks)) && fresh(tasks.allFrames - old(tasks.allFrames))
    {
      hide TasksValid, Stack, EventsValid;
      EntersBeforeExits();
      var t := ClockTicks();
      SetLastTimestamp(t);
      if ended { return; }
      DoExit(t, region);
    }

    /** A recorded region on the stack has been entered. */
    lemma EntersBeforeExits()
      requires EventsValid() && Stack() != [] && Top(Stack()) != FILTERED_REGION
      ensures events != [] && Recorded(Stack()) != []
    {
      RecordedPop(Stack());
      hide Stack, Ordered, Recorded;
    }

    /** SCOREP_Location_ExitRegion: the same with a given time. */
    method LocationExitRegion(t: uint64, region: Region)
      requires Steady() ==> epoch_begin <= t <= clock(readings)
      requires TasksValid() && EventsValid() && Marked() && !ended && region != FILTERED_REGION
      requires Stack() != [] && Top(Stack()) == region
      modifies this`last_timestamp, this`ended, this`stream, this`events, tasks, tasks.allTasks, tasks.allFrames
      ensures TasksValid() && EventsValid() && Marked() && ended == (t < old(last_timestamp))
      ensures !ended ==> Stack() == Pop(old(Stack())) && last_timestamp == t
      ensures !ended ==> Emitted(old(stream), old(events), ExitRegion(t, region))
      ensures ended ==> Stack() == old(Stack()) && stream == old(stream) && events == old(events)
      ensures fresh(tasks.allTasks - old(tasks.allTasks)) && fresh(tasks.allFrames - old(tasks.allFrames))
    {
      hide TasksValid, Stack, EventsValid;
      EntersBeforeExits();
      SetLastTimestamp(t);
      if ended { return; }
      DoExit(t, region);
    }

    /** SCOREP_Task_Enter with the region that stands for all filtered ones. */
    method PushFiltered()
      requires TasksValid() && EventsValid()
      modifies tasks, tasks.allTasks, tasks.allFrames
      ensures TasksValid() && EventsValid() && Stack() == Push(old(Stack()), FILTERED_REGION)
      ensures Recorded(Stack()) == Recorded(old(Stack()))
      ensures fresh(tasks.allTasks - old(tasks.allTasks)) && fresh(tasks.allFrames - old(tasks.allFrames))
    {
      hide TasksValid, Stack, Open, Ordered;
      RecordedPush(Stack(), FILTERED_REGION);
      PushRegion(FILTERED_REGION);
    }

    method PopFiltered()
      requires TasksValid() && EventsValid() && Stack() != [] && Top(Stack()) == FILTERED_REGION
      modifies tasks, tasks.allTasks, tasks.allFrames
      ensures TasksValid() && EventsValid() && Stack() == Pop(old(Stack()))
      ensures Recorded(Stack()) == Recorded(old(Stack()))
      ensures fresh(tasks.allTasks - old(tasks.allTasks)) && fresh(tasks.allFrames - old(tasks.allFrames))
    {
      hide TasksValid, Stack, Open, Ordered;
      RecordedPop(Stack());
      PopRegion();
    }

    /** Just this event has been delivered. */
    ghost predicate Emitted(stream0: seq<Event>, events0: seq<Event>, e: Event)
      reads this`stream, this`events
    {
      stream == stream0 + [e] && events == events0 + [e]
    }

    // ------------------------------------------------------------------------- the program

    /** An adapter enters a region: a filtered one only onto the stack. */
    method Enter(region: Region)
      requires Valid() && initialized && !epoch_end_set && !ended
      modifies this`readings, this`last_timestamp, this`ended, this`stream, this`events, this`first_reading
      modifies tasks, tasks.allTasks, tasks.allFrames
      ensures Valid() && old(events) <= events && readings >= old(readings)
      ensures !ended ==> Stack() == Push(old(Stack()), region)
      ensures !ended ==>
        stream == old(stream) + (if region == FILTERED_REGION then [] else [EnterRegion(clock(old(readings)), region)])
      ensures readings == old(readings) + (if region == FILTERED_REGION then 0 else 1)
      ensures region != FILTERED_REGION && !ended ==> last_timestamp == clock(old(readings))
      ensures ended == (region != FILTERED_REGION && clock(old(readings)) < old(last_timestamp))
      ensures ended ==> stream == old(stream) && Stack() == old(Stack())
      ensures Steady() ==> !ended
      ensures fresh(tasks.allTasks - old(tasks.allTasks)) && fresh(tasks.allFrames - old(tasks.allFrames))
    {
      hide TasksValid, Stack, EventsValid;
      if region == FILTERED_REGION {
        PushFiltered();
      } else {
        EnterRegionEvent(region);
      }
    }

    /** An adapter exits the top region: a filtered one only off the stack. */
    method Exit()
      requires Valid() && initialized && !epoch_end_set && !ended && Stack() != []
      modifies this`readings, this`last_timestamp, this`ended, this`stream, this`events
      modifies tasks, tasks.allTasks, tasks.allFrames
      ensures Valid() && old(events) <= events && readings >= old(readings)
      ensures !ended ==> Stack() == Pop(old(Stack()))
      ensures !ended ==>
        var region := old(Top(Stack()));
        stream == old(stream) + (if region == FILTERED_REGION then [] else [ExitRegion(clock(old(readings)), region)])
      ensures readings == old(readings) + (if old(Top(Stack())) == FILTERED_REGION then 0 else 1)
      ensures ended == (old(Top(Stack())) != FILTERED_REGION && clock(old(readings)) < old(last_timestamp))
      ensures ended ==> stream == old(stream) && Stack() == old(Stack())
      ensures Steady() ==> !ended
      ensures fresh(tasks.allTasks - old(tasks.allTasks)) && fresh(tasks.allFrames - old(tasks.allFrames))
    {
      hide TasksValid, Stack, EventsValid, Running;
      ExitTop();
    }

    method TopRegion() returns (region: Region)
      requires TasksValid() && Stack() != []
      ensures region == Top(Stack())
    {
      hide TaskData.Valid;
      region := tasks.GetTopRegion(tasks.current_task);
    }

    method NoFrame() returns (none: bool)
      requires TasksValid()
      ensures none <==> Stack() == []
    {
      hide TaskData.Valid;
      tasks.NoFrameIff(tasks.current_task);
      none := tasks.current_task.current_frame == null;
    }

    /** Nothing but exits has been added. */
    ghost predicate OnlyExits(before: seq<Event>)
      reads this`events
    {
      ExitsAdded(before, events)
    }

    ghost predicate Untouched(stream0: seq<Event>, events0: seq<Event>, last0: uint64)
      reads this`stream, this`events, this`last_timestamp, this`ended
    {
      !ended && stream == stream0 && events == events0 && last_timestamp == last0
    }

    /** The top region is exited as an adapter does it. */
    method ExitTop()
      requires Running() && !ended && Stack() != []
      modifies this`readings, this`last_timestamp, this`ended, this`stream, this`events
      modifies tasks, tasks.allTasks, tasks.allFrames
      ensures Running() && ExitsAdded(old(events), events) && readings >= old(readings)
      ensures !ended ==> Stack() == Pop(old(Stack()))
      ensures !ended ==>
        var region := old(Top(Stack()));
        stream == old(stream) + (if region == FILTERED_REGION then [] else [ExitRegion(clock(old(readings)), region)])
      ensures readings == old(readings) + (if old(Top(Stack())) == FILTERED_REGION then 0 else 1)
      ensures ended == (old(Top(Stack())) != FILTERED_REGION && clock(old(readings)) < old(last_timestamp))
      ensures ended ==> stream == old(stream) && Stack() == old(Stack())
      ensures Steady() ==> !ended
      ensures fresh(tasks.allTasks - old(tasks.allTasks)) && fresh(tasks.allFrames - old(tasks.allFrames))
    {
      hide TasksValid, Stack, EventsValid;
      var region := TopRegion();
      if region != FILTERED_REGION {
        ExitRegionEvent(region);
      } else {
        PopFiltered();
      }
    }

    lemma StillAll()
      ensures Closing(stream, Stack())
    {}

    lemma AllSoFar(stream0: seq<Event>, st0: seq<Region>)
      requires Closing(stream0, st0)
      ensures Untimed(stream) + Closings(Stack()) == Untimed(stream0) + Closings(st0)
    {}

    lemma StillClosing(before: seq<Event>, stBefore: seq<Region>, stream0: seq<Event>, st0: seq<Region>)
      requires Untimed(before) + Closings(stBefore) == Untimed(stream0) + Closings(st0)
      requires stream == before && Stack() == stBefore
      ensures Closing(stream0, st0)
    {}

    lemma RunningTasks()
      requires Running()
      ensures TasksValid()
    {}

    /** What has been delivered since then has one reading of the clock for each event. */
    ghost predicate Clocked(stream0: seq<Event>, readings0: nat)
      reads this`stream, this`readings
    {
      |stream0| <= |stream| && stream[..|stream0|] == stream0 && readings == readings0 + |stream| - |stream0| &&
      forall i :: |stream0| <= i < |stream| ==> stream[i].time == clock(readings0 + i - |stream0|)
    }

    /** With the exits of all that is on the stack, this has been delivered since. */
    ghost predicate Closing(stream0: seq<Event>, st0: seq<Region>)
      reads this`stream, tasks
    {
      Untimed(stream) + Closings(Stack()) == Untimed(stream0) + Closings(st0)
    }

    /** The top region, if it is not filtered, has been exited. */
    lemma TopClosed(before: seq<Event>, stBefore: seq<Region>, t: uint64, stream0: seq<Event>, st0: seq<Region>)
      requires stBefore != [] && Stack() == Pop(stBefore)
      requires stream == before + (if Top(stBefore) == FILTERED_REGION then [] else [ExitRegion(t, Top(stBefore))])
      requires Untimed(before) + Closings(stBefore) == Untimed(stream0) + Closings(st0)
      ensures Closing(stream0, st0)
    {
      hide Stack, Untimed, Closings;
      ClosingsStep(stBefore);
      UntimedStep(before, ExitRegion(t, Top(stBefore)));
      assert before + [] == before;
    }

    /** SCOREP_Task_ExitAllRegions, of the current task of the current location. */
    method ExitAllRegions()
      requires Running() && !ended
      modifies this`readings, this`last_timestamp, this`ended, this`stream, this`events
      modifies tasks, tasks.allTasks, tasks.allFrames
      ensures Running() && (!ended ==> Stack() == []) && OnlyExits(old(events)) && readings >= old(readings)
      ensures Closing(old(stream), old(Stack())) && (!ended ==> Clocked(old(stream), old(readings)))
      ensures old(Stack()) == [] ==>
        Untouched(old(stream), old(events), old(last_timestamp)) && readings == old(readings)
      ensures Steady() ==> !ended
      ensures fresh(tasks.allTasks - old(tasks.allTasks)) && fresh(tasks.allFrames - old(tasks.allFrames))
    {
      hide TasksValid, Stack, EventsValid, Running, ExitsAdded, Closing, Untimed, Closings, Clocked;
      RunningTasks();
      NoExits(events);
      StillAll();
      NothingClocked();
      var none := NoFrame();
      while !none && !ended
        invariant Running() && (none <==> Stack() == []) && OnlyExits(old(events)) && readings >= old(readings)
        invariant Closing(old(stream), old(Stack())) && (!ended ==> Clocked(old(stream), old(readings)))
        invariant old(Stack()) == [] ==>
          none && Untouched(old(stream), old(events), old(last_timestamp)) && readings == old(readings)
        invariant Steady() ==> !ended
        invariant fresh(tasks.allTasks - old(tasks.allTasks)) && fresh(tasks.allFrames - old(tasks.allFrames))
        decreases |Stack()|, !ended
      {
        ghost var before := events;
        ExitNext(old(stream), old(Stack()), old(readings));
        MoreExits(old(events), before, events);
        RunningTasks();
        none := NoFrame();
      }
    }

    /** One turn of that loop. */
    method ExitNext(ghost stream0: seq<Event>, ghost st0: seq<Region>, ghost readings0: nat)
      requires Running() && !ended && Stack() != [] && Closing(stream0, st0) && Clocked(stream0, readings0)
      modifies this`readings, this`last_timestamp, this`ended, this`stream, this`events
      modifies tasks, tasks.allTasks, tasks.allFrames
      ensures Running() && ExitsAdded(old(events), events) && readings >= old(readings)
      ensures Closing(stream0, st0) && (!ended ==> Clocked(stream0, readings0))
      ensures Stack() == if ended then old(Stack()) else Pop(old(Stack()))
      ensures Steady() ==> !ended
      ensures fresh(tasks.allTasks - old(tasks.allTasks)) && fresh(tasks.allFrames - old(tasks.allFrames))
    {
      hide TasksValid, Stack, EventsValid, Running, ExitsAdded, Closing, Untimed, Closings, Clocked, ClockedTo;
      ghost var st, done, n := Stack(), stream, readings;
      AllSoFar(stream0, st0);
      ClockedNow(stream0, readings0);
      ExitTop();
      if ended {
        StillClosing(done, st, stream0, st0);
      } else {
        TopClosed(done, st, clock(n), stream0, st0);
        assert done + [] == done;
        ClockedOnce(done, n, if Top(st) == FILTERED_REGION then [] else [ExitRegion(clock(n), Top(st))]);
        ClockedOn(stream0, readings0, done, n);
      }
    }

    /** The top region is exited with a given time. */
    method LocationExitTop(t: uint64)
      requires Running() && !ended && Stack() != [] && (Steady() ==> epoch_begin <= t <= clock(readings))
      modifies this`last_timestamp, this`ended, this`stream, this`events, tasks, tasks.allTasks, tasks.allFrames
      ensures Running() && ExitsAdded(old(events), events)
      ensures ended == (old(Top(Stack())) != FILTERED_REGION && t < old(last_timestamp))
      ensures !ended ==> Stack() == Pop(old(Stack()))
      ensures !ended ==>
        var region := old(Top(Stack()));
        stream == old(stream) + (if region == FILTERED_REGION then [] else [ExitRegion(t, region)])
      ensures ended ==> Stack() == old(Stack()) && stream == old(stream)
      ensures old(Top(Stack())) != FILTERED_REGION ==>
        Recorded(old(Stack())) != [] && (!ended ==> old(last_timestamp) <= t == last_timestamp)
      ensures old(Top(Stack())) == FILTERED_REGION ==>
        Recorded(Stack()) == Recorded(old(Stack())) && Untouched(old(stream), old(events), old(last_timestamp))
      ensures fresh(tasks.allTasks - old(tasks.allTasks)) && fresh(tasks.allFrames - old(tasks.allFrames))
    {
      hide TasksValid, Stack, EventsValid, Recorded;
      var region := TopRegion();
      if region != FILTERED_REGION {
        EntersBeforeExits();
        LocationExitRegion(t, region);
      } else {
        PopFiltered();
      }
    }

    /** Regions have been exited with the time t, or only filtered ones; or that went back. */
    ghost predicate ClosedAt(t: uint64, recorded0: seq<Region>, stream0: seq<Event>, last0: uint64)
      reads this`stream, this`last_timestamp, this`ended, tasks
    {
      if ended then t < last0 && recorded0 != []
      else
        (last0 <= t == last_timestamp && recorded0 != []) ||
        (Recorded(Stack()) == recorded0 && stream == stream0 && last_timestamp == last0)
    }

    /** What has been delivered since then has one time. */
    ghost predicate AllAt(t: uint64, stream0: seq<Event>)
      reads this`stream
    {
      stream0 <= stream && forall i :: |stream0| <= i < |stream| ==> stream[i].time == t
    }

    /** SCOREP_Location_Task_ExitAllRegions: all with one time. */
    method LocationExitAllRegions(t: uint64)
      requires Running() && !ended && (Steady() ==> epoch_begin <= t <= clock(readings))
      modifies this`last_timestamp, this`ended, this`stream, this`events, tasks, tasks.allTasks, tasks.allFrames
      ensures Running() && (!ended ==> Stack() == []) && OnlyExits(old(events))
      ensures ended == (Recorded(old(Stack())) != [] && t < old(last_timestamp))
      ensures Recorded(old(Stack())) == [] ==> stream == old(stream)
      ensures Closing(old(stream), old(Stack())) && AllAt(t, old(stream))
      ensures !ended ==> last_timestamp == if Recorded(old(Stack())) == [] then old(last_timestamp) else t
      ensures fresh(tasks.allTasks - old(tasks.allTasks)) && fresh(tasks.allFrames - old(tasks.allFrames))
    {
      hide TasksValid, Stack, EventsValid, Running, ExitsAdded, Recorded, Closing, Untimed, Closings;
      RunningTasks();
      NoExits(events);
      StillAll();
      var none := NoFrame();
      while !none && !ended
        invariant Running() && (none <==> Stack() == []) && OnlyExits(old(events))
        invariant Closing(old(stream), old(Stack())) && AllAt(t, old(stream))
        invariant ClosedAt(t, Recorded(old(Stack())), old(stream), old(last_timestamp))
        invariant fresh(tasks.allTasks - old(tasks.allTasks)) && fresh(tasks.allFrames - old(tasks.allFrames))
        decreases |Stack()|, !ended
      {
        ghost var before, st, done := events, Stack(), stream;
        AllSoFar(old(stream), old(Stack()));
        LocationExitTop(t);
        MoreExits(old(events), before, events);
        if ended { StillClosing(done, st, old(stream), old(Stack())); }
        else { TopClosed(done, st, t, old(stream), old(Stack())); }
        RunningTasks();
        none := NoFrame();
      }
      NothingRecorded();
    }

    /** The flag and begin_epoch of SCOREP_InitMeasurementWithArgs: once only. */
    method Initialize()
      requires Valid() && !ended
      modifies this`readings, this`initialized, this`epoch_begin, this`stream, this`begin_reading
      ensures Valid() && initialized && !ended
      ensures old(initialized) ==> stream == old(stream) && readings == old(readings)
      ensures !old(initialized) ==>
        stream == [ProgramBegin(clock(old(readings)))] && epoch_begin == clock(old(readings)) &&
        events == [] && readings == old(readings) + 1
    {
      hide TasksValid, Stack, EventsValid;
      if initialized { return; }
      initialized := true;
      begin_reading := readings;
      var t := ClockTicks();
      SetEpochBegin(t);
      stream := [ProgramBegin(epoch_begin)];
    }

    /** SCOREP_BeginEpoch */
    method SetEpochBegin(t: uint64)
      requires EventsValid() && events == [] && (Steady() ==> t <= clock(readings))
      modifies this`epoch_begin
      ensures EventsValid() && epoch_begin == t
    {
      epoch_begin := t;
    }

    method SetAbortFlag()
      requires Valid()
      modifies this`application_aborted
      ensures Valid() && application_aborted
    {
      hide TasksValid, Stack, EventsValid;
      application_aborted := true;
    }

    /** The start of scorep_finalize: once only, and not for an aborted application.  The
        regions that are exited are those of the finalizing thread, which need not be the
        main thread. */
    method StartFinalize(byMain: bool) returns (go: bool)
      requires Valid() && !ended
      modifies this`readings, this`finalized, this`last_timestamp, this`ended, this`stream, this`events
      modifies tasks, tasks.allTasks, tasks.allFrames
      ensures Valid() && OnlyExits(old(events)) && readings >= old(readings)
      ensures go == (old(initialized) && !old(finalized) && !old(application_aborted))
      ensures finalized == (old(finalized) || go)
      ensures !go || !byMain || old(Stack()) == [] ==>
        stream == old(stream) && events == old(events) && Stack() == old(Stack()) && readings == old(readings) && !ended
      ensures go && byMain && !ended ==> Stack() == []
      ensures Closing(old(stream), old(Stack())) && (!ended ==> Clocked(old(stream), old(readings)))
      ensures go ==> initialized && !epoch_end_set && Running()
      ensures Steady() ==> !ended
      ensures fresh(tasks.allTasks - old(tasks.allTasks)) && fresh(tasks.allFrames - old(tasks.allFrames))
    {
      hide TasksValid, Stack, EventsValid, Untimed, Closings;
      if !initialized || finalized || application_aborted { return false; }
      finalized := true;
      if byMain { ExitAllRegions(); }
      return true;
    }

    /** What subsystems and exit callbacks still record on the main location; an exit without
        an open region is an underflow, which ends the process. */
    method Record(action: Action)
      requires Valid() && initialized && !epoch_end_set && !ended
      modifies this`readings, this`last_timestamp, this`ended, this`stream, this`events, this`first_reading
      modifies tasks, tasks.allTasks, tasks.allFrames
      ensures Valid() && old(events) <= events && readings >= old(readings)
      ensures !ended && action.Enters? ==> Stack() == Push(old(Stack()), action.region)
      ensures !ended && action.Exits? ==> old(Stack()) != [] && Stack() == Pop(old(Stack()))
      ensures Steady() && (action.Exits? ==> old(Stack()) != []) ==> !ended
      ensures !ended ==> Untimed(stream) == Untimed(old(stream)) + Recordings(old(Stack()), [action])
      ensures !ended ==> Clocked(old(stream), old(readings))
      ensures ended ==> stream == old(stream) && Stack() == old(Stack())
      ensures fresh(tasks.allTasks - old(tasks.allTasks)) && fresh(tasks.allFrames - old(tasks.allFrames))
    {
      hide TasksValid, Stack, EventsValid, Untimed, Recordings, Clocked;
      ghost var before, n, st := stream, readings, Stack();
      assert before + [] == before;
      if action.Enters? || st != [] { OneRecording(before, st, action, clock(n)); }
      match action
      case Enters(region) => Enter(region);
        if !ended { ClockedOnce(before, n, if region == FILTERED_REGION then [] else [EnterRegion(clock(n), region)]); }
      case Exits =>
        var none := NoFrame();
        if none {
          ended := true;
        } else {
          Exit();
          ghost var e := ExitRegion(clock(n), Top(st));
          if !ended { ClockedOnce(before, n, if Top(st) == FILTERED_REGION then [] else [e]); }
        }
    }

    lemma ClockedOnce(before: seq<Event>, n: nat, added: seq<Event>)
      requires stream == before + added && |added| <= 1 && readings == n + |added|
      requires added != [] ==> added[0].time == clock(n)
      ensures Clocked(before, n)
    {}

    /** Of the actions the first k have been recorded since, behind what came first. */
    ghost predicate Recording(base: seq<Bare>, st0: seq<Region>, actions: seq<Action>, k: nat)
      requires k <= |actions|
      reads this`stream, tasks
    {
      Untimed(stream) + Recordings(Stack(), actions[k..]) == base + Recordings(st0, actions) &&
      StackAfter(Stack(), actions[k..]) == StackAfter(st0, actions)
    }

    lemma NothingRecordedYet(st0: seq<Region>, actions: seq<Action>)
      requires Stack() == st0
      ensures Recording(Untimed(stream), st0, actions, 0)
    {
      assert actions[0..] == actions;
    }

    lemma ToRecord(base: seq<Bare>, st0: seq<Region>, actions: seq<Action>, k: nat)
      requires k < |actions| && Recording(base, st0, actions, k)
      ensures Untimed(stream) + Recordings(Stack(), actions[k..]) == base + Recordings(st0, actions)
      ensures StackAfter(Stack(), actions[k..]) == StackAfter(st0, actions)
      ensures Untimed(stream) <= base + Recordings(st0, actions)
    {}

    lemma NextRecorded(before: seq<Event>, st: seq<Region>, base: seq<Bare>, st0: seq<Region>, actions: seq<Action>,
                       k: nat)
      requires k < |actions| && (actions[k].Exits? ==> st != [])
      requires Untimed(before) + Recordings(st, actions[k..]) == base + Recordings(st0, actions)
      requires StackAfter(st, actions[k..]) == StackAfter(st0, actions)
      requires Untimed(stream) == Untimed(before) + Recordings(st, [actions[k]])
      requires Stack() == if actions[k].Enters? then Push(st, actions[k].region) else Pop(st)
      ensures Recording(base, st0, actions, k + 1)
    {
      hide Untimed, Recordings, StackAfter, Stack;
      RecordingsStep(st, actions[k..]);
      assert actions[k..][1..] == actions[k + 1..];
    }

    lemma AllRecorded(base: seq<Bare>, st0: seq<Region>, actions: seq<Action>)
      requires Recording(base, st0, actions, |actions|)
      ensures Untimed(stream) == base + Recordings(st0, actions) && Stack() == StackAfter(st0, actions)
    {
      NoActions(Stack());
      assert actions[|actions|..] == [];
    }

    /** One reading for each event, up to a place in the stream. */
    ghost predicate ClockedTo(stream0: seq<Event>, readings0: nat, mid: seq<Event>, n: nat) {
      stream0 <= mid && n == readings0 + |mid| - |stream0| &&
      forall i :: |stream0| <= i < |mid| ==> mid[i].time == clock(readings0 + i - |stream0|)
    }

    lemma NothingClocked()
      ensures Clocked(stream, readings)
    {}

    lemma ClockedNow(stream0: seq<Event>, readings0: nat)
      ensures Clocked(stream0, readings0) <==> ClockedTo(stream0, readings0, stream, readings)
    {}

    lemma ClockedOn(stream0: seq<Event>, readings0: nat, mid: seq<Event>, n: nat)
      requires ClockedTo(stream0, readings0, mid, n) && Clocked(mid, n)
      ensures Clocked(stream0, readings0)
    {
      forall i | |stream0| <= i < |stream| ensures stream[i].time == clock(readings0 + i - |stream0|) {
        if i < |mid| {
          assert stream[i] == mid[i];
        } else {
          assert n + i - |mid| == readings0 + i - |stream0|;
        }
      }
    }

    lemma BothPhases(stream0: seq<Event>, readings0: nat, mid: seq<Event>, n: nat)
      requires ClockedTo(stream0, readings0, mid, n) && mid < stream && AllAt(clock(n), mid)
      ensures Phases(stream0, readings0, Untimed(mid), |mid|)
    {
      hide Untimed;
      assert stream[..|mid|] == mid;
    }

    /** The region events up to place n, as given, are the ones before the end: each of those
        since then has a reading of the clock of its own, and all behind have one. */
    ghost predicate Phases(stream0: seq<Event>, readings0: nat, recorded: seq<Bare>, n: nat)
      reads this`stream
    {
      |stream0| <= n < |stream| && stream[..|stream0|] == stream0 && Untimed(stream[..n]) == recorded &&
      (forall i :: |stream0| <= i < n ==> stream[i].time == clock(readings0 + i - |stream0|)) &&
      (forall i :: n <= i < |stream| ==> stream[i].time == clock(readings0 + n - |stream0|))
    }

    /** The loops and callbacks of the finalization, with all that they record. */
    method RecordAll(actions: seq<Action>)
      requires Valid() && initialized && finalized && !epoch_end_set && !ended
      modifies this`readings, this`last_timestamp, this`ended, this`stream, this`events, this`first_reading
      modifies tasks, tasks.allTasks, tasks.allFrames
      ensures Valid() && old(events) <= events && readings >= old(readings)
      ensures actions == [] ==> events == old(events)
      ensures Untimed(stream) <= Untimed(old(stream)) + Recordings(old(Stack()), actions)
      ensures !ended ==>
        Untimed(stream) == Untimed(old(stream)) + Recordings(old(Stack()), actions) &&
        Stack() == StackAfter(old(Stack()), actions) && Clocked(old(stream), old(readings))
      ensures Steady() && NoUnderflow(old(|Stack()|), actions) ==> !ended
      ensures fresh(tasks.allTasks - old(tasks.allTasks)) && fresh(tasks.allFrames - old(tasks.allFrames))
    {
      hide TasksValid, Stack, EventsValid, Running, Done, Untimed, Recordings, StackAfter, Recording;
      hide Clocked, ClockedTo;
      ghost var rest, base := Stack(), Untimed(stream);
      NothingRecordedYet(rest, actions);
      NothingClocked();
      for k := 0 to |actions|
        invariant Valid() && initialized && finalized && !epoch_end_set && !ended
        invariant old(events) <= events && readings >= old(readings) && (k == 0 ==> events == old(events))
        invariant NoUnderflow(|rest|, actions) ==> NoUnderflow(|Stack()|, actions[k..])
        invariant Recording(base, rest, actions, k) && Clocked(old(stream), old(readings))
        invariant fresh(tasks.allTasks - old(tasks.allTasks)) && fresh(tasks.allFrames - old(tasks.allFrames))
      {
        assert actions[k..][1..] == actions[k + 1..];
        ghost var done, st, n := stream, Stack(), readings;
        ToRecord(base, rest, actions, k);
        ClockedNow(old(stream), old(readings));
        Record(actions[k]);
        if ended { return; }
        NextRecorded(done, st, base, rest, actions, k);
        ClockedOn(old(stream), old(readings), done, n);
      }
      AllRecorded(base, rest, actions);
    }

    ghost predicate LaterThanBegin(n: nat)
      reads this`epoch_begin
    {
      forall k: nat :: n <= k ==> epoch_begin < clock(k)
    }

    /** scorep_finalize, with all that is recorded between the first exits and the end.  With
        a clock that never goes back and has moved on since the begin, and no underflow, the
        end is reached. */
    method Finalize(byMain: bool, actions: seq<Action>)
      requires Valid() && !ended
      modifies this`readings, this`finalized, this`last_timestamp, this`ended, this`stream, this`events
      modifies this`first_reading, this`end_reading, this`epoch_end_set
      modifies tasks, tasks.allTasks, tasks.allFrames
      ensures Valid() && old(events) <= events && epoch_begin == old(epoch_begin)
      ensures var go := old(initialized) && !old(finalized) && !old(application_aborted);
        (!go ==> stream == old(stream) && finalized == old(finalized) && !ended) &&
        (go ==> finalized && (!ended ==> epoch_end_set)) &&
        (go && actions == [] ==> OnlyExits(old(events))) &&
        (Steady() && LaterThanBegin(old(readings)) && NoUnderflow(if byMain then 0 else old(|Stack()|), actions) ==>
           !ended)
      ensures var go := old(initialized) && !old(finalized) && !old(application_aborted);
        var st := old(Stack());
        var rest := if byMain then [] else st;
        var recorded := Untimed(old(stream)) + (if byMain then Closings(st) else []) + Recordings(rest, actions);
        (go ==> Untimed(stream) <= recorded + Closings(StackAfter(rest, actions))) &&
        (go && !ended ==>
           Untimed(stream) == recorded + Closings(StackAfter(rest, actions)) && stream[|stream| - 1].ProgramEnd? &&
           exists n :: Phases(old(stream), old(readings), recorded, n))
      ensures fresh(tasks.allTasks - old(tasks.allTasks)) && fresh(tasks.allFrames - old(tasks.allFrames))
    {
      hide TasksValid, Stack, EventsValid, Running, Done, Untimed, Closings, Recordings, StackAfter, Phases, Clocked;
      hide NoUnderflow;
      var go := StartFinalize(byMain);
      AllSoFar(old(stream), old(Stack()));
      if !go || ended { return; }
      ClockedNow(old(stream), old(readings));
      ghost var start, n, rest, before := stream, readings, Stack(), events;
      NoClosings();
      assert Untimed(start) == Untimed(old(stream)) + (if byMain then Closings(old(Stack())) else []);
      RecordAll(actions);
      if ended { return; }
      ClockedOn(old(stream), old(readings), start, n);
      ClockedNow(old(stream), old(readings));
      ghost var mid, m := stream, readings;
      EndEpoch();
      AllSoFar(mid, StackAfter(rest, actions));
      if !ended { BothPhases(old(stream), old(readings), mid, m); }
      if actions == [] { MoreExits(old(events), before, events); }
    }

    /** SCOREP_GetEndEpoch */
    method EndTime() returns (t: uint64)
      requires Running()
      modifies this`readings, this`end_reading
      ensures Running() && t == clock(end_reading) && end_reading == old(readings)
      ensures Steady() ==> epoch_begin <= t <= clock(readings) && last_timestamp <= t
    {
      hide TasksValid, Stack, EventsValid;
      end_reading := readings;
      t := ClockTicks();
    }

    method DeliverEnd(t: uint64)
      requires Running() && Stack() == [] && t == clock(end_reading) && epoch_begin < t
      requires Steady() ==> last_timestamp <= t
      modifies this`stream
      ensures Done() && stream == old(stream) + [ProgramEnd(t)]
    {
      hide TasksValid, Stack, EventsValid;
      stream := stream + [ProgramEnd(t)];
    }

    /** end_epoch, with the check of SCOREP_EndEpoch that time has passed: what is still open
        on the main location is exited at the time of the end. */
    method EndEpoch()
      requires Valid() && initialized && finalized && !epoch_end_set && !ended
      modifies this`readings, this`last_timestamp, this`ended, this`stream, this`events
      modifies this`end_reading, this`epoch_end_set
      modifies tasks, tasks.allTasks, tasks.allFrames
      ensures Valid() && OnlyExits(old(events)) && (!ended ==> epoch_end_set && end_reading == old(readings))
      ensures Closing(old(stream), old(Stack())) && AllAt(clock(old(readings)), old(stream))
      ensures !ended ==> Stack() == [] && old(stream) < stream && stream[|stream| - 1].ProgramEnd?
      ensures ended == (clock(old(readings)) <= epoch_begin ||
                        (Recorded(old(Stack())) != [] && clock(old(readings)) < old(last_timestamp)))
      ensures !ended && Recorded(old(Stack())) == [] ==> stream == old(stream) + [ProgramEnd(clock(old(readings)))]
      ensures !ended ==>
        last_timestamp == if Recorded(old(Stack())) == [] then old(last_timestamp) else clock(old(readings))
      ensures Steady() && epoch_begin < clock(old(readings)) ==> !ended
      ensures fresh(tasks.allTasks - old(tasks.allTasks)) && fresh(tasks.allFrames - old(tasks.allFrames))
    {
      hide TasksValid, Stack, EventsValid, Running, Done, ExitsAdded, Recorded, Closing, Untimed, Closings;
      NoExits(events);
      StillAll();
      NothingAt(clock(readings));
      var t := EndTime();
      if t <= epoch_begin {
        ended := true;
        return;
      }
      epoch_end_set := true;
      LocationExitAllRegions(t);
      if ended { return; }
      ghost var closed := stream;
      AllSoFar(old(stream), old(Stack()));
      DeliverEnd(t);
      EndClosed(closed, old(stream), old(Stack()), t);
    }

    lemma NothingAt(t: uint64)
      ensures AllAt(t, stream)
    {}

    /** The end is no region event. */
    lemma EndClosed(closed: seq<Event>, stream0: seq<Event>, st0: seq<Region>, t: uint64)
      requires stream == closed + [ProgramEnd(t)]
      requires stream0 <= closed && forall i :: |stream0| <= i < |closed| ==> closed[i].time == t
      requires Untimed(closed) + Closings(Stack()) == Untimed(stream0) + Closings(st0)
      ensures Closing(stream0, st0) && AllAt(t, stream0) && stream0 < stream
    {
      hide Untimed, Closings, Stack;
      UntimedStep(closed, ProgramEnd(t));
      assert Untimed(closed) + [] == Untimed(closed);
    }

    // ------------------------------------------------------------------------ main results

    /** A program that has come to its end leaves a complete stream, and there is one end. */
    lemma StreamComplete()
      requires Valid() && epoch_end_set && !ended
      ensures initialized && finalized && CompleteStream(stream)
      ensures forall i :: 0 <= i < |stream| - 1 ==> !stream[i].ProgramEnd?
    {
      hide TasksValid, Stack, Open;
      assert stream[1..|stream| - 1] == events;
    }

    /** At any time before, what is open in the stream is the stack without what is filtered. */
    lemma StreamNested()
      requires Valid() && initialized && !(epoch_end_set && !ended)
      ensures stream[0].ProgramBegin? && Open(stream[1..]) == Some(Recorded(Stack())) && Ordered(stream[1..])
      ensures forall i :: 1 <= i < |stream| ==> IsRegionEvent(stream[i])
    {
      hide TasksValid, Stack, Open;
      assert stream[1..] == events;
    }

    /** With a clock that never goes back the whole stream is in order. */
    lemma SteadyInOrder()
      requires Valid() && epoch_end_set && !ended && Steady()
      ensures Ordered(stream)
    {
      hide TasksValid, Stack, Open;
      AroundEvents(stream, epoch_begin, events);
    }

    /** The source does not compare the first region event's reading of the clock with that
        of the begin, nor that of the end with the last time stamp.  Exactly if both are in
        order, or there are no region events, the whole stream is. */
    lemma OrderedIff()
      requires Valid() && epoch_end_set && !ended
      ensures Ordered(stream) <==>
        events == [] || (clock(begin_reading) <= clock(first_reading) && last_timestamp <= clock(end_reading))
    {
      hide TasksValid, Stack, Open;
      AroundEvents(stream, epoch_begin, events);
    }
  }

  /** No exit comes without an open region. */
  predicate NoUnderflow(depth: nat, actions: seq<Action>)
    decreases |actions|
  {
    actions == [] ||
    if actions[0].Enters? then NoUnderflow(depth + 1, actions[1..])
    else depth > 0 && NoUnderflow(depth - 1, actions[1..])
  }

  lemma AroundEvents(stream: seq<Event>, begin: uint64, events: seq<Event>)
    requires |stream| >= 2 && Ordered(events)
    requires stream == [ProgramBegin(begin)] + events + [stream[|stream| - 1]] && begin < stream[|stream| - 1].time
    ensures Ordered(stream) <==>
      events == [] || (begin <= events[0].time && events[|events| - 1].time <= stream[|stream| - 1].time)
  {
    var n := |stream| - 1;
    forall i | 1 < i < n ensures stream[i - 1].time <= stream[i].time {
      assert stream[i] == events[i - 1] && stream[i - 1] == events[i - 2];
    }
    if events != [] {
      assert stream[0].time == begin && stream[1] == events[0] && stream[n - 1] == events[|events| - 1];
    }
  }

  lemma TurnedRound(stream: seq<Event>)
    requires |stream| >= 2 && stream[1].time < stream[0].time
    ensures !Ordered(stream)
  {}

  /** A region is entered right after the begin. */
  method EnterFirst(m: Measurement)
    requires m.Valid() && !m.initialized && !m.finalized && !m.ended && !m.epoch_end_set && !m.application_aborted
    requires m.Stack() == [] && m.readings == m.last_timestamp == 0
    modifies m, m.tasks, m.tasks.allTasks, m.tasks.allFrames
    ensures m.Valid() && m.initialized && !m.finalized && !m.ended && !m.epoch_end_set && !m.application_aborted
    ensures m.Stack() == [1] && m.readings == 2 && m.epoch_begin == m.clock(0) && m.last_timestamp == m.clock(1)
    ensures m.stream == [ProgramBegin(m.clock(0)), EnterRegion(m.clock(1), 1)]
    ensures fresh(m.tasks.allTasks - old(m.tasks.allTasks)) && fresh(m.tasks.allFrames - old(m.tasks.allFrames))
  {
    hide TaskData.Valid, Measurement.Valid, Measurement.Running, Measurement.Stack, Recorded;
    m.Initialize();
    m.Enter(1);
  }

  /** One region is entered and exited. */
  method EnterAndExit(m: Measurement)
    requires m.Valid() && !m.initialized && !m.finalized && !m.ended && !m.epoch_end_set && !m.application_aborted
    requires m.Stack() == [] && m.readings == m.last_timestamp == 0 && m.clock(1) <= m.clock(2)
    modifies m, m.tasks, m.tasks.allTasks, m.tasks.allFrames
    ensures m.Valid() && m.initialized && !m.finalized && !m.ended && !m.epoch_end_set && !m.application_aborted
    ensures m.Stack() == [] && m.readings == 3 && m.epoch_begin == m.clock(0)
    ensures m.stream == [ProgramBegin(m.clock(0)), EnterRegion(m.clock(1), 1), ExitRegion(m.clock(2), 1)]
    ensures fresh(m.tasks.allTasks - old(m.tasks.allTasks)) && fresh(m.tasks.allFrames - old(m.tasks.allFrames))
  {
    hide TaskData.Valid, Measurement.Valid, Measurement.Running, Measurement.Stack, Recorded;
    EnterFirst(m);
    m.Exit();
  }

  /** The same before the program ends. */
  method OneRegion(m: Measurement)
    requires m.Valid() && !m.initialized && !m.finalized && !m.ended && !m.epoch_end_set && !m.application_aborted
    requires m.Stack() == [] && m.readings == m.last_timestamp == 0
    requires m.clock(1) <= m.clock(2) && m.clock(0) < m.clock(3)
    modifies m, m.tasks, m.tasks.allTasks, m.tasks.allFrames
    ensures m.Valid() && m.epoch_end_set && !m.ended
    ensures m.stream == [ProgramBegin(m.clock(0)), EnterRegion(m.clock(1), 1), ExitRegion(m.clock(2), 1),
                         ProgramEnd(m.clock(3))]
  {
    hide TaskData.Valid, Measurement.Valid, Measurement.Running, Measurement.Stack, ExitsAdded, Recorded;
    hide Measurement.Closing, Measurement.Clocked, Measurement.AllAt;
    EnterAndExit(m);
    var go := m.StartFinalize(true);
    NothingRecorded();
    m.EndEpoch();
  }

  /** A clock that goes back once, after the begin, goes unnoticed: 5, 3, 5, 7. */
  method ClockGoesBack() returns (m: Measurement)
    ensures m.Valid() && m.epoch_end_set && !m.ended && !Ordered(m.stream)
  {
    hide TaskData.Valid, Measurement.Valid, Measurement.Stack, Ordered;
    var tasks := new TaskData(0, 0);
    m := new Measurement(n => if n == 0 then 5 else if n < 4 then 2 * n + 1 else 7, tasks);
    OneRegion(m);
    TurnedRound(m.stream);
  }
}
