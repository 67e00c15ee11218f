/** The list of locations and their initialization, src/measurement/
    scorep_location_management.c.  Initializing a location calls the subsystems back, and
    they may create further locations, while the list is being walked or later on. */
module LocationActivation {
  datatype Kind = CpuThread | Gpu | Metric

  class Location {
    const kind: Kind
    var parent: Location?
    var next: Location?
    ghost const position: nat

    constructor (kind: Kind, ghost position: nat)
      ensures this.kind == kind && this.position == position && parent == null && next == null
    {
      this.kind, this.position, parent, next := kind, position, null, null;
    }
  }

  /** A location that a subsystem creates when it is called back; the parent of one that is
      no CPU location is named by its place in the list, and is none if there is no such. */
  datatype Request = Request(kind: Kind, hasParadigm: bool, parent: nat)

  /** Only CPU and GPU locations have a paradigm. */
  predicate Creatable(r: Request) { r.kind != Metric || !r.hasParadigm }

  /** How many locations the callbacks still create from the n-th initialization on. */
  function Pending(plan: seq<seq<Request>>, n: nat): nat
    decreases |plan| - n
  {
    if n >= |plan| then 0 else |plan[n]| + Pending(plan, n + 1)
  }

  function Planned(plan: seq<seq<Request>>, n: nat): seq<Request> { if n < |plan| then plan[n] else [] }

  /** What the initializations from number m up to n ask for, in order. */
  function Requests(plan: seq<seq<Request>>, m: nat, n: nat): seq<Request> {
    if n <= m then [] else Requests(plan, m, n - 1) + Planned(plan, n - 1)
  }

  /** The locations that are created, in order, and the number of the next initialization. */
  datatype Creation = Creation(requests: seq<Request>, next: nat)

  /** What the first k requests of the n-th initialization lead to, once locations other than
      CPU locations are initialized as soon as they are created. */
  function Unfolded(plan: seq<seq<Request>>, n: nat, k: nat): (c: Creation)
    requires k <= |Planned(plan, n)|
    ensures c.next > n
    decreases if n < |plan| then |plan| - n else 0, k
  {
    if k == 0 then Creation([], n + 1)
    else
      var c, r := Unfolded(plan, n, k - 1), Planned(plan, n)[k - 1];
      if r.kind == CpuThread then Creation(c.requests + [r], c.next)
      else
        var d := Unfolded(plan, c.next, |Planned(plan, c.next)|);
        Creation(c.requests + [r] + d.requests, d.next)
  }

  /** The same for all its requests. */
  function Whole(plan: seq<seq<Request>>, n: nat): (c: Creation)
    ensures c.next > n
  {
    Unfolded(plan, n, |Planned(plan, n)|)
  }

  /** Whoever asks for them in between: all that the initializations ask for is created, and
      nothing else. */
  lemma PlansInFull(plan: seq<seq<Request>>, n: nat)
    ensures multiset(Whole(plan, n).requests) == multiset(Requests(plan, n, Whole(plan, n).next))
  {
    hide Requests, Unfolded;
    var all := Planned(plan, n);
    PlansSoFar(plan, n, |all|);
    assert all[..|all|] == all;
    RequestsFirst(plan, n, Whole(plan, n).next);
  }

  ghost predicate InFull(plan: seq<seq<Request>>, n: nat, k: nat)
    requires k <= |Planned(plan, n)|
  {
    var c := Unfolded(plan, n, k);
    multiset(c.requests) == multiset(Planned(plan, n)[..k]) + multiset(Requests(plan, n + 1, c.next))
  }

  lemma {:induction false} PlansSoFar(plan: seq<seq<Request>>, n: nat, k: nat)
    requires k <= |Planned(plan, n)|
    ensures InFull(plan, n, k)
    decreases if n < |plan| then |plan| - n else 0, k
  {
    hide InFull, Unfolded;
    if k == 0 {
      NothingYet(plan, n);
    } else {
      var next := Unfolded(plan, n, k - 1).next;
      PlansSoFar(plan, n, k - 1);
      PlansSoFar(plan, next, |Planned(plan, next)|);
      InFullStep(plan, n, k);
    }
  }

  lemma NothingYet(plan: seq<seq<Request>>, n: nat)
    ensures InFull(plan, n, 0)
  {
    NoRequests(plan, n + 1);
  }

  lemma UnfoldedStep(plan: seq<seq<Request>>, n: nat, k: nat)
    requires 0 < k <= |Planned(plan, n)|
    ensures var c, r := Unfolded(plan, n, k - 1), Planned(plan, n)[k - 1];
            var d := Unfolded(plan, c.next, |Planned(plan, c.next)|);
            Unfolded(plan, n, k) ==
            if r.kind == CpuThread then Creation(c.requests + [r], c.next)
            else Creation(c.requests + [r] + d.requests, d.next)
  {}

  lemma InFullStep(plan: seq<seq<Request>>, n: nat, k: nat)
    requires 0 < k <= |Planned(plan, n)| && InFull(plan, n, k - 1)
    requires var next := Unfolded(plan, n, k - 1).next; InFull(plan, next, |Planned(plan, next)|)
    ensures InFull(plan, n, k)
  {
    hide Requests, Planned, Unfolded;
    UnfoldedStep(plan, n, k);
    var c, ps := Unfolded(plan, n, k - 1), Planned(plan, n);
    var all := Planned(plan, c.next);
    var d := Unfolded(plan, c.next, |all|);
    var early, late := Requests(plan, n + 1, c.next), Requests(plan, c.next + 1, d.next);
    assert all[..|all|] == all;
    assert ps[..k] == ps[..k - 1] + [ps[k - 1]];
    if ps[k - 1].kind != CpuThread {
      RequestsSplit(plan, n + 1, c.next, d.next);
      RequestsFirst(plan, c.next, d.next);
      assert Requests(plan, n + 1, d.next) == early + (all + late);
      Regroup(multiset(ps[..k - 1]), multiset{ps[k - 1]}, multiset(early), multiset(all), multiset(late));
    }
  }

  lemma Regroup(a: multiset<Request>, b: multiset<Request>, c: multiset<Request>, d: multiset<Request>,
                e: multiset<Request>)
    ensures a + c + b + (d + e) == a + b + (c + (d + e))
  {}

  lemma NoRequests(plan: seq<seq<Request>>, m: nat)
    ensures Requests(plan, m, m) == []
  {}

  lemma {:induction false} RequestsSplit(plan: seq<seq<Request>>, l: nat, m: nat, n: nat)
    requires l <= m <= n
    ensures Requests(plan, l, n) == Requests(plan, l, m) + Requests(plan, m, n)
  {
    if m < n { RequestsSplit(plan, l, m, n - 1); }
  }

  lemma RequestsFirst(plan: seq<seq<Request>>, m: nat, n: nat)
    requires m < n
    ensures Requests(plan, m, n) == Planned(plan, m) + Requests(plan, m + 1, n)
  {
    RequestsSplit(plan, m, m + 1, n);
    assert Requests(plan, m, m) == [];
  }

  /** A location and its parent, as they are listed. */
  datatype Link = Link(location: Location, parent: Location?)

  ghost predicate ParentsBefore(list: seq<Location>)
    reads list`parent
  {
    forall i {:trigger list[i].parent} :: 0 <= i < |list| && list[i].parent != null ==> list[i].parent in list[..i]
  }

  lemma ParentsGrow(list: seq<Location>, location: Location)
    requires ParentsBefore(list) && (location.parent != null ==> location.parent in list)
    ensures ParentsBefore(list + [location])
  {
    var longer := list + [location];
    forall i {:trigger longer[i].parent} | 0 <= i < |longer| && longer[i].parent != null
      ensures longer[i].parent in longer[..i]
    {
      assert i < |list| ==> longer[..i] == list[..i];
      assert i == |list| ==> longer[..i] == list;
    }
  }

  ghost function LinksOf(list: seq<Location>): (links: seq<Link>)
    reads list`parent
    ensures |links| == |list|
    ensures forall i :: 0 <= i < |list| ==> links[i] == Link(list[i], list[i].parent)
  {
    if list == [] then []
    else
      var n := |list| - 1;
      LinksOf(list[..n]) + [Link(list[n], list[n].parent)]
  }

  lemma LinksGrow(list: seq<Location>, location: Location)
    ensures LinksOf(list + [location]) == LinksOf(list) + [Link(location, location.parent)]
  {}

  /** The location at place p is what the request asks for. */
  ghost predicate Answers(links: seq<Link>, r: Request, p: nat) {
    p < |links| && links[p].location.kind == r.kind &&
    links[p].parent == if r.kind == CpuThread || r.parent >= p then null else links[r.parent].location
  }

  /** From a place on the requests are answered one after the other. */
  ghost predicate Answered(links: seq<Link>, rs: seq<Request>, start: nat) {
    start + |rs| <= |links| && forall k :: 0 <= k < |rs| ==> Answers(links, rs[k], start + k)
  }

  lemma StillAnswered(links: seq<Link>, longer: seq<Link>, rs: seq<Request>, start: nat)
    requires Answered(links, rs, start) && links <= longer
    ensures Answered(longer, rs, start)
  {
    forall k | 0 <= k < |rs| ensures Answers(longer, rs[k], start + k) {
      assert Answers(links, rs[k], start + k);
    }
  }

  lemma MoreAnswered(links: seq<Link>, longer: seq<Link>, rs: seq<Request>, more: seq<Request>, start: nat)
    requires Answered(links, rs, start) && links <= longer && Answered(longer, more, start + |rs|)
    ensures Answered(longer, rs + more, start)
  {
    StillAnswered(links, longer, rs, start);
    hide Answers;
    forall k | 0 <= k < |rs + more| ensures Answers(longer, (rs + more)[k], start + k) {
      if k >= |rs| { assert Answers(longer, more[k - |rs|], start + |rs| + (k - |rs|)); }
    }
  }

  function OfKind(list: seq<Location>, cpu: bool): seq<Location>
  {
    if list == [] then []
    else
      var n := |list| - 1;
      OfKind(list[..n], cpu) + (if (list[n].kind == CpuThread) == cpu then [list[n]] else [])
  }

  lemma OfKindStep(list: seq<Location>, l: Location, cpu: bool)
    ensures OfKind(list + [l], cpu) == OfKind(list, cpu) + (if (l.kind == CpuThread) == cpu then [l] else [])
  {
    assert (list + [l])[..|list|] == list;
  }

  /** In the order of creation. */
  ghost predicate Rising(s: seq<Location>) {
    forall i, j :: 0 <= i < j < |s| ==> s[i].position < s[j].position
  }

  lemma {:induction false} OfKindRising(list: seq<Location>, cpu: bool)
    requires Rising(list)
    ensures Rising(OfKind(list, cpu)) && forall l :: l in OfKind(list, cpu) ==> l in list
  {
    if list != [] {
      var n := |list| - 1;
      OfKindRising(list[..n], cpu);
      forall l | l in OfKind(list[..n], cpu) ensures l.position < list[n].position {
        assert l in list[..n];
      }
    }
  }

  class Locations {
    /** What the callbacks of the n-th initialization create; finitely many in all. */
    const plan: seq<seq<Request>>
    var head: Location?
    /** The last location, whose next field is to be set; none for the head of the list. */
    var tail: Location?
    var deferInit: bool
    /** The calls of the subsystems' and the threads' functions so far. */
    var initialized: seq<Location>
    var activated: seq<Location>
    ghost var list: seq<Location>
    /** The length of the list when initialization was no longer deferred. */
    ghost var deferred: nat

    ghost predicate Linked()
      reads this`list, this`head, this`tail, list
    {
      (forall i :: 0 <= i < |list| ==> list[i].position == i) &&
      (forall i {:trigger list[i].next} :: 0 <= i < |list| ==>
         list[i].next == if i + 1 < |list| then list[i + 1] else null) &&
      head == (if list == [] then null else list[0]) &&
      tail == (if list == [] then null else list[|list| - 1])
    }

    /** A parent stands before its children. */
    ghost predicate Parents()
      reads this`list, list`parent
    {
      ParentsBefore(list)
    }

    /** The locations that were in the list at its activation, and the later ones other than
        CPU locations, in the order of their creation. */
    ghost function Due(): seq<Location>
      requires deferred <= |list|
      reads this`list, this`deferred
    {
      list[..deferred] + OfKind(list[deferred..], false)
    }

    ghost function Links(): (links: seq<Link>)
      reads this`list, list`parent
      ensures |links| == |list|
    {
      LinksOf(list)
    }

    ghost predicate Progress()
      reads this
    {
      if deferInit then |initialized| <= |list| && initialized == list[..|initialized|]
      else deferred <= |list| && initialized == Due()
    }

    ghost predicate Valid()
      reads this, list
    {
      Linked() && Parents() && Progress()
    }

    /** The initialization of a location that is about to happen is the next that is due. */
    ghost predicate Next(location: Location)
      reads this
    {
      if deferInit then |initialized| < |list| && initialized + [location] == list[..|initialized| + 1]
      else deferred <= |list| && initialized + [location] == Due()
    }

    constructor (plan: seq<seq<Request>>)
      requires forall n, k :: 0 <= n < |plan| && 0 <= k < |plan[n]| ==> Creatable(plan[n][k])
      ensures Valid() && SoundPlan() && list == [] && deferInit && this.plan == plan && initialized == activated == []
    {
      this.plan := plan;
      head, tail, deferInit, initialized, activated, list, deferred := null, null, true, [], [], [], 0;
    }

    /** scorep_location_create_location: at the end of the list. */
    method Append(kind: Kind, parent: Location?) returns (location: Location)
      requires Linked() && Parents() && (parent != null ==> parent in list)
      modifies this`head, this`tail, this`list, list`next
      ensures Linked() && Parents() && fresh(location) && list == old(list) + [location] && location.kind == kind
      ensures location.parent == parent && Links() == old(Links()) + [Link(location, parent)]
    {
      hide ParentsBefore, LinksOf;
      location := new Location(kind, |list|);
      if tail == null {
        head := location;
      } else {
        tail.next := location;
      }
      tail := location;
      location.parent := parent;
      ghost var before := list;
      list := list + [location];
      LinksGrow(before, location);
      ParentsGrow(before, location);
    }

    ghost function Remaining(): nat
      reads this`initialized
    {
      if |initialized| < |plan| then |plan| - |initialized| else 0
    }

    ghost predicate SoundPlan() {
      forall n, k :: 0 <= n < |plan| && 0 <= k < |plan[n]| ==> Creatable(plan[n][k])
    }

    /** SCOREP_Location_CreateNonCPULocation */
    method CreateNonCpu(kind: Kind, hasParadigm: bool, parent: Location?) returns (location: Location)
      requires Valid() && SoundPlan() && (parent != null ==> parent in list)
      requires kind != CpuThread && (kind == Gpu || !hasParadigm)
      modifies this`head, this`tail, this`list, this`initialized, list`next
      ensures Valid() && Grown(old(list)) && |list| > |old(list)| && location == list[|old(list)|]
      ensures location.kind == kind && location.parent == parent
      ensures deferInit ==> initialized == old(initialized) && Links() == old(Links()) + [Link(location, parent)]
      ensures !deferInit ==>
        var n := old(|initialized|);
        var c := Whole(plan, n);
        |initialized| == c.next > n && old(Links()) + [Link(location, parent)] <= Links() &&
        |list| == |old(list)| + 1 + |c.requests| && Answered(Links(), c.requests, |old(list)| + 1)
      decreases Remaining(), 1
    {
      hide Linked, Parents, OfKind, Answered, Links, Whole;
      location := Append(kind, parent);
      DueGrows(old(list), location);
      if !deferInit {
        InitializeLocation(location);
      }
    }

    /** SCOREP_Location_CreateCPULocation: initialized here only by the activation; the
        threads initialize what is created later. */
    method CreateCpu() returns (location: Location)
      requires Valid()
      modifies this`head, this`tail, this`list, list`next
      ensures Valid() && Grown(old(list)) && list == old(list) + [location]
      ensures location.kind == CpuThread && location.parent == null && Links() == old(Links()) + [Link(location, null)]
    {
      hide Linked, Parents, OfKind, Links;
      location := Append(CpuThread, null);
      DueStays(old(list), location);
    }

    lemma DueStays(list0: seq<Location>, location: Location)
      requires list == list0 + [location] && location.kind == CpuThread
      ensures !deferInit && deferred <= |list0| ==> Due() == list0[..deferred] + OfKind(list0[deferred..], false)
    {
      if deferred <= |list0| {
        OfKindStep(list0[deferred..], location, false);
        assert list[deferred..] == list0[deferred..] + [location];
        assert list[..deferred] == list0[..deferred];
      }
    }

    /** The list has only been added to, with new locations. */
    twostate predicate Grown(list0: seq<Location>)
      reads this
    {
      |list0| <= |list| && list[..|list0|] == list0 && forall i :: |list0| <= i < |list| ==> fresh(list[i])
    }

    lemma DueGrows(list0: seq<Location>, location: Location)
      requires list == list0 + [location] && location.kind != CpuThread
      ensures !deferInit && deferred <= |list0| ==>
        Due() == list0[..deferred] + OfKind(list0[deferred..], false) + [location]
    {
      if deferred <= |list0| {
        OfKindStep(list0[deferred..], location, false);
        assert list[deferred..] == list0[deferred..] + [location];
        assert list[..deferred] == list0[..deferred];
      }
    }

    /** scorep_subsystems_initialize_location, with what the callbacks do. */
    method InitializeLocation(location: Location)
      requires Linked() && Parents() && Next(location) && SoundPlan()
      modifies this`head, this`tail, this`list, this`initialized, list`next
      ensures Valid() && Grown(old(list)) && |initialized| > |old(initialized)| && old(Links()) <= Links()
      ensures deferInit ==> initialized == old(initialized) + [location]
      ensures var n := old(|initialized|);
        var rs := if deferInit then Planned(plan, n) else Whole(plan, n).requests;
        |list| == |old(list)| + |rs| && Answered(Links(), rs, |old(list)|) &&
        (!deferInit ==> |initialized| == Whole(plan, n).next)
      decreases Remaining(), 0
    {
      hide Linked, Parents, OfKind, Answered, Links, Whole, Unfolded, Handled, Callbacks;
      var n := |initialized|;
      initialized := initialized + [location];
      NothingAsked(n, Links());
      if n < |plan| {
        for k := 0 to |plan[n]|
          invariant Valid() && Grown(old(list)) && |initialized| > n && old(Links()) <= Links()
          invariant deferInit ==> initialized == old(initialized) + [location]
          invariant !deferInit ==> |initialized| == NextNumber(n, k)
          invariant Answered(Links(), Handled(n, k), |old(list)|) && |list| == |old(list)| + |Handled(n, k)|
        {
          ghost var links, m := Links(), |initialized|;
          CallBack(plan[n][k]);
          HandledStep(n, k, m);
          MoreAnswered(links, Links(), Handled(n, k), Callbacks(plan[n][k], m), |old(list)|);
        }
      }
      AllAsked(n);
    }

    /** What the first k requests of the n-th initialization lead to. */
    ghost function Handled(n: nat, k: nat): seq<Request>
      requires k <= |Planned(plan, n)|
      reads this`deferInit
    {
      if deferInit then Planned(plan, n)[..k] else Unfolded(plan, n, k).requests
    }

    /** What one request leads to, if the next initialization has number m. */
    ghost function Callbacks(r: Request, m: nat): seq<Request>
      reads this`deferInit
    {
      if deferInit || r.kind == CpuThread then [r] else [r] + Whole(plan, m).requests
    }

    lemma HandledStep(n: nat, k: nat, m: nat)
      requires k < |Planned(plan, n)| && (!deferInit ==> m == NextNumber(n, k))
      ensures Handled(n, k + 1) == Handled(n, k) + Callbacks(Planned(plan, n)[k], m)
      ensures !deferInit ==>
        NextNumber(n, k + 1) ==
        if Planned(plan, n)[k].kind == CpuThread then m else Whole(plan, m).next
    {}

    ghost function NextNumber(n: nat, k: nat): nat
      requires k <= |Planned(plan, n)|
    {
      Unfolded(plan, n, k).next
    }

    lemma NothingAsked(n: nat, links: seq<Link>)
      ensures Handled(n, 0) == [] && NextNumber(n, 0) == n + 1 && Answered(links, [], |links|)
    {}

    lemma AllAsked(n: nat)
      ensures Handled(n, |Planned(plan, n)|) == if deferInit then Planned(plan, n) else Whole(plan, n).requests
      ensures NextNumber(n, |Planned(plan, n)|) == Whole(plan, n).next
    {
      assert Planned(plan, n)[..|Planned(plan, n)|] == Planned(plan, n);
    }

    /** One creation by a subsystem that is called back. */
    method CallBack(r: Request)
      requires Valid() && SoundPlan() && Creatable(r)
      modifies this`head, this`tail, this`list, this`initialized, list`next
      ensures Valid() && Grown(old(list)) && |initialized| >= |old(initialized)| && old(Links()) <= Links()
      ensures deferInit ==> initialized == old(initialized)
      ensures var n := old(|initialized|);
        |list| == |old(list)| + |Callbacks(r, n)| && Answered(Links(), Callbacks(r, n), |old(list)|) &&
        (!deferInit ==>
           |initialized| == if r.kind == CpuThread then n else Whole(plan, n).next)
      decreases Remaining(), 2
    {
      hide Linked, Parents, OfKind, Answered, Links, Whole;
      ghost var links, n := Links(), |initialized|;
      if r.kind == CpuThread {
        var created := CreateCpu();
        FirstAnswered(links, Links(), r, created);
      } else {
        var parent := FindLocation(r.parent);
        ParentFound(r.parent);
        var created := CreateNonCpu(r.kind, r.hasParadigm, parent);
        FirstAnswered(links, Links(), r, created);
        if !deferInit {
          MoreAnswered(Links()[..|links| + 1], Links(), [r], Whole(plan, n).requests, |links|);
        }
      }
    }

    lemma ParentFound(place: nat)
      ensures |Links()| == |list| && (place < |list| ==> Links()[place].location == list[place])
    {}

    /** The first new location is the one asked for. */
    static lemma FirstAnswered(links: seq<Link>, longer: seq<Link>, r: Request, created: Location)
      requires |links| < |longer| && links == longer[..|links|] && longer[|links|].location == created
      requires created.kind == r.kind
      requires longer[|links|].parent ==
               if r.kind == CpuThread || r.parent >= |links| then null else links[r.parent].location
      ensures Answered(longer[..|links| + 1], [r], |links|)
      ensures |longer| == |links| + 1 ==> Answered(longer, [r], |links|)
    {}

    /** A callback has its parent from somewhere: here it is looked up in the list. */
    method FindLocation(place: nat) returns (location: Location?)
      requires Linked()
      ensures location == if place < |list| then list[place] else null
    {
      location := head;
      var i := 0;
      while i < place && location != null
        invariant i <= place && location == (if i < |list| then list[i] else null)
      {
        location := location.next;
        i := i + 1;
      }
    }

    /** SCOREP_Location_ActivateInitLocations: the list may grow as long as it is walked. */
    method ActivateInitLocations()
      requires Valid() && SoundPlan() && deferInit && initialized == activated == []
      modifies this`head, this`tail, this`list, this`initialized, this`activated, this`deferInit, this`deferred
      modifies list`next
      ensures Valid() && Grown(old(list)) && !deferInit && deferred == |list|
      ensures initialized == list && activated == OfKind(list, true)
      ensures |list| == |old(list)| + |Requests(plan, 0, |list|)| && old(Links()) <= Links()
      ensures Answered(Links(), Requests(plan, 0, |list|), |old(list)|)
    {
      hide Linked, Parents, OfKind, Requests, Pending, Planned, Links, Answered, Handled, Unfolded;
      NothingAsked(0, Links());
      var location := FirstLocation();
      Beginning();
      while location != null
        invariant Valid() && Grown(old(list)) && deferInit
        invariant location == (if |initialized| < |list| then list[|initialized|] else null)
        invariant activated == OfKind(initialized, true)
        invariant |list| == |old(list)| + |Requests(plan, 0, |initialized|)| && old(Links()) <= Links()
        invariant Answered(Links(), Requests(plan, 0, |initialized|), |old(list)|)
        decreases |list| - |initialized| + Pending(plan, |initialized|)
      {
        ghost var n, links := |initialized|, Links();
        InitializeNext(location);
        RequestsStep(plan, n);
        MoreAnswered(links, Links(), Requests(plan, 0, n), Planned(plan, n), |old(list)|);
        location := NextLocation(location, n);
      }
      assert list[..|list|] == list;
      assert list[|list|..] == [];
      deferInit := false;
      deferred := |list|;
    }

    lemma Beginning()
      ensures OfKind([], true) == OfKind([], false) == [] && Requests(plan, 0, 0) == []
    {}

    /** One turn of the loop, but for the step to the next location. */
    method InitializeNext(location: Location)
      requires Valid() && SoundPlan() && deferInit && |initialized| < |list| && location == list[|initialized|]
      requires activated == OfKind(initialized, true)
      modifies this`head, this`tail, this`list, this`initialized, this`activated, list`next
      ensures Valid() && Grown(old(list)) && initialized == old(initialized) + [location]
      ensures activated == OfKind(initialized, true)
      ensures var rs := Planned(plan, old(|initialized|));
        |list| == |old(list)| + |rs| && Answered(Links(), rs, |old(list)|) && old(Links()) <= Links()
      ensures |list| + Pending(plan, |initialized|) == |old(list)| + Pending(plan, |old(initialized)|)
    {
      hide Linked, Parents, OfKind, Pending, Links, Answered;
      RequestsStep(plan, |initialized|);
      OfKindStep(initialized, location, true);
      InitializeLocation(location);
      if location.kind == CpuThread { activated := activated + [location]; }
    }

    method FirstLocation() returns (location: Location?)
      requires Linked()
      ensures location == if list == [] then null else list[0]
    {
      location := head;
    }

    method NextLocation(location: Location, ghost i: nat) returns (next: Location?)
      requires Linked() && i < |list| && location == list[i]
      ensures next == if i + 1 < |list| then list[i + 1] else null
    {
      next := location.next;
    }

    /** Every location is in the list once. */
    lemma ListedOnce(i: nat, j: nat)
      requires Linked() && i < j < |list|
      ensures list[i] != list[j]
    {}

    /** Locations are initialized in the order of their creation, so none is twice; and all
        of them are listed. */
    lemma InitializedOnce()
      requires Valid()
      ensures Rising(initialized) && forall l :: l in initialized ==> l in list
      ensures forall i, j :: 0 <= i < j < |initialized| ==> initialized[i] != initialized[j]
    {
      assert Rising(list);
      if !deferInit {
        var later := list[deferred..];
        OfKindRising(later, false);
        DueRising(list[..deferred], OfKind(later, false));
      }
    }

    lemma DueRising(early: seq<Location>, late: seq<Location>)
      requires Rising(early) && Rising(late)
      requires deferred <= |list| && Linked() && early == list[..deferred]
      requires forall l :: l in late ==> l in list[deferred..]
      ensures Rising(early + late)
    {
      forall j | 0 <= j < |late| ensures late[j].position >= deferred {
        assert late[j] in list[deferred..];
      }
    }

    /** A parent is initialized before its children, if it is at all: only a CPU location
        created after the activation is not. */
    lemma ParentFirst(i: nat)
      requires Valid() && i < |initialized| && initialized[i].parent != null
      ensures initialized[i].parent in initialized ==>
        exists j :: 0 <= j < i && initialized[j] == initialized[i].parent
      ensures initialized[i].parent !in initialized ==>
        !deferInit && initialized[i].parent.kind == CpuThread && initialized[i].parent in list[deferred..]
    {
      InitializedOnce();
      var l := initialized[i];
      assert list[l.position] == l by { assert l in list; }
      assert l.parent in list[..l.position];
      var p: nat :| p < l.position && list[p] == l.parent;
      if deferInit {
        assert initialized[p] == list[p];
      } else if l.parent !in initialized {
        NotDue(p);
      }
      if l.parent in initialized {
        var j :| 0 <= j < |initialized| && initialized[j] == l.parent;
      }
    }

    lemma NotDue(p: nat)
      requires deferred <= |list| && p < |list| && list[p] !in Due()
      ensures p >= deferred && list[p].kind == CpuThread && list[p] in list[deferred..]
    {
      assert forall k :: 0 <= k < deferred ==> Due()[k] == list[k];
      var later := list[deferred..];
      assert later[p - deferred] == list[p];
      if list[p].kind != CpuThread { KindKept(later, p - deferred); }
    }
  }

  lemma {:induction false} KindKept(list: seq<Location>, k: nat)
    requires k < |list| && list[k].kind != CpuThread
    ensures list[k] in OfKind(list, false)
  {
    var n := |list| - 1;
    if k < n { KindKept(list[..n], k); }
  }

  lemma RequestsStep(plan: seq<seq<Request>>, n: nat)
    ensures Requests(plan, 0, n + 1) == Requests(plan, 0, n) + Planned(plan, n)
    ensures Pending(plan, n) == |Planned(plan, n)| + Pending(plan, n + 1)
  {}
}
