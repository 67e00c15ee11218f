/** After unification every coordinate's rank is overwritten with an index into its
    topology's group, and the Cube writer turns the index back into rank and thread
    (topologies_subsystem_post_unify and SCOREP_Topologies_Coord*FromGroupIndex). */
module TopologyRerank {
  import opened MachineWords
  import opened Wrappers
  import opened Sequences
  import opened CommLocations
  import opened TopologyGroups

  /** A unified coordinate definition; the group is that of its topology's communicator. */
  class CoordinateDef {
    const kind: Kind
    const group: seq<nat>
    const thread: uint32
    var rank: uint32

    constructor (kind: Kind, group: seq<nat>, rank: uint32, thread: uint32)
      ensures this.kind == kind && this.group == group && this.rank == rank && this.thread == thread
    {
      this.kind, this.group, this.rank, this.thread := kind, group, rank, thread;
    }
  }

  function LastIndexOf(s: seq<nat>, x: nat): (i: nat)
    requires x in s
    ensures i < |s| && s[i] == x && x !in s[i + 1..]
  {
    if s[|s| - 1] == x then |s| - 1
    else
      assert s == s[..|s| - 1] + [s[|s| - 1]];
      LastIndexOf(s[..|s| - 1], x)
  }

  /** The rank a coordinate has after the loop, x being its location's global index. */
  function NewRank(kind: Kind, group: seq<nat>, rank: nat, x: nat): nat {
    match kind
    case Mpi => rank
    case User => if x in group then LastIndexOf(group, x) else rank
    case _ => x
  }

  /** A user coordinate gets the last place of its location in the group, and keeps its rank
      if that is not there; one of another topology gets the location's index. */
  lemma NewRankIs(kind: Kind, group: seq<nat>, rank: nat, x: nat)
    ensures var n := NewRank(kind, group, rank, x);
            (kind == Mpi ==> n == rank) && (kind == ProcessXThreads || kind == Platform ==> n == x) &&
            (kind == User && x !in group ==> n == rank) &&
            (kind == User && x in group ==>
               n < |group| && group[n] == x && forall j :: n < j < |group| ==> group[j] != x)
  {
    if kind == User && x in group {
      var n := LastIndexOf(group, x);
      forall j | n < j < |group| ensures group[j] != x {
        assert group[j] == group[n + 1..][j - n - 1];
      }
    }
  }

  /** What a coordinate needs: its rank and thread name a CPU location, and the start of
      the search does not wrap around. */
  ghost predicate Searchable(cpus: seq<seq<bool>>, d: CoordinateDef)
    reads d
  {
    Fits(cpus) && |AllLocations(cpus)| < TWO_32 && |d.group| < TWO_32 &&
    (d.kind != Mpi ==> IsCpu(cpus, d.rank, d.thread) && d.rank * MaxCount(cpus) + d.thread < TWO_32)
  }

  /** One turn of the loop over the coordinate definitions. */
  method Rerank(ghost cpus: seq<seq<bool>>, d: CoordinateDef, locations: seq<uint64>, max: nat) returns (found: bool)
    requires Searchable(cpus, d) && locations == AllLocations(cpus) && max == MaxCount(cpus)
    modifies d
    ensures found
    ensures d.kind == Mpi ==> d.rank == old(d.rank)
    ensures d.kind != Mpi ==>
      old(d.rank) < |cpus| && d.thread <= |cpus[old(d.rank)]| &&
      d.rank == NewRank(d.kind, d.group, old(d.rank), Position(cpus, old(d.rank), d.thread))
  {
    if d.kind == Mpi { return true; }
    SearchSucceeds(cpus, d.rank, d.thread);
    PositionHoldsId(cpus, d.rank, d.thread);
    var start := StartPos(d.rank, d.thread, max, |locations|);
    var index := SearchDown(locations, GlobalId(d.rank, d.thread), start);
    if index.None? { return false; }
    var i := index.value;
    PositionUnique(cpus, d.rank, d.thread, i);
    if d.kind == User {
      ghost var before := d.rank;
      for j := 0 to |d.group|
        invariant d.rank == NewRank(User, d.group[..j], before, i)
      {
        assert d.group[..j + 1][..j] == d.group[..j];
        assert d.group[..j + 1] == d.group[..j] + [d.group[j]];
        if i == d.group[j] {
          d.rank := j;
        }
      }
      assert d.group[..|d.group|] == d.group;
    } else {
      d.rank := i;
    }
    return true;
  }

  method PostUnify(ghost cpus: seq<seq<bool>>, defs: seq<CoordinateDef>, locations: seq<uint64>, max: nat)
    returns (ok: bool)
    requires NoRepeats(defs) && Fits(cpus)
    requires forall d :: d in defs ==> Searchable(cpus, d)
    requires locations == AllLocations(cpus) && max == MaxCount(cpus)
    modifies defs
    ensures ok
    ensures forall d :: d in defs ==>
      if d.kind == Mpi then d.rank == old(d.rank)
      else old(d.rank) < |cpus| && d.thread <= |cpus[old(d.rank)]| &&
           d.rank == NewRank(d.kind, d.group, old(d.rank), Position(cpus, old(d.rank), d.thread))
  {
    hide Position, NewRank, AllLocations, MaxCount;
    ok := true;
    for n := 0 to |defs|
      invariant ok
      invariant forall k :: n <= k < |defs| ==> defs[k].rank == old(defs[k].rank)
      invariant forall k :: 0 <= k < n ==>
        var d := defs[k];
        if d.kind == Mpi then d.rank == old(d.rank)
        else old(d.rank) < |cpus| && d.thread <= |cpus[old(d.rank)]| &&
             d.rank == NewRank(d.kind, d.group, old(d.rank), Position(cpus, old(d.rank), d.thread))
    {
      assert defs[n] in defs;
      ok := Rerank(cpus, defs[n], locations, max);
      if !ok { return; }
    }
  }

  // --------------------------------------------------------------------- the inverse

  /** The location an index stands for; none where the source would read outside a group,
      and for MPI topologies, which are the fatal case. */
  function LocationOfIndex(index: nat, kind: Kind, group: seq<nat>, locations: seq<uint64>): Option<uint64> {
    match kind
    case Mpi => None
    case User =>
      if index < |group| && group[index] < |locations| then Some(locations[group[index]]) else None
    case _ => if index < |locations| then Some(locations[index]) else None
  }

  function CoordRankFromGroupIndex(index: nat, kind: Kind, group: seq<nat>, locations: seq<uint64>): Option<uint32> {
    match LocationOfIndex(index, kind, group, locations)
    case None => None
    case Some(id) => Some(RankOfId(id))
  }

  function CoordThreadFromGroupIndex(index: nat, kind: Kind, group: seq<nat>, locations: seq<uint64>): Option<uint32> {
    match LocationOfIndex(index, kind, group, locations)
    case None => None
    case Some(id) => Some(ThreadOfId(id))
  }

  /** The readers go through the group for user topologies only, and take the two halves of
      the id found there; for MPI topologies they fail. */
  lemma ReadersAre(index: nat, kind: Kind, group: seq<nat>, locations: seq<uint64>)
    ensures var rank, thread := CoordRankFromGroupIndex(index, kind, group, locations),
                                CoordThreadFromGroupIndex(index, kind, group, locations);
            (rank.Some? <==> thread.Some?) && (kind == Mpi ==> rank == None) &&
            (kind == User ==> (rank.Some? <==> index < |group| && group[index] < |locations|)) &&
            (kind == User && rank.Some? ==> locations[group[index]] == thread.value * 0x1_0000_0000 + rank.value) &&
            (kind == ProcessXThreads || kind == Platform ==>
               (rank.Some? <==> index < |locations|) &&
               (rank.Some? ==> locations[index] == thread.value * 0x1_0000_0000 + rank.value))
  {}

  /** Re-ranking a coordinate and reading it back gives the rank and thread it was set with. */
  ghost predicate RoundTrips(cpus: seq<seq<bool>>, kind: Kind, group: seq<nat>, rank: nat, thread: nat)
    requires Fits(cpus) && IsCpu(cpus, rank, thread)
  {
    var locations, index := AllLocations(cpus), NewRank(kind, group, rank, Position(cpus, rank, thread));
    CoordRankFromGroupIndex(index, kind, group, locations) == Some(rank) &&
    CoordThreadFromGroupIndex(index, kind, group, locations) == Some(thread)
  }

  /** Process and platform coordinates always survive; a user coordinate does exactly when
      its location is in the group of its topology. */
  lemma RoundTripIff(cpus: seq<seq<bool>>, kind: Kind, group: seq<nat>, rank: nat, thread: nat)
    requires Fits(cpus) && IsCpu(cpus, rank, thread) && kind != Mpi
    ensures RoundTrips(cpus, kind, group, rank, thread) <==>
            (kind == User ==> Position(cpus, rank, thread) in group)
  {
    var x := Position(cpus, rank, thread);
    var index := NewRank(kind, group, rank, x);
    PositionHoldsId(cpus, rank, thread);
    IdRoundTrip(rank, thread);
    hide Position, AllLocations;
    if kind == User && index < |group| && group[index] < |AllLocations(cpus)| {
      PositionUnique(cpus, rank, thread, group[index]);
      var r, t := IdsHavePositions(cpus, group[index]);
      IdRoundTrip(r, t);
    }
  }

  /** All user coordinates of all ranks survive, with the groups of the exchange. */
  ghost predicate AllRoundTrip(world: World)
    requires Valid(world)
  {
    forall r, k, name ::
      0 <= r < |world| && 0 <= k < |world[r].coords| && InTopology(world[r], world[r].coords[k], name) ==>
      ValidCoord(world, r, world[r].coords[k]) &&
      RoundTrips(Cpus(world), User, FinalGroup(world, name), r, world[r].coords[k].thread)
  }

  lemma AllRoundTripIff(world: World)
    requires Valid(world)
    ensures AllRoundTrip(world) <==> KeepsOwn(world)
  {
    var cpus := Cpus(world);
    forall r, k, name | 0 <= r < |world| && 0 <= k < |world[r].coords| && InTopology(world[r], world[r].coords[k], name)
      ensures ValidCoord(world, r, world[r].coords[k])
      ensures var x := Position(cpus, r, world[r].coords[k].thread);
              x in Indices(world, r, name) &&
              (RoundTrips(cpus, User, FinalGroup(world, name), r, world[r].coords[k].thread) <==>
               x in FinalGroup(world, name))
    {
      var c := world[r].coords[k];
      assert ValidCoord(world, r, c);
      InIndicesIn(cpus, r, world[r], world[r].coords, name, Position(cpus, r, c.thread));
      RoundTripIff(cpus, User, FinalGroup(world, name), r, c.thread);
    }
    forall r, name, x | 0 <= r < |world| && x in Indices(world, r, name)
      ensures exists k :: 0 <= k < |world[r].coords| && CoordAt(cpus, r, world[r], world[r].coords[k], name, x)
    {
      InIndicesIn(cpus, r, world[r], world[r].coords, name, x);
    }
  }

  /** Whatever coordinates are set, all of them survive unification: exactly when no rank
      with several CPU locations has two topologies that differ only in the last character. */
  lemma RoundTripOfNames(world: World)
    requires Valid(world)
    ensures (forall w :: Valid(w) && SameTopologies(w, world) ==> AllRoundTrip(w)) <==> NamesSafe(world)
  {
    hide Valid, AllRoundTrip, KeepsOwn, NamesSafe;
    LocationsKeptIff(world);
    forall w | Valid(w) && SameTopologies(w, world) ensures AllRoundTrip(w) <==> KeepsOwn(w) {
      AllRoundTripIff(w);
    }
  }
}
