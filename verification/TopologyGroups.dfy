/** What the pre-unify step of SCOREP_Topologies.c is for: the group of a user topology is
    the set of all locations, over all ranks, that have a coordinate in it.

    This module describes the definitions the ranks hold and the group the ranks arrive at,
    as functions; TopologyExchange is the protocol and is proved to compute them. */
module TopologyGroups {
  import opened MachineWords
  import opened Sequences
  import opened CommLocations

  datatype Kind = Mpi | ProcessXThreads | Platform | User

  /** The definitions of one rank: whether each location is a CPU location, the cartesian
      topologies, and the coordinates, which refer to a topology by its sequence number. */
  datatype Topology = Topology(kind: Kind, name: string)
  datatype Coord = Coord(topo: nat, rank: uint32, thread: uint32)
  datatype Process = Process(cpu: seq<bool>, topos: seq<Topology>, coords: seq<Coord>)

  type World = seq<Process>

  function Cpus(world: World): (cpus: seq<seq<bool>>)
    ensures |cpus| == |world|
    ensures forall r :: 0 <= r < |world| ==> cpus[r] == world[r].cpu
  {
    seq(|world|, r requires 0 <= r < |world| => world[r].cpu)
  }

  ghost predicate ValidCoord(world: World, r: nat, c: Coord)
    requires r < |world|
  {
    c.topo < |world[r].topos| &&
    (world[r].topos[c.topo].kind == User ==> c.rank == r && IsCpu(Cpus(world), r, c.thread))
  }

  /** What the rest of the program guarantees: user topologies have a name, a coordinate is
      set by the thread it describes, every rank has a CPU location, and the 32-bit numbers
      of the source do not overflow. */
  ghost predicate Valid(world: World) {
    world != [] && Fits(Cpus(world)) && |AllLocations(Cpus(world))| < TWO_32 &&
    (forall r: nat, t: nat :: IsCpu(Cpus(world), r, t) ==> r * MaxCount(Cpus(world)) + t < TWO_32) &&
    (forall r :: 0 <= r < |world| ==> Count(world[r].cpu) > 0) &&
    (forall r, i :: 0 <= r < |world| && 0 <= i < |world[r].topos| && world[r].topos[i].kind == User ==>
       world[r].topos[i].name != "" && '\0' !in world[r].topos[i].name) &&
    (forall r, k :: 0 <= r < |world| && 0 <= k < |world[r].coords| ==> ValidCoord(world, r, world[r].coords[k]))
  }

  // ------------------------------------------------------------ names and their members

  function NamesIn(topos: seq<Topology>): seq<string> {
    if topos == [] then []
    else
      var t := topos[|topos| - 1];
      NamesIn(topos[..|topos| - 1]) + (if t.kind == User then [t.name] else [])
  }

  lemma {:induction false} InNamesIn(topos: seq<Topology>, name: string)
    ensures name in NamesIn(topos) <==> exists i :: 0 <= i < |topos| && topos[i] == Topology(User, name)
  {
    if topos != [] {
      var front, t := topos[..|topos| - 1], topos[|topos| - 1];
      InNamesIn(front, name);
      if name in NamesIn(front) {
        var i :| 0 <= i < |front| && front[i] == Topology(User, name);
        assert topos[i] == Topology(User, name);
      }
      if t == Topology(User, name) { assert topos[|topos| - 1] == t; }
    }
  }

  /** The unique user topology names of a rank, in order of first appearance. */
  function UserNames(p: Process): seq<string> {
    Dedup(NamesIn(p.topos))
  }

  predicate InTopology(p: Process, c: Coord, name: string) {
    c.topo < |p.topos| && p.topos[c.topo] == Topology(User, name)
  }

  /** The coordinate lies in the topology, at global location index x. */
  ghost predicate CoordAt(cpus: seq<seq<bool>>, r: nat, p: Process, c: Coord, name: string, x: nat)
    requires Fits(cpus) && r < |cpus|
  {
    InTopology(p, c, name) && c.thread <= |cpus[r]| && x == Position(cpus, r, c.thread)
  }

  function IndicesIn(cpus: seq<seq<bool>>, r: nat, p: Process, coords: seq<Coord>, name: string): seq<nat>
    requires Fits(cpus) && r < |cpus|
  {
    if coords == [] then []
    else
      var c := coords[|coords| - 1];
      IndicesIn(cpus, r, p, coords[..|coords| - 1], name) +
      (if InTopology(p, c, name) && c.thread <= |cpus[r]| then [Position(cpus, r, c.thread)] else [])
  }

  lemma {:induction false} InIndicesIn(cpus: seq<seq<bool>>, r: nat, p: Process, coords: seq<Coord>, name: string,
                                       x: nat)
    requires Fits(cpus) && r < |cpus|
    ensures x in IndicesIn(cpus, r, p, coords, name) <==>
            exists k :: 0 <= k < |coords| && CoordAt(cpus, r, p, coords[k], name, x)
  {
    hide Position;
    if coords != [] {
      var front, c := coords[..|coords| - 1], coords[|coords| - 1];
      InIndicesIn(cpus, r, p, front, name, x);
      assert coords == front + [c];
      assert forall k :: 0 <= k < |front| ==> front[k] == coords[k];
      assert x in IndicesIn(cpus, r, p, coords, name) <==>
             x in IndicesIn(cpus, r, p, front, name) || CoordAt(cpus, r, p, c, name, x);
    }
  }

  /** The location indices of a rank's coordinates in a topology, one for each coordinate. */
  function Indices(world: World, r: nat, name: string): seq<nat>
    requires Valid(world) && r < |world|
  {
    IndicesIn(Cpus(world), r, world[r], world[r].coords, name)
  }

  /** A rank's member list of a topology: several coordinates of one location count once. */
  function Members(world: World, r: nat, name: string): seq<nat>
    requires Valid(world) && r < |world|
  {
    Dedup(Indices(world, r, name))
  }

  // --------------------------------------------------------------------- the final group

  /** Names travel without their last character, which the terminating NUL overwrites. */
  function Trunc(name: string): string {
    if name == "" then "" else name[..|name| - 1]
  }

  /** The names are different, but only in their last character. */
  predicate DifferAtEnd(a: string, b: string) {
    a != b && |a| == |b| && a[..|a| - 1] == b[..|b| - 1]
  }

  /** Names that differ in that way are the ones that are sent as one. */
  lemma SentAlike(a: string, b: string)
    requires a != "" && b != ""
    ensures Trunc(a) == Trunc(b) <==> a == b || DifferAtEnd(a, b)
  {
    if a != b && Trunc(a) == Trunc(b) { assert |a| == |b|; }
  }

  lemma HasName(world: World, p: nat, a: string)
    requires Valid(world) && p < |world| && a in UserNames(world[p])
    ensures a != "" && '\0' !in a
  {
    InNamesIn(world[p].topos, a);
  }

  lemma HaveNames(world: World, p: nat, q: nat, a: string, b: string)
    requires Valid(world) && p < |world| && q < |world| && a in UserNames(world[p]) && b in UserNames(world[q])
    ensures Trunc(a) == Trunc(b) <==> a == b || DifferAtEnd(a, b)
  {
    HasName(world, p, a);
    HasName(world, q, b);
    SentAlike(a, b);
  }

  /** Storing a list over another one in the same row of a buffer. */
  function Overlay(base: seq<nat>, top: seq<nat>): seq<nat> {
    if |top| < |base| then top + base[|top|..] else top
  }

  function RowOf(world: World, r: nat, names: seq<string>, key: string): seq<nat>
    requires Valid(world) && r < |world|
  {
    if names == [] then []
    else
      var base, name := RowOf(world, r, names[..|names| - 1], key), names[|names| - 1];
      if Trunc(name) == key then Overlay(base, Members(world, r, name)) else base
  }

  /** The row rank r contributes under a transmitted name. */
  function Row(world: World, r: nat, key: string): seq<nat>
    requires Valid(world) && r < |world|
  {
    RowOf(world, r, UserNames(world[r]), key)
  }

  function Rows(world: World, key: string): (rows: seq<seq<nat>>)
    requires Valid(world)
    ensures |rows| == |world|
    ensures forall r :: 0 <= r < |world| ==> rows[r] == Row(world, r, key)
  {
    seq(|world|, r requires 0 <= r < |world| => Row(world, r, key))
  }

  /** The group every rank ends up with for the topology of that name. */
  function FinalGroup(world: World, name: string): seq<nat>
    requires Valid(world)
  {
    Sorted(Dedup(Concat(Rows(world, Trunc(name)))))
  }

  lemma FinalGroupElements(world: World, name: string)
    requires Valid(world)
    ensures StrictlyIncreasing(FinalGroup(world, name))
    ensures forall x :: x in FinalGroup(world, name) <==>
            exists r :: 0 <= r < |world| && x in Row(world, r, Trunc(name))
  {
    var rows := Rows(world, Trunc(name));
    SortedDistinct(Dedup(Concat(rows)));
    forall x ensures x in FinalGroup(world, name) <==>
                     exists r :: 0 <= r < |world| && x in Row(world, r, Trunc(name))
    {
      InConcat(rows, x);
      assert forall r :: 0 <= r < |world| ==> (x in rows[r] <==> x in Row(world, r, Trunc(name)));
    }
  }

  /** Position j of the row of a key holds x because of the u-th name: that name's list
      reaches the position, and no later list sent under the key does. */
  ghost predicate Stores(world: World, r: nat, names: seq<string>, key: string, u: nat, j: nat, x: nat)
    requires Valid(world) && r < |world|
  {
    u < |names| && Trunc(names[u]) == key && j < |Members(world, r, names[u])| && Members(world, r, names[u])[j] == x &&
    forall v :: u < v < |names| && Trunc(names[v]) == key ==> |Members(world, r, names[v])| <= j
  }

  lemma StoresStep(world: World, r: nat, names: seq<string>, key: string, u: nat, j: nat, x: nat)
    requires Valid(world) && r < |world| && names != []
    ensures var n := |names| - 1;
            var reaches := Trunc(names[n]) == key && j < |Members(world, r, names[n])|;
            Stores(world, r, names, key, u, j, x) <==>
            if u == n then reaches && Members(world, r, names[n])[j] == x
            else !reaches && Stores(world, r, names[..n], key, u, j, x)
  {
    hide Valid, Members, Trunc;
    var n := |names| - 1;
    assert forall v :: 0 <= v < n ==> names[..n][v] == names[v];
  }

  lemma OverlayAt(base: seq<nat>, top: seq<nat>, j: nat)
    ensures var o := Overlay(base, top);
            j < |o| <==> j < |base| || j < |top|
    ensures var o := Overlay(base, top);
            j < |o| ==> o[j] == if j < |top| then top[j] else base[j]
  {}

  lemma {:induction false} RowAt(world: World, r: nat, names: seq<string>, key: string, j: nat, x: nat)
    requires Valid(world) && r < |world|
    ensures (j < |RowOf(world, r, names, key)| && RowOf(world, r, names, key)[j] == x) <==>
            exists u :: Stores(world, r, names, key, u, j, x)
  {
    hide Valid, Members, Stores, Overlay, Trunc;
    if names == [] {
      assert forall u :: !Stores(world, r, names, key, u, j, x) by { NothingStored(world, r, key, j, x); }
    } else {
      var n := |names| - 1;
      var front := names[..n];
      RowAt(world, r, front, key, j, x);
      forall u: nat { StoresStep(world, r, names, key, u, j, x); }
      OverlayAt(RowOf(world, r, front, key), Members(world, r, names[n]), j);
      if exists u :: Stores(world, r, front, key, u, j, x) {
        var u :| Stores(world, r, front, key, u, j, x);
        StoredBefore(world, r, front, key, u, j, x);
        assert Stores(world, r, names, key, u, j, x) <==>
               !(Trunc(names[n]) == key && j < |Members(world, r, names[n])|);
      }
      assert Stores(world, r, names, key, n, j, x) <==>
             Trunc(names[n]) == key && j < |Members(world, r, names[n])| && Members(world, r, names[n])[j] == x;
    }
  }

  lemma StoredBefore(world: World, r: nat, names: seq<string>, key: string, u: nat, j: nat, x: nat)
    requires Valid(world) && r < |world| && Stores(world, r, names, key, u, j, x)
    ensures u < |names|
  {}

  lemma NothingStored(world: World, r: nat, key: string, j: nat, x: nat)
    requires Valid(world) && r < |world|
    ensures forall u :: !Stores(world, r, [], key, u, j, x)
  {}

  /** Rank r brings location x into the group of a name: as the j-th member of a topology of
      that name, or one that differs at the end, and no later one of these is as long. */
  ghost predicate Brings(world: World, r: nat, name: string, u: nat, j: nat, x: nat)
    requires Valid(world) && r < |world|
  {
    var names := UserNames(world[r]);
    u < |names| && (names[u] == name || DifferAtEnd(names[u], name)) &&
    j < |Members(world, r, names[u])| && Members(world, r, names[u])[j] == x &&
    forall v :: u < v < |names| && (names[v] == name || DifferAtEnd(names[v], name)) ==>
      |Members(world, r, names[v])| <= j
  }

  ghost predicate Contributes(world: World, r: nat, name: string, x: nat)
    requires Valid(world) && r < |world|
  {
    exists u: nat, j: nat :: Brings(world, r, name, u, j, x)
  }

  /** The final group of a topology, in terms of the members the ranks have found. */
  lemma FinalGroupIs(world: World, q: nat, name: string, x: nat)
    requires Valid(world) && q < |world| && name in UserNames(world[q])
    ensures x in FinalGroup(world, name) <==>
            exists r :: 0 <= r < |world| && Contributes(world, r, name, x)
  {
    FinalGroupElements(world, name);
    hide Valid, Contributes, RowOf, Row, FinalGroup, UserNames, Trunc;
    forall r | 0 <= r < |world|
      ensures x in Row(world, r, Trunc(name)) <==> Contributes(world, r, name, x)
    {
      RowBrings(world, q, r, name, x);
    }
  }

  lemma RowBrings(world: World, q: nat, r: nat, name: string, x: nat)
    requires Valid(world) && q < |world| && name in UserNames(world[q]) && r < |world|
    ensures x in Row(world, r, Trunc(name)) <==> Contributes(world, r, name, x)
  {
    hide Valid, Brings, Stores, RowOf, UserNames, Trunc;
    var names, row := UserNames(world[r]), Row(world, r, Trunc(name));
    forall u: nat, j: nat ensures Brings(world, r, name, u, j, x) <==> Stores(world, r, names, Trunc(name), u, j, x) {
      BringsStores(world, q, r, name, u, j, x);
    }
    if exists u: nat, j: nat :: Brings(world, r, name, u, j, x) {
      var u: nat, j: nat :| Brings(world, r, name, u, j, x);
      RowAt(world, r, names, Trunc(name), j, x);
    }
    if x in row {
      var j: nat :| j < |row| && row[j] == x;
      RowAt(world, r, names, Trunc(name), j, x);
      var u: nat :| Stores(world, r, names, Trunc(name), u, j, x);
      assert Brings(world, r, name, u, j, x);
    }
  }

  lemma BringsStores(world: World, q: nat, r: nat, name: string, u: nat, j: nat, x: nat)
    requires Valid(world) && q < |world| && name in UserNames(world[q]) && r < |world|
    ensures Brings(world, r, name, u, j, x) <==> Stores(world, r, UserNames(world[r]), Trunc(name), u, j, x)
  {
    hide Valid, UserNames, Members, DifferAtEnd, Trunc;
    var names := UserNames(world[r]);
    forall v | 0 <= v < |names|
      ensures Trunc(names[v]) == Trunc(name) <==> names[v] == name || DifferAtEnd(names[v], name)
    {
      HaveNames(world, r, q, names[v], name);
    }
  }

  /** A rank's topologies are in the order in which their names appear. */
  lemma {:induction false} NamesOrder(topos: seq<Topology>, i: nat, j: nat) returns (k: nat)
    requires i < j < |Dedup(NamesIn(topos))|
    ensures var names := Dedup(NamesIn(topos));
            k < |topos| && topos[k] == Topology(User, names[i]) &&
            forall l :: 0 <= l <= k ==> topos[l] != Topology(User, names[j])
  {
    hide Dedup;
    if topos == [] { DedupNothing<string>(); }
    var n := |topos| - 1;
    var front := topos[..n];
    var before := Dedup(NamesIn(front));
    DedupAppend(NamesIn(front), topos[n].name);
    assert NamesIn(front) + [] == NamesIn(front);
    if j < |before| {
      k := NamesOrder(front, i, j);
    } else {
      var names := Dedup(NamesIn(topos));
      DedupIs(NamesIn(front));
      assert names[i] in before;
      k := LaterName(topos, names[i], names[j]);
    }
  }

  lemma LaterName(topos: seq<Topology>, a: string, b: string) returns (k: nat)
    requires topos != []
    requires var before := NamesIn(topos[..|topos| - 1]); a in before && b !in before
    ensures k < |topos| && topos[k] == Topology(User, a) && forall l :: 0 <= l <= k ==> topos[l] != Topology(User, b)
  {
    hide NamesIn;
    var front := topos[..|topos| - 1];
    InNamesIn(front, a);
    InNamesIn(front, b);
    k :| 0 <= k < |front| && front[k] == Topology(User, a);
    assert forall l :: 0 <= l <= k ==> front[l] == topos[l];
  }

  /** The members of a topology are in the order of their first coordinates. */
  lemma {:induction false} MembersOrder(cpus: seq<seq<bool>>, r: nat, p: Process, coords: seq<Coord>, name: string,
                                        i: nat, j: nat)
    returns (k: nat)
    requires Fits(cpus) && r < |cpus| && i < j < |Dedup(IndicesIn(cpus, r, p, coords, name))|
    ensures var members := Dedup(IndicesIn(cpus, r, p, coords, name));
            k < |coords| && CoordAt(cpus, r, p, coords[k], name, members[i]) &&
            forall l :: 0 <= l <= k ==> !CoordAt(cpus, r, p, coords[l], name, members[j])
  {
    hide Dedup, IndicesIn, Position, CoordAt;
    NoneYet(cpus, r, p, name);
    var front := coords[..|coords| - 1];
    var before := Dedup(IndicesIn(cpus, r, p, front, name));
    OneMoreMember(cpus, r, p, coords, name);
    if j < |before| {
      k := MembersOrder(cpus, r, p, front, name, i, j);
    } else {
      var members := Dedup(IndicesIn(cpus, r, p, coords, name));
      DedupIs(IndicesIn(cpus, r, p, front, name));
      assert members[i] in before;
      k := LaterMember(cpus, r, p, coords, name, members[i], members[j]);
    }
  }

  lemma NoneYet(cpus: seq<seq<bool>>, r: nat, p: Process, name: string)
    requires Fits(cpus) && r < |cpus|
    ensures Dedup(IndicesIn(cpus, r, p, [], name)) == []
  {}

  /** The last coordinate adds a member at the end, unless it is there already. */
  lemma OneMoreMember(cpus: seq<seq<bool>>, r: nat, p: Process, coords: seq<Coord>, name: string)
    requires Fits(cpus) && r < |cpus| && coords != []
    ensures var before := IndicesIn(cpus, r, p, coords[..|coords| - 1], name);
            var members, earlier := Dedup(IndicesIn(cpus, r, p, coords, name)), Dedup(before);
            members == earlier ||
            (|members| == |earlier| + 1 && members[..|earlier|] == earlier && members[|earlier|] !in before)
  {
    hide Dedup, Position;
    var n := |coords| - 1;
    var before := IndicesIn(cpus, r, p, coords[..n], name);
    DedupIs(before);
    if InTopology(p, coords[n], name) && coords[n].thread <= |cpus[r]| {
      DedupAppend(before, Position(cpus, r, coords[n].thread));
    }
    assert before + [] == before;
  }

  lemma LaterMember(cpus: seq<seq<bool>>, r: nat, p: Process, coords: seq<Coord>, name: string, x: nat, y: nat)
    returns (k: nat)
    requires Fits(cpus) && r < |cpus| && coords != []
    requires var before := IndicesIn(cpus, r, p, coords[..|coords| - 1], name); x in before && y !in before
    ensures k < |coords| && CoordAt(cpus, r, p, coords[k], name, x)
    ensures forall l :: 0 <= l <= k ==> !CoordAt(cpus, r, p, coords[l], name, y)
  {
    hide IndicesIn, CoordAt;
    var front := coords[..|coords| - 1];
    InIndicesIn(cpus, r, p, front, name, x);
    InIndicesIn(cpus, r, p, front, name, y);
    k :| 0 <= k < |front| && CoordAt(cpus, r, p, front[k], name, x);
    assert forall l :: 0 <= l <= k ==> front[l] == coords[l];
  }

  // ---------------------------------------------------------------- when it is the union

  /** x is the location index of a coordinate in the topology, on whichever rank. */
  ghost predicate InUnion(world: World, name: string, x: nat)
    requires Valid(world)
  {
    exists r :: 0 <= r < |world| && x in Indices(world, r, name)
  }

  /** Coordinate k of rank p lies in the topology and is the location with index x. */
  ghost predicate Located(world: World, p: nat, name: string, x: nat, k: nat)
    requires Valid(world)
  {
    p < |world| && k < |world[p].coords| && CoordAt(Cpus(world), p, world[p], world[p].coords[k], name, x)
  }

  lemma UnionIsLocated(world: World, name: string, x: nat)
    requires Valid(world)
    ensures InUnion(world, name, x) <==> exists p: nat, k: nat :: Located(world, p, name, x, k)
  {
    var cpus := Cpus(world);
    assert Fits(cpus);
    hide Valid, CoordAt, IndicesIn;
    if InUnion(world, name, x) {
      var p :| 0 <= p < |world| && x in Indices(world, p, name);
      InIndicesIn(cpus, p, world[p], world[p].coords, name, x);
      var k :| 0 <= k < |world[p].coords| && CoordAt(cpus, p, world[p], world[p].coords[k], name, x);
      assert Located(world, p, name, x, k);
    }
    if exists p: nat, k: nat :: Located(world, p, name, x, k) {
      var p: nat, k: nat :| Located(world, p, name, x, k);
      InIndicesIn(cpus, p, world[p], world[p].coords, name, x);
      assert x in Indices(world, p, name);
    }
  }

  ghost predicate Exact(world: World, name: string)
    requires Valid(world)
  {
    StrictlyIncreasing(FinalGroup(world, name)) &&
    forall x :: x in FinalGroup(world, name) <==> InUnion(world, name, x)
  }

  ghost predicate AllExact(world: World)
    requires Valid(world)
  {
    forall r, name :: 0 <= r < |world| && name in UserNames(world[r]) ==> Exact(world, name)
  }

  /** Names in use anywhere are still different without their last character. */
  ghost predicate TruncDistinct(world: World) {
    forall p, q, a, b ::
      0 <= p < |world| && 0 <= q < |world| && a in UserNames(world[p]) && b in UserNames(world[q])
      ==> !DifferAtEnd(a, b)
  }

  lemma {:induction false} RowOfDistinct(world: World, r: nat, names: seq<string>, name: string)
    requires Valid(world) && r < |world| && NoRepeats(names)
    requires forall a :: a in names && Trunc(a) == Trunc(name) ==> a == name
    ensures RowOf(world, r, names, Trunc(name)) == if name in names then Members(world, r, name) else []
  {
    if names != [] {
      var front, last := names[..|names| - 1], names[|names| - 1];
      assert names == front + [last];
      RowOfDistinct(world, r, front, name);
    }
  }

  lemma NoIndicesWithoutName(world: World, r: nat, name: string, x: nat)
    requires Valid(world) && r < |world| && name !in UserNames(world[r])
    ensures x !in Indices(world, r, name)
  {
    InNamesIn(world[r].topos, name);
    InIndicesIn(Cpus(world), r, world[r], world[r].coords, name, x);
  }

  lemma DistinctImpliesExact(world: World, p: nat, name: string)
    requires Valid(world) && TruncDistinct(world) && p < |world| && name in UserNames(world[p])
    ensures Exact(world, name)
  {
    FinalGroupElements(world, name);
    forall r, x | 0 <= r < |world|
      ensures x in Row(world, r, Trunc(name)) <==> x in Indices(world, r, name)
    {
      forall a | a in UserNames(world[r]) && Trunc(a) == Trunc(name) ensures a == name {
        HaveNames(world, r, p, a, name);
      }
      RowOfDistinct(world, r, UserNames(world[r]), name);
      if name !in UserNames(world[r]) { NoIndicesWithoutName(world, r, name, x); }
    }
  }

  // ------------------------------------------------------- when the names are not enough

  ghost predicate SameTopologies(w: World, world: World) {
    |w| == |world| && forall r :: 0 <= r < |w| ==> w[r].cpu == world[r].cpu && w[r].topos == world[r].topos
  }

  /** The same topologies, but no coordinates except the given ones on rank p. */
  function Place(world: World, p: nat, coords: seq<Coord>): (w: World)
    ensures |w| == |world|
    ensures forall r :: 0 <= r < |w| ==> w[r] == world[r].(coords := if r == p then coords else [])
  {
    seq(|world|, r requires 0 <= r < |world| => world[r].(coords := if r == p then coords else []))
  }

  lemma PlaceValid(world: World, p: nat, coords: seq<Coord>)
    requires Valid(world) && p < |world|
    requires forall c :: c in coords ==> ValidCoord(world, p, c)
    ensures Valid(Place(world, p, coords)) && SameTopologies(Place(world, p, coords), world)
    ensures Cpus(Place(world, p, coords)) == Cpus(world)
    ensures forall r :: 0 <= r < |world| ==> UserNames(Place(world, p, coords)[r]) == UserNames(world[r])
  {
    var w := Place(world, p, coords);
    assert Cpus(w) == Cpus(world);
    forall r, k | 0 <= r < |w| && 0 <= k < |w[r].coords| ensures ValidCoord(w, r, w[r].coords[k]) {
      assert r == p && w[r].coords[k] in coords;
      assert ValidCoord(world, p, w[r].coords[k]);
    }
  }

  /** A coordinate of the named topology for the i-th CPU location of rank p. */
  lemma CoordFor(world: World, p: nat, name: string, i: nat) returns (c: Coord)
    requires Valid(world) && p < |world| && name in UserNames(world[p]) && i < Count(world[p].cpu)
    ensures ValidCoord(world, p, c) && InTopology(world[p], c, name)
    ensures c.thread <= |world[p].cpu| && Count(world[p].cpu[..c.thread]) == i
  {
    InNamesIn(world[p].topos, name);
    var k :| 0 <= k < |world[p].topos| && world[p].topos[k] == Topology(User, name);
    assert Fits(Cpus(world)) && Cpus(world)[p] == world[p].cpu;
    var t := IdsOfRankOnly(p, world[p].cpu, i);
    c := Coord(k, p, t);
  }

  lemma OneIndex(cpus: seq<seq<bool>>, r: nat, p: Process, c: Coord, name: string)
    requires Fits(cpus) && r < |cpus| && c.thread <= |cpus[r]|
    ensures IndicesIn(cpus, r, p, [c], name) == if InTopology(p, c, name) then [Position(cpus, r, c.thread)] else []
  {
    hide Position;
    assert [c][..0] == [];
  }

  lemma PlacedIndices(world: World, p: nat, a: string, c: Coord, r: nat, b: string)
    requires Valid(world) && p < |world| && r < |world|
    requires ValidCoord(world, p, c) && InTopology(world[p], c, a) && c.thread <= |world[p].cpu|
    ensures Valid(Place(world, p, [c]))
    ensures Indices(Place(world, p, [c]), r, b) ==
            if r == p && a == b then [Position(Cpus(world), p, c.thread)] else []
  {
    PlaceValid(world, p, [c]);
    assert Fits(Cpus(world)) && Cpus(world)[p] == world[p].cpu;
    hide Valid, Position, Fits, ValidCoord;
    if r == p {
      OneIndex(Cpus(world), p, Place(world, p, [c])[p], c, b);
    }
  }

  lemma {:induction false} RowOfLength(world: World, r: nat, names: seq<string>, key: string, name: string)
    requires Valid(world) && r < |world| && name in names && Trunc(name) == key
    ensures |RowOf(world, r, names, key)| >= |Members(world, r, name)|
  {
    var front, last := names[..|names| - 1], names[|names| - 1];
    assert names == front + [last];
    if last != name {
      RowOfLength(world, r, front, key, name);
    }
  }

  lemma CollisionBreaksExactness(world: World, p: nat, q: nat, a: string, b: string) returns (w: World)
    requires Valid(world) && p < |world| && q < |world|
    requires a in UserNames(world[p]) && b in UserNames(world[q]) && DifferAtEnd(a, b)
    ensures Valid(w) && SameTopologies(w, world) && !AllExact(w)
  {
    HaveNames(world, p, q, a, b);
    assert Count(world[p].cpu) > 0;
    hide Valid, UserNames, Indices, Position, Count, AllExact, Members;
    var c := CoordFor(world, p, a, 0);
    w := Place(world, p, [c]);
    PlaceValid(world, p, [c]);
    forall r | 0 <= r < |w| ensures Indices(w, r, b) == [] {
      PlacedIndices(world, p, a, c, r, b);
    }
    PlacedIndices(world, p, a, c, p, a);
    StrangerInGroup(w, p, q, a, b);
  }

  /** A location of another topology gets into the group of one without coordinates. */
  lemma StrangerInGroup(w: World, p: nat, q: nat, a: string, b: string)
    requires Valid(w) && p < |w| && q < |w| && a in UserNames(w[p]) && b in UserNames(w[q]) && Trunc(a) == Trunc(b)
    requires Indices(w, p, a) != [] && forall r :: 0 <= r < |w| ==> Indices(w, r, b) == []
    ensures !AllExact(w)
  {
    hide Valid, UserNames, Indices, RowOf, Trunc;
    assert Indices(w, p, a)[0] in Members(w, p, a);
    RowOfLength(w, p, UserNames(w[p]), Trunc(b), a);
    FinalGroupElements(w, b);
    var x := Row(w, p, Trunc(b))[0];
    assert x in Row(w, p, Trunc(b));
    hide FinalGroup, Row;
    assert !InUnion(w, b, x);
    assert !Exact(w, b) && b in UserNames(w[q]);
  }

  /** Whatever coordinates the ranks set, all their groups are right: exactly when the names
      in use, over all ranks, differ in more than their last character. */
  lemma GroupsExactIff(world: World)
    requires Valid(world)
    ensures (forall w :: Valid(w) && SameTopologies(w, world) ==> AllExact(w)) <==> TruncDistinct(world)
  {
    hide Valid, Exact;
    if TruncDistinct(world) {
      forall w | Valid(w) && SameTopologies(w, world) ensures AllExact(w) {
        assert TruncDistinct(w) by {
          assert forall r :: 0 <= r < |w| ==> UserNames(w[r]) == UserNames(world[r]);
        }
        forall r, name | 0 <= r < |w| && name in UserNames(w[r]) ensures Exact(w, name) {
          DistinctImpliesExact(w, r, name);
        }
      }
    } else {
      var p, q, a, b :| 0 <= p < |world| && 0 <= q < |world| && a in UserNames(world[p]) &&
        b in UserNames(world[q]) && DifferAtEnd(a, b);
      var w := CollisionBreaksExactness(world, p, q, a, b);
    }
  }

  // ------------------------------------------ when a location stays in its own groups

  /** Every coordinate's own location is in the group of its topology, which is all the
      re-ranking after unification relies on. */
  ghost predicate KeepsOwn(world: World)
    requires Valid(world)
  {
    forall r, name, x :: 0 <= r < |world| && x in Indices(world, r, name) ==> x in FinalGroup(world, name)
  }

  /** No rank with several CPU locations has two topologies whose names differ only in
      their last character. */
  ghost predicate NamesSafe(world: World) {
    forall p, a, b ::
      0 <= p < |world| && a in UserNames(world[p]) && b in UserNames(world[p]) && Count(world[p].cpu) > 1
      ==> !DifferAtEnd(a, b)
  }

  lemma {:induction false} RowOfElements(world: World, r: nat, names: seq<string>, key: string, x: nat)
    requires Valid(world) && r < |world| && x in RowOf(world, r, names, key)
    ensures exists name :: name in names && x in Indices(world, r, name)
  {
    hide Valid;
    var front, last := names[..|names| - 1], names[|names| - 1];
    assert names == front + [last];
    if Trunc(last) == key && x in Members(world, r, last) {
      assert last in names && x in Indices(world, r, last);
    } else {
      assert x in RowOf(world, r, front, key);
      RowOfElements(world, r, front, key, x);
    }
  }

  lemma IndexInRange(world: World, r: nat, name: string, x: nat)
    requires Valid(world) && r < |world| && x in Indices(world, r, name)
    ensures name in UserNames(world[r])
    ensures var offset := |AllLocations(Cpus(world)[..r])|; offset <= x < offset + Count(world[r].cpu)
  {
    var cpus, coords := Cpus(world), world[r].coords;
    InNamesIn(world[r].topos, name);
    InIndicesIn(cpus, r, world[r], coords, name, x);
    var k :| 0 <= k < |coords| && CoordAt(cpus, r, world[r], coords[k], name, x);
    assert ValidCoord(world, r, coords[k]);
    IdsOfRankAt(r, world[r].cpu, coords[k].thread);
  }

  lemma SafeImpliesKept(world: World, r: nat, name: string, x: nat)
    requires Valid(world) && NamesSafe(world) && r < |world| && x in Indices(world, r, name)
    ensures x in FinalGroup(world, name)
  {
    hide Valid, Indices, Count, RowOf;
    var names, key := UserNames(world[r]), Trunc(name);
    IndexInRange(world, r, name, x);
    FinalGroupElements(world, name);
    if Count(world[r].cpu) > 1 {
      forall a | a in names && Trunc(a) == Trunc(name) ensures a == name {
        HaveNames(world, r, r, a, name);
      }
      RowOfDistinct(world, r, names, name);
    } else {
      assert Members(world, r, name) != [] by { assert x in Members(world, r, name); }
      RowOfLength(world, r, names, key, name);
      var y := Row(world, r, key)[0];
      RowOfElements(world, r, names, key, y);
      var n :| n in names && y in Indices(world, r, n);
      IndexInRange(world, r, n, y);
      assert y == x;
    }
    assert x in Row(world, r, key);
  }

  lemma TwoIndices(cpus: seq<seq<bool>>, r: nat, p: Process, c: Coord, d: Coord, name: string)
    requires Fits(cpus) && r < |cpus| && c.thread <= |cpus[r]| && d.thread <= |cpus[r]|
    ensures IndicesIn(cpus, r, p, [c, d], name) ==
            (if InTopology(p, c, name) then [Position(cpus, r, c.thread)] else []) +
            (if InTopology(p, d, name) then [Position(cpus, r, d.thread)] else [])
  {
    OneIndex(cpus, r, p, c, name);
    hide Position;
    assert [c, d][..1] == [c];
  }

  lemma RowOfStep(world: World, r: nat, names: seq<string>, key: string, n: nat)
    requires Valid(world) && r < |world| && n < |names|
    ensures RowOf(world, r, names[..n + 1], key) ==
            if Trunc(names[n]) == key then Overlay(RowOf(world, r, names[..n], key), Members(world, r, names[n]))
            else RowOf(world, r, names[..n], key)
  {
    hide Valid, Members, Overlay;
    assert names[..n + 1][..n] == names[..n];
  }

  lemma OverlayCases(base: seq<nat>, x: nat, y: nat)
    ensures Overlay(base, []) == base
    ensures Overlay([], [x]) == [x] && Overlay([x], [y]) == [y]
  {}

  lemma {:induction false} RowOverwritten(world: World, r: nat, names: seq<string>, i: nat, j: nat, x: nat, y: nat,
                                          n: nat)
    requires Valid(world) && r < |world| && i < j < |names| && n <= |names|
    requires Trunc(names[i]) == Trunc(names[j])
    requires forall k :: 0 <= k < |names| ==>
      Members(world, r, names[k]) == if k == i then [x] else if k == j then [y] else []
    ensures RowOf(world, r, names[..n], Trunc(names[i])) == if n > j then [y] else if n > i then [x] else []
    decreases n
  {
    hide Valid, Members, Overlay, Trunc;
    if n > 0 {
      RowOverwritten(world, r, names, i, j, x, y, n - 1);
      RowOfStep(world, r, names, Trunc(names[i]), n - 1);
      hide RowOf;
      OverlayCases(RowOf(world, r, names[..n - 1], Trunc(names[i])), x, y);
      OverlayCases([], y, y);
    }
  }

  lemma PlacedTwo(world: World, p: nat, a: string, b: string, c: Coord, d: Coord, n: string)
    requires Valid(world) && p < |world|
    requires ValidCoord(world, p, c) && InTopology(world[p], c, a) && c.thread <= |world[p].cpu|
    requires ValidCoord(world, p, d) && InTopology(world[p], d, b) && d.thread <= |world[p].cpu|
    ensures Valid(Place(world, p, [c, d]))
    ensures Indices(Place(world, p, [c, d]), p, n) ==
            (if n == a then [Position(Cpus(world), p, c.thread)] else []) +
            (if n == b then [Position(Cpus(world), p, d.thread)] else [])
  {
    PlaceValid(world, p, [c, d]);
    assert Fits(Cpus(world)) && Cpus(world)[p] == world[p].cpu;
    hide Valid, Position, Fits, ValidCoord;
    TwoIndices(Cpus(world), p, Place(world, p, [c, d])[p], c, d, n);
  }

  /** The locations of two topologies of one rank are stored over each other. */
  lemma CollisionLosesLocation(world: World, p: nat, i: nat, j: nat) returns (w: World)
    requires Valid(world) && p < |world| && Count(world[p].cpu) > 1
    requires i < j < |UserNames(world[p])|
    requires DifferAtEnd(UserNames(world[p])[i], UserNames(world[p])[j])
    ensures Valid(w) && SameTopologies(w, world) && !KeepsOwn(w)
  {
    HaveNames(world, p, p, UserNames(world[p])[i], UserNames(world[p])[j]);
    hide *;
    w := ClashLosesLocation(world, p, i, j);
  }

  lemma ClashLosesLocation(world: World, p: nat, i: nat, j: nat) returns (w: World)
    requires Valid(world) && p < |world| && Count(world[p].cpu) > 1
    requires i < j < |UserNames(world[p])|
    requires Trunc(UserNames(world[p])[i]) == Trunc(UserNames(world[p])[j])
    ensures Valid(w) && SameTopologies(w, world) && !KeepsOwn(w)
  {
    hide Valid, ValidCoord, Indices, UserNames, Row, Trunc, InTopology, FinalGroup, Count;
    var names := UserNames(world[p]);
    UserNamesDistinct(world[p]);
    var c := CoordFor(world, p, names[i], 0);
    var d := CoordFor(world, p, names[j], 1);
    w := Place(world, p, [c, d]);
    PlaceValid(world, p, [c, d]);
    var x, y := Position(Cpus(world), p, c.thread), Position(Cpus(world), p, d.thread);
    forall k | 0 <= k < |names|
      ensures Members(w, p, names[k]) == if k == i then [x] else if k == j then [y] else []
    {
      PlacedTwo(world, p, names[i], names[j], c, d, names[k]);
      DedupOne(x);
      DedupOne(y);
    }
    LastOverwrites(w, p, i, j, x, y);
    FinalGroupElements(w, names[i]);
    forall r | 0 <= r < |w| ensures x !in Row(w, r, Trunc(names[i])) {
      if r != p {
        NoCoordsNoRow(w, r, Trunc(names[i]), x);
      }
    }
    assert x in Indices(w, p, names[i]) by { assert x in Members(w, p, names[i]); }
  }

  lemma LastOverwrites(world: World, r: nat, i: nat, j: nat, x: nat, y: nat)
    requires Valid(world) && r < |world|
    requires var names := UserNames(world[r]);
      i < j < |names| && Trunc(names[i]) == Trunc(names[j]) &&
      forall k :: 0 <= k < |names| ==>
        Members(world, r, names[k]) == if k == i then [x] else if k == j then [y] else []
    ensures Row(world, r, Trunc(UserNames(world[r])[i])) == [y]
  {
    hide Valid, Members, Trunc, RowOf, UserNames;
    var names := UserNames(world[r]);
    RowOverwritten(world, r, names, i, j, x, y, |names|);
    assert names[..|names|] == names;
  }

  lemma UserNamesDistinct(p: Process)
    ensures NoRepeats(UserNames(p))
  {}

  lemma NoCoordsNoRow(world: World, r: nat, key: string, x: nat)
    requires Valid(world) && r < |world| && world[r].coords == []
    ensures x !in Row(world, r, key)
  {
    assert forall n :: Indices(world, r, n) == [];
    hide Valid, Indices, RowOf;
    if x in Row(world, r, key) {
      RowOfElements(world, r, UserNames(world[r]), key, x);
    }
  }

  lemma LocationsKeptIff(world: World)
    requires Valid(world)
    ensures (forall w :: Valid(w) && SameTopologies(w, world) ==> KeepsOwn(w)) <==> NamesSafe(world)
  {
    hide Valid, Indices, Count;
    if NamesSafe(world) {
      forall w | Valid(w) && SameTopologies(w, world) ensures KeepsOwn(w) {
        assert NamesSafe(w) by {
          assert forall r :: 0 <= r < |w| ==> UserNames(w[r]) == UserNames(world[r]);
        }
        forall r, name, x | 0 <= r < |w| && x in Indices(w, r, name) ensures x in FinalGroup(w, name) {
          SafeImpliesKept(w, r, name, x);
        }
      }
    } else {
      var p, a, b :| 0 <= p < |world| && a in UserNames(world[p]) && b in UserNames(world[p]) &&
        DifferAtEnd(a, b) && Count(world[p].cpu) > 1;
      var i, j := IndexOf(UserNames(world[p]), a), IndexOf(UserNames(world[p]), b);
      if i < j {
        var w := CollisionLosesLocation(world, p, i, j);
      } else {
        var w := CollisionLosesLocation(world, p, j, i);
      }
    }
  }
}
