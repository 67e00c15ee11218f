/** The exchange of user topologies before unification
    (define_topology_locations_pre_unify_create_groups in SCOREP_Topologies.c).

    Every rank runs the same local steps on its own definitions; between them all ranks
    take part in a collective, which is one step over the buffers of all ranks.  The
    buffers have the fixed sizes of the source's arrays, and every store is in bounds. */
module TopologyExchange {
  import opened MachineWords
  import opened Wrappers
  import opened Sequences
  import opened CommLocations
  import opened TopologyGroups

  // ------------------------------------------------------ step 1: unique local topologies

  /** Looks a name up in the list of the first n handles, or appends it. */
  method FindOrAppend(handles: array<string>, n: nat, name: string) returns (i: nat, n': nat)
    requires n < handles.Length
    modifies handles
    ensures n <= n' <= n + 1 && i < n' && handles[i] == name
    ensures forall k :: 0 <= k < n ==> handles[k] == old(handles[k])
    ensures handles[..n'] == if name in old(handles[..n]) then old(handles[..n]) else old(handles[..n]) + [name]
  {
    i, n' := 0, n;
    while i < n && name != handles[i]
      invariant i <= n && name !in handles[..i]
    {
      i := i + 1;
    }
    if i == n {
      handles[n] := name;
      n' := n + 1;
    }
  }

  method UniqueTopologies(p: Process) returns (names: seq<string>, toUnique: seq<nat>)
    ensures names == UserNames(p)
    ensures ToUnique(p, names, toUnique)
  {
    hide Dedup, NamesIn;
    var handles, indices := new string[|p.topos|], new nat[|p.topos|];
    var n := 0;
    NoNames(p.topos);
    for t := 0 to |p.topos|
      invariant n <= t && handles[..n] == Dedup(NamesIn(p.topos[..t]))
      invariant forall s :: 0 <= s < t && p.topos[s].kind == User ==>
        indices[s] < n && handles[indices[s]] == p.topos[s].name
    {
      NamesInStep(p.topos, t);
      if p.topos[t].kind == User {
        DedupAppend(NamesIn(p.topos[..t]), p.topos[t].name);
        indices[t], n := FindOrAppend(handles, n, p.topos[t].name);
      }
    }
    assert p.topos[..|p.topos|] == p.topos;
    names, toUnique := handles[..n], indices[..];
  }

  lemma NoNames(topos: seq<Topology>)
    ensures Dedup(NamesIn(topos[..0])) == []
  {}

  lemma NamesInStep(topos: seq<Topology>, n: nat)
    requires n < |topos|
    ensures NamesIn(topos[..n + 1]) ==
            if topos[n].kind == User then NamesIn(topos[..n]) + [topos[n].name] else NamesIn(topos[..n])
  {
    assert topos[..n + 1][..n] == topos[..n];
  }

  // ---------------------------------------------------------- step 2: local member lists

  /** The global index of one coordinate's location.  The fatal error, a search without a
      match, would be None. */
  method LocateCoord(ghost world: World, r: nat, locations: seq<uint64>, max: nat, c: Coord)
    returns (found: Option<nat>)
    requires Valid(world) && r < |world| && ValidCoord(world, r, c)
    requires world[r].topos[c.topo].kind == User
    requires locations == AllLocations(Cpus(world)) && max == MaxCount(Cpus(world))
    ensures c.thread <= |world[r].cpu| && found == Some(Position(Cpus(world), r, c.thread))
  {
    ghost var cpus := Cpus(world);
    SearchSucceeds(cpus, r, c.thread);
    var start := StartPos(c.rank, c.thread, max, |locations|);
    found := SearchDown(locations, GlobalId(c.rank, c.thread), start);
    PositionHoldsId(cpus, r, c.thread);
    if found.Some? {
      PositionUnique(cpus, r, c.thread, found.value);
    }
  }

  /** Appends x to an unordered list unless a scan finds it there. */
  method AddUnlessPresent(list: seq<nat>, x: nat) returns (list': seq<nat>)
    ensures list' == if x in list then list else list + [x]
  {
    for j := 0 to |list|
      invariant x !in list[..j]
    {
      if list[j] == x { return list; }
    }
    list' := list + [x];
  }

  lemma MembersStep(cpus: seq<seq<bool>>, r: nat, p: Process, n: nat, name: string)
    requires Fits(cpus) && r < |cpus| && n < |p.coords|
    ensures var before, x := Dedup(IndicesIn(cpus, r, p, p.coords[..n], name)), p.coords[n].thread;
            Dedup(IndicesIn(cpus, r, p, p.coords[..n + 1], name)) ==
            if InTopology(p, p.coords[n], name) && x <= |cpus[r]| && Position(cpus, r, x) !in before
            then before + [Position(cpus, r, x)] else before
  {
    hide Position, Dedup;
    var i, c := IndicesIn(cpus, r, p, p.coords[..n], name), p.coords[n];
    assert p.coords[..n + 1][..n] == p.coords[..n];
    if InTopology(p, c, name) && c.thread <= |cpus[r]| {
      DedupAppend(i, Position(cpus, r, c.thread));
    } else {
      assert i + [] == i;
    }
  }

  lemma MembersBound(world: World, r: nat, name: string)
    requires Valid(world) && r < |world|
    ensures |Members(world, r, name)| <= Count(world[r].cpu)
  {
    hide Indices;
    var m := Members(world, r, name);
    if m != [] {
      var offset := |AllLocations(Cpus(world)[..r])|;
      forall x | x in m ensures offset <= x < offset + Count(world[r].cpu) {
        IndexInRange(world, r, name, x);
      }
      Pigeonhole(m, offset, offset + Count(world[r].cpu));
    }
  }

  /** The members found so far are no more than the locations of the rank. */
  lemma {:induction false} MembersRoom(world: World, r: nat, p: Process, n: nat, name: string)
    requires Valid(world) && r < |world| && p == world[r] && n <= |p.coords|
    ensures |Dedup(IndicesIn(Cpus(world), r, p, p.coords[..n], name))| <= |p.cpu|
    decreases |p.coords| - n
  {
    hide Dedup, IndicesIn, Position;
    if n < |p.coords| {
      MembersStep(Cpus(world), r, p, n, name);
      MembersRoom(world, r, p, n + 1, name);
    } else {
      assert p.coords[..n] == p.coords;
      MembersBound(world, r, name);
    }
  }

  lemma CoordIsValid(world: World, r: nat, k: nat)
    requires Valid(world) && r < |world| && k < |world[r].coords|
    ensures Fits(Cpus(world)) && ValidCoord(world, r, world[r].coords[k])
  {}

  /** What one coordinate adds to the members of one topology. */
  lemma MembersAfter(world: World, r: nat, p: Process, k: nat, name: string)
    requires Valid(world) && r < |world| && p == world[r] && k < |p.coords|
    ensures Fits(Cpus(world)) && ValidCoord(world, r, p.coords[k])
    ensures var c, cpus := p.coords[k], Cpus(world);
            var before, after := Dedup(IndicesIn(cpus, r, p, p.coords[..k], name)),
                                 Dedup(IndicesIn(cpus, r, p, p.coords[..k + 1], name));
            |after| <= |p.cpu| &&
            if p.topos[c.topo] != Topology(User, name) then after == before
            else c.thread <= |p.cpu| && cpus[r] == p.cpu &&
                 after == if Position(cpus, r, c.thread) in before then before
                          else before + [Position(cpus, r, c.thread)]
  {
    CoordIsValid(world, r, k);
    MembersRoom(world, r, p, k + 1, name);
    hide Dedup, IndicesIn, Position;
    MembersStep(Cpus(world), r, p, k, name);
  }

  lemma NoCoordsYet(cpus: seq<seq<bool>>, r: nat, p: Process)
    requires Fits(cpus) && r < |cpus|
    ensures forall name :: Dedup(IndicesIn(cpus, r, p, p.coords[..0], name)) == []
  {}

  /** The lists after the first k coordinates; each fits the row of the array it is in. */
  ghost predicate MembersUpTo(world: World, r: nat, p: Process, names: seq<string>, members: seq<seq<nat>>, k: nat)
    requires Fits(Cpus(world)) && r < |world| && k <= |p.coords|
  {
    |members| == |names| &&
    forall u :: 0 <= u < |names| ==>
      members[u] == Dedup(IndicesIn(Cpus(world), r, p, p.coords[..k], names[u])) && |members[u]| <= |p.cpu|
  }

  lemma MembersComplete(world: World, r: nat, p: Process, names: seq<string>, members: seq<seq<nat>>)
    requires Valid(world) && r < |world| && p == world[r] && MembersUpTo(world, r, p, names, members, |p.coords|)
    ensures forall u :: 0 <= u < |names| ==> members[u] == Members(world, r, names[u]) && |members[u]| <= |p.cpu|
  {
    assert p.coords[..|p.coords|] == p.coords;
  }

  method LocalGroups(ghost world: World, r: nat, p: Process, names: seq<string>, toUnique: seq<nat>,
                     locations: seq<uint64>, max: nat)
    returns (members: seq<seq<nat>>)
    requires Valid(world) && r < |world| && p == world[r]
    requires names == UserNames(p) && ToUnique(p, names, toUnique)
    requires locations == AllLocations(Cpus(world)) && max == MaxCount(Cpus(world))
    ensures |members| == |names|
    ensures forall u :: 0 <= u < |names| ==> members[u] == Members(world, r, names[u]) && |members[u]| <= |p.cpu|
  {
    assert Fits(Cpus(world));
    NoCoordsYet(Cpus(world), r, p);
    members := seq(|names|, _ => []);
    hide Valid, Fits, UserNames, AllLocations, MaxCount;
    UserNamesDistinct(p);
    assert MembersUpTo(world, r, p, names, members, 0);
    hide MembersUpTo;
    for k := 0 to |p.coords|
      invariant MembersUpTo(world, r, p, names, members, k)
    {
      members := AddMember(world, r, p, names, toUnique, locations, max, members, k);
    }
    MembersComplete(world, r, p, names, members);
  }

  ghost predicate ToUnique(p: Process, names: seq<string>, toUnique: seq<nat>) {
    |toUnique| == |p.topos| &&
    forall t :: 0 <= t < |p.topos| && p.topos[t].kind == User ==>
      toUnique[t] < |names| && names[toUnique[t]] == p.topos[t].name
  }

  /** One turn of the loop over the coordinates. */
  method AddMember(ghost world: World, r: nat, p: Process, names: seq<string>, toUnique: seq<nat>,
                   locations: seq<uint64>, max: nat, members: seq<seq<nat>>, k: nat)
    returns (members': seq<seq<nat>>)
    requires Valid(world) && r < |world| && p == world[r] && k < |p.coords|
    requires NoRepeats(names) && ToUnique(p, names, toUnique)
    requires locations == AllLocations(Cpus(world)) && max == MaxCount(Cpus(world))
    requires MembersUpTo(world, r, p, names, members, k)
    ensures MembersUpTo(world, r, p, names, members', k + 1)
  {
    hide Valid, Dedup, IndicesIn, Position, Fits, AllLocations, MaxCount;
    var c := p.coords[k];
    CoordIsValid(world, r, k);
    forall u | 0 <= u < |names| { MembersAfter(world, r, p, k, names[u]); }
    members' := members;
    if p.topos[c.topo].kind == User {
      var found := LocateCoord(world, r, locations, max, c);
      var u := toUnique[c.topo];
      var list := AddUnlessPresent(members[u], found.value);
      assert |list| <= |p.cpu|;  // room in the row for all locations of the rank
      members' := members[u := list];
    }
  }

  // --------------------------------------------------------------- step 3: packed names

  /** The names one after the other, each with its last character replaced by NUL. */
  function Packed(names: seq<string>): string {
    if names == [] then "" else Packed(names[..|names| - 1]) + Trunc(names[|names| - 1]) + ['\0']
  }

  function TotalLength(names: seq<string>): nat {
    if names == [] then 0 else TotalLength(names[..|names| - 1]) + |names[|names| - 1]|
  }

  ghost predicate Nameable(names: seq<string>) {
    forall i :: 0 <= i < |names| ==> names[i] != "" && '\0' !in names[i]
  }

  lemma NamesNameable(world: World, r: nat)
    requires Valid(world) && r < |world|
    ensures Nameable(UserNames(world[r]))
  {
    var names := UserNames(world[r]);
    forall i | 0 <= i < |names| ensures names[i] != "" && '\0' !in names[i] {
      assert names[i] in names;
      InNamesIn(world[r].topos, names[i]);
    }
  }

  lemma PackedStep(names: seq<string>, n: nat)
    requires n < |names|
    ensures TotalLength(names[..n + 1]) == TotalLength(names[..n]) + |names[n]|
    ensures Packed(names[..n + 1]) == Packed(names[..n]) + Trunc(names[n]) + ['\0']
  {
    assert names[..n + 1][..n] == names[..n];
  }

  method MeasureNames(names: seq<string>) returns (total: nat, lengths: seq<nat>)
    ensures total == TotalLength(names) + |names|
    ensures |lengths| == |names| && forall i :: 0 <= i < |names| ==> lengths[i] == |names[i]|
  {
    total, lengths := 0, [];
    for i := 0 to |names|
      invariant total == TotalLength(names[..i]) + i && |lengths| == i
      invariant forall j :: 0 <= j < i ==> lengths[j] == |names[j]|
    {
      PackedStep(names, i);
      total := total + |names[i]| + 1;
      lengths := lengths + [|names[i]|];
    }
    assert names[..|names|] == names;
  }

  /** One rank packs its names into a buffer that is one byte longer for each name. */
  method PackNames(names: seq<string>) returns (buffer: string, used: nat, lengths: seq<nat>)
    requires Nameable(names)
    ensures used == |Packed(names)| <= |buffer| && buffer[..used] == Packed(names)
    ensures |buffer| == TotalLength(names) + |names|
    ensures forall i, k :: 0 <= i < |names| && 0 <= k < |names[i]| ==> SentByte(names, buffer, i, k)
    ensures |lengths| == |names| && forall i :: 0 <= i < |names| ==> lengths[i] == |names[i]|
  {
    hide Packed, TotalLength;
    var total;
    total, lengths := MeasureNames(names);
    var buf := new char[total];
    var offset := 0;
    NothingPacked(names);
    for i := 0 to |names|
      invariant offset == TotalLength(names[..i]) <= total
      invariant buf[..offset] == Packed(names[..i])
    {
      PackedStep(names, i);
      TotalLengthGrows(names, i);
      CopyName(buf, offset, names[i]);
      offset := offset + |names[i]|;
    }
    assert names[..|names|] == names;
    buffer, used := buf[..], offset;
    forall i, k | 0 <= i < |names| && 0 <= k < |names[i]| ensures SentByte(names, buffer, i, k) {
      PackedByte(names, i, k);
      assert buffer[TotalLength(names[..i]) + k] == buffer[..used][TotalLength(names[..i]) + k];
    }
  }

  /** Byte k of name i, behind all bytes of the names before it: the last one is NUL. */
  predicate SentByte(names: seq<string>, buffer: string, i: nat, k: nat)
    requires i < |names| && k < |names[i]|
  {
    TotalLength(names[..i]) + k < |buffer| &&
    buffer[TotalLength(names[..i]) + k] == if k < |names[i]| - 1 then names[i][k] else '\0'
  }

  lemma PackedByte(names: seq<string>, i: nat, k: nat)
    requires Nameable(names) && i < |names| && k < |names[i]|
    ensures SentByte(names, Packed(names), i, k)
  {
    hide Packed, TotalLength;
    PackedUpTo(names, i);
    PackedPrefix(names, i + 1);
    var upto, at := Packed(names[..i + 1]), TotalLength(names[..i]) + k;
    assert Packed(names)[at] == Packed(names)[..|upto|][at] == upto[at];
  }

  lemma NothingPacked(names: seq<string>)
    ensures TotalLength(names[..0]) == 0 && Packed(names[..0]) == ""
  {}

  /** memcpy of the name, then NUL over its last character. */
  method CopyName(buf: array<char>, offset: nat, name: string)
    requires name != "" && offset + |name| <= buf.Length
    modifies buf
    ensures buf[..offset + |name|] == old(buf[..offset]) + Trunc(name) + ['\0']
  {
    forall k | 0 <= k < |name| { buf[offset + k] := name[k]; }
    buf[offset + |name| - 1] := '\0';
  }

  lemma {:induction false} TotalLengthGrows(names: seq<string>, i: nat)
    requires i < |names|
    ensures TotalLength(names[..i]) + |names[i]| <= TotalLength(names)
    decreases |names|
  {
    if i < |names| - 1 {
      TotalLengthGrows(names[..|names| - 1], i);
      assert names[..|names| - 1][..i] == names[..i];
    } else {
      assert names[..i] == names[..|names| - 1];
    }
  }

  /** The C string that starts at an offset of a buffer. */
  function TextAt(buffer: string, offset: nat): string
    requires exists k :: offset <= k < |buffer| && buffer[k] == '\0'
    decreases |buffer| - offset
  {
    if buffer[offset] == '\0' then "" else [buffer[offset]] + TextAt(buffer, offset + 1)
  }

  lemma {:induction false} TextAtIs(buffer: string, offset: nat, s: string)
    requires offset + |s| < |buffer| && buffer[offset..offset + |s|] == s && '\0' !in s
    requires buffer[offset + |s|] == '\0'
    ensures TextAt(buffer, offset) == s
    decreases |s|
  {
    if s != "" {
      assert buffer[offset] == s[0];
      assert buffer[offset + 1..offset + 1 + |s[1..]|] == s[1..];
      TextAtIs(buffer, offset + 1, s[1..]);
      assert s == [s[0]] + s[1..];
    }
  }

  lemma {:induction false} PackedLength(names: seq<string>)
    requires Nameable(names)
    ensures |Packed(names)| == TotalLength(names)
  {
    if names != [] {
      PackedLength(names[..|names| - 1]);
    }
  }

  lemma {:induction false} PackedPrefix(names: seq<string>, j: nat)
    requires j <= |names|
    ensures |Packed(names[..j])| <= |Packed(names)| && Packed(names)[..|Packed(names[..j])|] == Packed(names[..j])
    decreases |names|
  {
    if j < |names| {
      PackedPrefix(names[..|names| - 1], j);
      assert names[..|names| - 1][..j] == names[..j];
    } else {
      assert names[..j] == names;
    }
  }

  /** Reading at the end of the first j names gives name j, truncated, from any buffer that
      starts with the packed names: what follows them is never looked at. */
  lemma ReadPacked(names: seq<string>, buffer: string, j: nat)
    requires Nameable(names) && j < |names|
    requires |Packed(names)| <= |buffer| && buffer[..|Packed(names)|] == Packed(names)
    ensures exists k :: TotalLength(names[..j]) <= k < |buffer| && buffer[k] == '\0'
    ensures TextAt(buffer, TotalLength(names[..j])) == Trunc(names[j]) == names[j][..|names[j]| - 1]
  {
    ReadTrunc(names, buffer, j);
    TruncIs(names[j]);
    hide *;
  }

  lemma ReadTrunc(names: seq<string>, buffer: string, j: nat)
    requires Nameable(names) && j < |names|
    requires |Packed(names)| <= |buffer| && buffer[..|Packed(names)|] == Packed(names)
    ensures exists k :: TotalLength(names[..j]) <= k < |buffer| && buffer[k] == '\0'
    ensures TextAt(buffer, TotalLength(names[..j])) == Trunc(names[j])
  {
    hide Packed, TextAt, TotalLength, Trunc;
    var offset, key := TotalLength(names[..j]), Trunc(names[j]);
    PackedUpTo(names, j);
    PackedPrefix(names, j + 1);
    NamePlaced(buffer, Packed(names[..j]), key, Packed(names));
    assert '\0' !in key by { NoNul(names, j); }
    TextAtIs(buffer, offset, key);
  }

  lemma TruncIs(name: string)
    requires name != ""
    ensures Trunc(name) == name[..|name| - 1]
  {}

  lemma NoNul(names: seq<string>, j: nat)
    requires Nameable(names) && j < |names|
    ensures '\0' !in Trunc(names[j])
  {}

  lemma PackedUpTo(names: seq<string>, j: nat)
    requires Nameable(names) && j < |names|
    ensures |Packed(names[..j])| == TotalLength(names[..j])
    ensures Packed(names[..j + 1]) == Packed(names[..j]) + Trunc(names[j]) + ['\0']
  {
    PackedLength(names[..j]);
    assert names[..j + 1][..j] == names[..j];
  }

  /** A buffer that begins with a text that begins with a key and its terminator. */
  lemma NamePlaced(buffer: string, front: string, key: string, packed: string)
    requires |packed| <= |buffer| && buffer[..|packed|] == packed
    requires var upto := front + key + ['\0']; |upto| <= |packed| && packed[..|upto|] == upto
    ensures var offset := |front|;
            offset + |key| < |buffer| && buffer[offset..offset + |key|] == key && buffer[offset + |key|] == '\0'
  {
    var upto := front + key + ['\0'];
    assert forall k :: 0 <= k < |upto| ==> buffer[k] == buffer[..|packed|][k] == packed[..|upto|][k] == upto[k];
  }

  // ---------------------------------------------------------------- step 4: collectives

  /** Allreduce with the maximum. */
  function MaxOf(values: seq<nat>): (m: nat)
    ensures forall i :: 0 <= i < |values| ==> values[i] <= m
    ensures if values == [] then m == 0 else exists i :: 0 <= i < |values| && values[i] == m
  {
    if values == [] then 0
    else
      assert forall i :: 0 <= i < |values| - 1 ==> values[..|values| - 1][i] == values[i];
      var m, last := MaxOf(values[..|values| - 1]), values[|values| - 1];
      if m < last then last else m
  }

  /** The send buffer of the lengths: zeros where a rank has fewer topologies than others. */
  function LengthRow(lengths: seq<nat>, max: nat): (row: seq<nat>)
    requires |lengths| <= max
    ensures |row| == max
  {
    lengths + seq(max - |lengths|, _ => 0)
  }

  /** What the others receive from a rank whose buffer ends before the common length:
      whatever lies behind the used part of that rank's memory. */
  function NameRow(buffer: string, used: nat, max: nat, garbage: nat -> char): (row: string)
    requires used <= |buffer|
    ensures |row| == max
  {
    seq(max, k requires 0 <= k => if k < used then buffer[k] else garbage(k))
  }

  // ------------------------------------------------------------ step 5: global name list

  function Keys(p: Process): (keys: seq<string>)
    ensures |keys| == |UserNames(p)|
  {
    seq(|UserNames(p)|, j requires 0 <= j < |UserNames(p)| => Trunc(UserNames(p)[j]))
  }

  function AllKeys(world: World, n: nat): seq<string>
    requires n <= |world|
  {
    if n == 0 then [] else AllKeys(world, n - 1) + Keys(world[n - 1])
  }

  /** The transmitted names in order of first appearance, ranks one after the other. */
  function GlobalNames(world: World): seq<string> {
    Dedup(AllKeys(world, |world|))
  }

  /** What rank i's rows of the two gathered buffers hold. */
  ghost predicate RowsOfRank(p: Process, lengths: seq<nat>, buffer: string) {
    var names := UserNames(p);
    Nameable(names) && |names| <= |lengths| &&
    (forall j :: 0 <= j < |lengths| ==> lengths[j] == if j < |names| then |names[j]| else 0) &&
    |Packed(names)| <= |buffer| && buffer[..|Packed(names)|] == Packed(names)
  }

  /** All rows of the two gathered buffers, each of the common number of names. */
  ghost predicate Received(world: World, lengths: seq<seq<nat>>, buffers: seq<string>, maxNames: nat) {
    |lengths| == |buffers| == |world| &&
    forall i :: 0 <= i < |world| ==> RowsOfRank(world[i], lengths[i], buffers[i]) && |lengths[i]| == maxNames
  }

  /** A rank's map leads from each of its topologies to the transmitted name. */
  ghost predicate MapsNames(p: Process, toGlobal: seq<int>, names: seq<string>) {
    |UserNames(p)| <= |toGlobal| &&
    forall j :: 0 <= j < |UserNames(p)| ==> 0 <= toGlobal[j] < |names| && names[toGlobal[j]] == Keys(p)[j]
  }

  lemma MapsLongerNames(p: Process, toGlobal: seq<int>, names: seq<string>, names': seq<string>)
    requires MapsNames(p, toGlobal, names) && names <= names'
    ensures MapsNames(p, toGlobal, names')
  {
    assert forall k :: 0 <= k < |names| ==> names'[k] == names[k];
  }

  /** The place of a name among the first n of the global list. */
  method FindKey(list: array<string>, n: nat, name: string) returns (k: nat)
    requires n <= list.Length
    ensures k <= n && (k < n ==> list[k] == name)
    ensures k < n <==> name in list[..n]
  {
    k := 0;
    while k < n && name != list[k]
      invariant k <= n && name !in list[..k]
    {
      k := k + 1;
    }
  }

  lemma TruncShorter(name: string)
    ensures name != "" ==> |Trunc(name)| < |name|
  {}

  /** One name is mapped to its place in the global list, at the end if it is new there. */
  method MapName(list: array<string>, n: nat, name: string, ghost seen: seq<string>) returns (k: nat, n': nat)
    requires n <= |seen| < list.Length && list[..n] == Dedup(seen)
    modifies list
    ensures n <= n' <= |seen| + 1 && list[..n'] == Dedup(seen + [name]) && list[..n] == old(list[..n])
    ensures k < n' && list[k] == name
  {
    hide Dedup;
    DedupAppend(seen, name);
    k := FindKey(list, n, name);
    n' := n;
    if k == n {
      list[n] := name;
      n' := n + 1;
    }
  }

  /** Unpacks one rank's names, extending the global list; -1 marks unused map entries. */
  method AddRank(ghost p: Process, lengths: seq<nat>, buffer: string, list: array<string>, n: nat,
                 ghost seen: seq<string>)
    returns (n': nat, toGlobal: seq<int>)
    requires RowsOfRank(p, lengths, buffer) && n <= |seen| && |seen| + |lengths| <= list.Length
    requires list[..n] == Dedup(seen)
    modifies list
    ensures n <= n' <= |seen + Keys(p)| <= list.Length
    ensures list[..n'] == Dedup(seen + Keys(p)) && list[..n] == old(list[..n])
    ensures |toGlobal| == |lengths| && MapsNames(p, toGlobal, list[..n'])
  {
    hide Dedup, UserNames, Packed, TextAt, Trunc, TotalLength;
    ghost var unique, keys := UserNames(p), Keys(p);
    n', toGlobal := n, seq(|lengths|, _ => -1);
    var offset, j := 0, 0;
    assert seen + keys[..0] == seen;
    NothingPacked(unique);
    while j < |lengths| && lengths[j] != 0
      invariant j <= |unique| && |toGlobal| == |lengths|
      invariant offset == TotalLength(unique[..j])
      invariant n <= n' <= |seen| + j && list[..n'] == Dedup(seen + keys[..j]) && list[..n] == old(list[..n])
      invariant forall i :: 0 <= i < j ==> 0 <= toGlobal[i] < n' && list[toGlobal[i]] == keys[i]
    {
      ReadPacked(unique, buffer, j);
      TruncShorter(unique[j]);
      var name := TextAt(buffer, offset);
      assert name == keys[j] && |name| < lengths[j];  // fits the buffer it is copied to
      PackedStep(unique, j);
      offset := offset + lengths[j];
      assert seen + keys[..j + 1] == seen + keys[..j] + [name];
      ghost var before := list[..n'];
      var k;
      k, n' := MapName(list, n', name, seen + keys[..j]);
      forall i | 0 <= i < j ensures list[toGlobal[i]] == keys[i] {
        assert before[toGlobal[i]] == keys[i];
      }
      toGlobal := toGlobal[j := k];
      j := j + 1;
    }
    assert keys[..|unique|] == keys;
  }

  lemma NoKeysYet(world: World)
    ensures AllKeys(world, 0) == []
  {}

  lemma AllKeysStep(world: World, n: nat)
    requires n < |world|
    ensures AllKeys(world, n + 1) == AllKeys(world, n) + Keys(world[n])
  {}

  lemma AllKeysBound(world: World, lengths: seq<seq<nat>>, buffers: seq<string>, maxNames: nat, n: nat)
    requires Received(world, lengths, buffers, maxNames) && n <= |world|
    ensures |AllKeys(world, n)| <= n * maxNames
  {
    hide UserNames, Packed;
    if n > 0 {
      AllKeysBound(world, lengths, buffers, maxNames, n - 1);
      assert RowsOfRank(world[n - 1], lengths[n - 1], buffers[n - 1]);
      OneRankMore(n, maxNames);
    }
  }

  lemma RoomForRank(world: World, lengths: seq<seq<nat>>, buffers: seq<string>, maxNames: nat, i: nat)
    requires Received(world, lengths, buffers, maxNames) && i < |world|
    ensures |AllKeys(world, i)| + maxNames <= maxNames * |world|
  {
    hide RowsOfRank, AllKeys;
    AllKeysBound(world, lengths, buffers, maxNames, i);
    OneRankMore(i + 1, maxNames);
    assert (i + 1) * maxNames <= |world| * maxNames;
  }

  /** The array of global names has room for all names of all ranks. */
  method BuildGlobalNames(ghost world: World, lengths: seq<seq<nat>>, buffers: seq<string>, maxNames: nat)
    returns (names: seq<string>, toGlobal: seq<seq<int>>)
    requires Received(world, lengths, buffers, maxNames)
    ensures names == GlobalNames(world) && |names| <= maxNames * |world|
    ensures |toGlobal| == |world|
    ensures forall i :: 0 <= i < |world| ==> |toGlobal[i]| == maxNames && MapsNames(world[i], toGlobal[i], names)
  {
    hide RowsOfRank, Dedup, MapsNames, Keys, AllKeys;
    var list, n := new string[maxNames * |lengths|], 0;
    toGlobal := [];
    DedupNothing<string>();
    NoKeysYet(world);
    for i := 0 to |lengths|
      invariant |toGlobal| == i && n <= list.Length && n <= |AllKeys(world, i)|
      invariant list[..n] == Dedup(AllKeys(world, i))
      invariant forall q :: 0 <= q < i ==> |toGlobal[q]| == maxNames && MapsNames(world[q], toGlobal[q], list[..n])
    {
      RoomForRank(world, lengths, buffers, maxNames, i);
      AllKeysStep(world, i);
      ghost var names0 := list[..n];
      var n', toGlobal' := AddRank(world[i], lengths[i], buffers[i], list, n, AllKeys(world, i));
      assert list[..n'][..n] == names0;
      forall q | 0 <= q < i ensures MapsNames(world[q], toGlobal[q], list[..n']) {
        MapsLongerNames(world[q], toGlobal[q], names0, list[..n']);
      }
      n, toGlobal := n', toGlobal + [toGlobal'];
    }
    names := list[..n];
  }

  // ------------------------------------------------------------- step 6: member exchange

  /** UINT64_MAX ends a row. */
  const NO_LOCATION: nat := TWO_64 - 1

  function Padded(row: seq<nat>, max: nat): (buffer: seq<nat>)
    requires |row| <= max
    ensures |buffer| == max
  {
    row + seq(max - |row|, _ => NO_LOCATION)
  }

  /** Row g holds what has been stored in it, padded. */
  ghost predicate RowHolds(members: seq<seq<nat>>, toGlobal: seq<int>, g: nat, max: nat, row: seq<nat>)
    requires |members| <= |toGlobal|
  {
    |Overlaid(members, toGlobal, g)| <= max && row == Padded(Overlaid(members, toGlobal, g), max)
  }

  /** One rank stores its member lists in the rows of the global names. */
  method FillRows(members: seq<seq<nat>>, toGlobal: seq<int>, count: nat, max: nat) returns (rows: seq<seq<nat>>)
    requires forall u :: 0 <= u < |members| ==> |members[u]| <= max
    requires |members| <= |toGlobal| && forall u :: 0 <= u < |members| ==> 0 <= toGlobal[u] < count
    ensures |rows| == count
    ensures forall g: nat :: g < count ==> RowHolds(members, toGlobal, g, max, rows[g])
  {
    rows := seq(count, _ => seq(max, _ => NO_LOCATION));
    NothingOverlaid(members[..0], toGlobal);
    hide Overlaid, Padded, Overlay;
    for u := 0 to |members|
      invariant |rows| == count
      invariant forall g: nat :: g < count ==> RowHolds(members[..u], toGlobal, g, max, rows[g])
    {
      var g := toGlobal[u];
      ghost var before := rows;
      assert RowHolds(members[..u], toGlobal, g, max, rows[g]);
      var row := StoreRow(rows[g], Overlaid(members[..u], toGlobal, g), members[u], max);
      rows := rows[g := row];
      forall h: nat | h < count ensures RowHolds(members[..u + 1], toGlobal, h, max, rows[h]) {
        OverlaidStep(members, toGlobal, h, u);
        assert RowHolds(members[..u], toGlobal, h, max, before[h]);
      }
    }
    assert members[..|members|] == members;
  }

  lemma NothingOverlaid(members: seq<seq<nat>>, toGlobal: seq<int>)
    requires members == []
    ensures forall g :: Overlaid(members, toGlobal, g) == []
    ensures forall max: nat :: Padded([], max) == seq(max, _ => NO_LOCATION)
  {}

  lemma OverlaidStep(members: seq<seq<nat>>, toGlobal: seq<int>, g: nat, u: nat)
    requires u < |members| <= |toGlobal|
    ensures Overlaid(members[..u + 1], toGlobal, g) ==
            if toGlobal[u] == g then Overlay(Overlaid(members[..u], toGlobal, g), members[u])
            else Overlaid(members[..u], toGlobal, g)
  {
    hide Overlay;
    assert members[..u + 1][..u] == members[..u];
  }

  /** The inner loop: a list is stored over what is in the row already. */
  method StoreRow(row0: seq<nat>, ghost base: seq<nat>, list: seq<nat>, max: nat) returns (row: seq<nat>)
    requires |base| <= max && row0 == Padded(base, max) && |list| <= max
    ensures |Overlay(base, list)| <= max && row == Padded(Overlay(base, list), max)
  {
    row := row0;
    for j := 0 to |list|
      invariant |row| == max
      invariant row == list[..j] + Padded(base, max)[j..]
    {
      row := row[j := list[j]];
    }
  }

  /** The lists stored in row g, each over the ones before it. */
  function Overlaid(members: seq<seq<nat>>, toGlobal: seq<int>, g: nat): seq<nat>
    requires |members| <= |toGlobal|
  {
    if members == [] then []
    else
      var n := |members| - 1;
      var base := Overlaid(members[..n], toGlobal, g);
      if toGlobal[n] == g then Overlay(base, members[n]) else base
  }

  lemma {:induction false} OverlaidIsRow(world: World, r: nat, members: seq<seq<nat>>, toGlobal: seq<int>,
                                         global: seq<string>, g: nat, n: nat)
    requires Valid(world) && r < |world| && NoRepeats(global) && g < |global|
    requires var names := UserNames(world[r]);
      n <= |names| == |members| && |members| <= |toGlobal| &&
      (forall u :: 0 <= u < |names| ==> members[u] == Members(world, r, names[u])) &&
      (forall u :: 0 <= u < |names| ==> 0 <= toGlobal[u] < |global| && global[toGlobal[u]] == Trunc(names[u]))
    ensures Overlaid(members[..n], toGlobal, g) == RowOf(world, r, UserNames(world[r])[..n], global[g])
    decreases n
  {
    hide Valid, Members, Overlay, UserNames, Trunc;
    if n > 0 {
      var names := UserNames(world[r]);
      OverlaidIsRow(world, r, members, toGlobal, global, g, n - 1);
      assert members[..n][..n - 1] == members[..n - 1];
      RowOfStep(world, r, names, global[g], n - 1);
      assert toGlobal[n - 1] == g <==> Trunc(names[n - 1]) == global[g];
    }
  }

  // -------------------------------------------------------------- step 7: final groups

  /** Rank i's gathered rows hold its member list of the key's topology in row g. */
  ghost predicate Gathered(world: World, key: string, i: nat, rows: seq<seq<nat>>, g: int, max: nat)
    requires Valid(world) && i < |world|
  {
    0 <= g < |rows| && |Row(world, i, key)| <= max && rows[g] == Padded(Row(world, i, key), max)
  }

  /** One rank merges the rows of all ranks: for each rank and each of its own topologies
      it reads a row up to the end mark and adds the indices it does not have yet. */
  method MergeGroups(ghost world: World, ghost keys: seq<string>, gathered: seq<seq<seq<nat>>>, toGlobal: seq<int>,
                     unique: nat, max: nat, total: nat)
    returns (groups: seq<seq<nat>>)
    requires Valid(world) && total == |AllLocations(Cpus(world))|
    requires unique == |keys| && unique <= |toGlobal| && |gathered| == |world|
    requires forall i, j :: 0 <= i < |world| && 0 <= j < unique ==>
      Gathered(world, keys[j], i, gathered[i], toGlobal[j], max)
    ensures |groups| == unique
    ensures forall j :: 0 <= j < unique ==> groups[j] == Sorted(Dedup(Concat(Rows(world, keys[j]))))
  {
    hide Valid, Dedup, Row, Padded, Sorted, Concat;
    groups := seq(unique, _ => []);
    NothingMerged(world, keys);
    for i := 0 to |gathered|
      invariant |groups| == unique
      invariant forall j :: 0 <= j < unique ==> groups[j] == Dedup(Concat(Rows(world, keys[j])[..i]))
    {
      for j := 0 to unique
        invariant |groups| == unique
        invariant forall u :: 0 <= u < j ==> groups[u] == Dedup(Concat(Rows(world, keys[u])[..i + 1]))
        invariant forall u :: j <= u < unique ==> groups[u] == Dedup(Concat(Rows(world, keys[u])[..i]))
      {
        assert Gathered(world, keys[j], i, gathered[i], toGlobal[j], max);
        var group := MergeRow(world, keys[j], i, gathered[i][toGlobal[j]], groups[j], max, total);
        groups := groups[j := group];
      }
    }
    forall j | 0 <= j < unique ensures Rows(world, keys[j])[..|world|] == Rows(world, keys[j]) {}
    for j := 0 to unique
      invariant |groups| == unique
      invariant forall u :: 0 <= u < j ==> groups[u] == Sorted(Dedup(Concat(Rows(world, keys[u]))))
      invariant forall u :: j <= u < unique ==> groups[u] == Dedup(Concat(Rows(world, keys[u])))
    {
      groups := groups[j := Sorted(groups[j])];
    }
  }

  lemma NothingMerged(world: World, keys: seq<string>)
    requires Valid(world)
    ensures forall j :: 0 <= j < |keys| ==> Dedup(Concat(Rows(world, keys[j])[..0])) == []
  {}

  method MergeRow(ghost world: World, ghost key: string, ghost i: nat, row: seq<nat>, group: seq<nat>, max: nat,
                  total: nat)
    returns (group': seq<nat>)
    requires Valid(world) && i < |world| && total == |AllLocations(Cpus(world))|
    requires |Row(world, i, key)| <= max && row == Padded(Row(world, i, key), max)
    requires group == Dedup(Concat(Rows(world, key)[..i]))
    ensures group' == Dedup(Concat(Rows(world, key)[..i + 1]))
  {
    hide Valid, Dedup, Row, Concat, Padded, Rows;
    ghost var before, list := Concat(Rows(world, key)[..i]), Row(world, i, key);
    ConcatStep(Rows(world, key), i);
    group' := group;
    assert before + list[..0] == before;
    var k := 0;
    while k < max && row[k] != NO_LOCATION
      invariant 0 <= k <= |list| && group' == Dedup(before + list[..k])
    {
      PaddedAt(list, max, k);
      MergeStep(before, list, k);
      assert list[k] !in group' ==> |group'| < total by {  // room in the fixed-size group
        MergedBound(world, key, i, k);
      }
      group' := AddUnlessPresent(group', row[k]);
      k := k + 1;
    }
    if k < |list| {
      PaddedAt(list, max, k);
      RowBelow(world, i, key, list[k]);
    }
    assert list[..|list|] == list;
  }

  lemma PaddedAt(list: seq<nat>, max: nat, k: nat)
    requires |list| <= max && k < max
    ensures Padded(list, max)[k] == if k < |list| then list[k] else 0xFFFF_FFFF_FFFF_FFFF
  {}

  lemma MergeStep(before: seq<nat>, list: seq<nat>, k: nat)
    requires k < |list|
    ensures var merged := Dedup(before + list[..k]);
            Dedup(before + list[..k + 1]) == if list[k] in merged then merged else merged + [list[k]]
  {
    hide Dedup;
    DedupAppend(before + list[..k], list[k]);
    assert before + list[..k + 1] == before + list[..k] + [list[k]];
  }

  lemma ConcatStep(rows: seq<seq<nat>>, i: nat)
    requires i < |rows|
    ensures Concat(rows[..i + 1]) == Concat(rows[..i]) + rows[i]
  {
    assert rows[..i + 1][..i] == rows[..i];
  }

  lemma RowBelow(world: World, r: nat, key: string, x: nat)
    requires Valid(world) && r < |world| && x in Row(world, r, key)
    ensures x < |AllLocations(Cpus(world))| < NO_LOCATION
  {
    RowOfElements(world, r, UserNames(world[r]), key, x);
    var name :| name in UserNames(world[r]) && x in Indices(world, r, name);
    IndexInRange(world, r, name, x);
    OffsetsAscend(Cpus(world), r);
  }

  lemma {:induction false} OffsetsAscend(cpus: seq<seq<bool>>, r: nat)
    requires Fits(cpus) && r < |cpus|
    ensures |AllLocations(cpus[..r])| + Count(cpus[r]) <= |AllLocations(cpus)|
    decreases |cpus|
  {
    if r < |cpus| - 1 {
      OffsetsAscend(cpus[..|cpus| - 1], r);
      assert cpus[..|cpus| - 1][..r] == cpus[..r];
    }
  }

  /** The indices merged so far are distinct and below the total, so a new one fits. */
  lemma MergedBound(world: World, key: string, i: nat, k: nat)
    requires Valid(world) && i < |world| && k < |Row(world, i, key)|
    ensures var merged := Dedup(Concat(Rows(world, key)[..i]) + Row(world, i, key)[..k]);
            Row(world, i, key)[k] !in merged ==> |merged| < |AllLocations(Cpus(world))|
  {
    hide Dedup, Row;
    var rows, list := Rows(world, key), Row(world, i, key);
    var merged := Dedup(Concat(rows[..i]) + list[..k]);
    if list[k] !in merged {
      var all := merged + [list[k]];
      forall x | x in all ensures x < |AllLocations(Cpus(world))| {
        if x in Concat(rows[..i]) {
          var front := rows[..i];
          InConcat<nat>(front, x);
          assert exists q :: 0 <= q < |front| && x in front[q];
          var q :| 0 <= q < |front| && x in front[q];
          RowBelow(world, q, key, x);
        } else {
          assert x in list;
          RowBelow(world, i, key, x);
        }
      }
      DedupIs(Concat(rows[..i]) + list[..k]);
      Pigeonhole(all, 0, |AllLocations(Cpus(world))|);
    }
  }

  // ------------------------------------------------------------- all ranks together

  /** What a rank contributes to the collectives. */
  datatype Local = Local(members: seq<seq<nat>>, lengths: seq<nat>, buffer: string, used: nat)

  ghost predicate IsLocal(world: World, r: nat, l: Local)
    requires Valid(world) && r < |world|
  {
    var names := UserNames(world[r]);
    |l.members| == |names| && (forall u :: 0 <= u < |names| ==> l.members[u] == Members(world, r, names[u])) &&
    |l.lengths| == |names| && (forall u :: 0 <= u < |names| ==> l.lengths[u] == |names[u]|) &&
    l.used == |Packed(names)| <= |l.buffer| && l.buffer[..l.used] == Packed(names)
  }

  /** The steps of one rank up to the first collective. */
  method LocalSteps(ghost world: World, r: nat, p: Process, locations: seq<uint64>, max: nat) returns (l: Local)
    requires Valid(world) && r < |world| && p == world[r]
    requires locations == AllLocations(Cpus(world)) && max == MaxCount(Cpus(world))
    ensures IsLocal(world, r, l)
  {
    var names, toUnique := UniqueTopologies(p);
    var members := LocalGroups(world, r, p, names, toUnique, locations, max);
    NamesNameable(world, r);
    var buffer, used, lengths := PackNames(names);
    l := Local(members, lengths, buffer, used);
  }

  lemma SentRows(world: World, r: nat, l: Local, maxNames: nat, maxBytes: nat, garbage: nat -> char)
    requires Valid(world) && r < |world| && IsLocal(world, r, l)
    requires |l.lengths| <= maxNames && |l.buffer| <= maxBytes
    ensures l.used <= |l.buffer|
    ensures RowsOfRank(world[r], LengthRow(l.lengths, maxNames), NameRow(l.buffer, l.used, maxBytes, garbage))
  {
    hide Valid, Packed, UserNames, Members;
    NamesNameable(world, r);
    var row := NameRow(l.buffer, l.used, maxBytes, garbage);
    assert forall k :: 0 <= k < l.used ==> row[k] == l.buffer[k] == l.buffer[..l.used][k];
    assert row[..l.used] == Packed(UserNames(world[r]));
  }

  /** A rank's filled buffer, as the merge of any rank finds it. */
  lemma GatheredRows(world: World, i: nat, l: Local, toGlobal: seq<int>, rows: seq<seq<nat>>, g: nat, max: nat)
    requires Valid(world) && i < |world| && IsLocal(world, i, l) && MapsNames(world[i], toGlobal, GlobalNames(world))
    requires |l.members| <= |toGlobal| && |rows| == |GlobalNames(world)| && g < |rows|
    requires RowHolds(l.members, toGlobal, g, max, rows[g])
    ensures Gathered(world, GlobalNames(world)[g], i, rows, g, max)
  {
    hide Valid, UserNames, Members, Padded, Overlaid, RowOf, Dedup, Trunc, Packed;
    var names, members := UserNames(world[i]), l.members;
    DedupIs(AllKeys(world, |world|));
    assert forall u :: 0 <= u < |names| ==> Keys(world[i])[u] == Trunc(names[u]);
    OverlaidIsRow(world, i, members, toGlobal, GlobalNames(world), g, |names|);
    assert members[..|names|] == members && names[..|names|] == names;
  }

  ghost predicate AllLocal(world: World, locals: seq<Local>)
    requires Valid(world)
  {
    |locals| == |world| && forall r :: 0 <= r < |world| ==> IsLocal(world, r, locals[r])
  }

  lemma LocalMembersFit(world: World, r: nat, l: Local, toGlobal: seq<int>, names: seq<string>)
    requires Valid(world) && r < |world| && IsLocal(world, r, l) && MapsNames(world[r], toGlobal, names)
    ensures forall u :: 0 <= u < |l.members| ==> |l.members[u]| <= MaxCount(Cpus(world))
    ensures |l.members| <= |toGlobal| && forall u :: 0 <= u < |l.members| ==> 0 <= toGlobal[u] < |names|
  {
    hide Valid, UserNames, Members, Packed;
    forall u | 0 <= u < |l.members| ensures |l.members[u]| <= MaxCount(Cpus(world)) {
      MembersBound(world, r, UserNames(world[r])[u]);
      assert Cpus(world)[r] == world[r].cpu;
    }
  }

  /** Every rank's gathered rows, addressed by the positions of the global names. */
  ghost predicate AllGathered(world: World, gathered: seq<seq<seq<nat>>>, max: nat)
    requires Valid(world)
  {
    |gathered| == |world| &&
    forall i, g :: 0 <= i < |world| && 0 <= g < |GlobalNames(world)| ==>
      Gathered(world, GlobalNames(world)[g], i, gathered[i], g, max)
  }

  /** One rank builds its map from the gathered names and fills its rows. */
  method MapAndFill(ghost world: World, r: nat, l: Local, lengths: seq<seq<nat>>, buffers: seq<string>,
                    maxNames: nat, max: nat)
    returns (toGlobal: seq<int>, rows: seq<seq<nat>>)
    requires Valid(world) && r < |world| && IsLocal(world, r, l) && max == MaxCount(Cpus(world))
    requires Received(world, lengths, buffers, maxNames)
    ensures MapsNames(world[r], toGlobal, GlobalNames(world))
    ensures forall g :: 0 <= g < |GlobalNames(world)| ==> Gathered(world, GlobalNames(world)[g], r, rows, g, max)
  {
    hide Valid, IsLocal, RowsOfRank, MapsNames, Gathered, GlobalNames, Overlaid, Padded;
    var names, maps := BuildGlobalNames(world, lengths, buffers, maxNames);
    toGlobal := maps[r];
    LocalMembersFit(world, r, l, toGlobal, names);
    rows := FillRows(l.members, toGlobal, |names|, max);
    forall g | 0 <= g < |names| ensures Gathered(world, names[g], r, rows, g, max) {
      GatheredRows(world, r, l, toGlobal, rows, g, max);
    }
  }

  /** One rank merges the gathered rows to the groups of its own topologies. */
  method MergeOwn(ghost world: World, r: nat, l: Local, gathered: seq<seq<seq<nat>>>, toGlobal: seq<int>, max: nat,
                  total: nat)
    returns (groups: seq<seq<nat>>)
    requires Valid(world) && r < |world| && IsLocal(world, r, l) && total == |AllLocations(Cpus(world))|
    requires AllGathered(world, gathered, max) && MapsNames(world[r], toGlobal, GlobalNames(world))
    ensures GroupsOfRank(world, r, groups)
  {
    hide Valid, IsLocal, MapsNames, Gathered, UserNames, GroupsOfRank, GlobalNames;
    ghost var keys := Keys(world[r]);
    MapsAll(world[r], toGlobal, GlobalNames(world));
    forall i, j | 0 <= i < |world| && 0 <= j < |keys|
      ensures Gathered(world, keys[j], i, gathered[i], toGlobal[j], max)
    {
      MapsTo(world[r], toGlobal, GlobalNames(world), j);
    }
    SameCount(world, r, l);
    groups := MergeGroups(world, keys, gathered, toGlobal, |l.lengths|, max, total);
    MergedGroups(world, r, groups);
  }

  method FillAll(ghost world: World, locals: seq<Local>, lengths: seq<seq<nat>>, buffers: seq<string>,
                 maxNames: nat, max: nat)
    returns (maps: seq<seq<int>>, gathered: seq<seq<seq<nat>>>)
    requires Valid(world) && AllLocal(world, locals) && max == MaxCount(Cpus(world))
    requires Received(world, lengths, buffers, maxNames)
    ensures |maps| == |world| && forall i :: 0 <= i < |world| ==> MapsNames(world[i], maps[i], GlobalNames(world))
    ensures AllGathered(world, gathered, max)
  {
    hide Valid, IsLocal, RowsOfRank, MapsNames, Gathered, GlobalNames;
    maps, gathered := [], [];
    for r := 0 to |locals|
      invariant |maps| == |gathered| == r
      invariant forall i :: 0 <= i < r ==> MapsNames(world[i], maps[i], GlobalNames(world))
      invariant forall i, g :: 0 <= i < r && 0 <= g < |GlobalNames(world)| ==>
        Gathered(world, GlobalNames(world)[g], i, gathered[i], g, max)
    {
      var toGlobal, rows := MapAndFill(world, r, locals[r], lengths, buffers, maxNames, max);
      maps, gathered := maps + [toGlobal], gathered + [rows];
    }
  }

  method MergeAll(ghost world: World, locals: seq<Local>, maps: seq<seq<int>>, gathered: seq<seq<seq<nat>>>,
                  max: nat, total: nat)
    returns (groups: seq<seq<seq<nat>>>)
    requires Valid(world) && AllLocal(world, locals) && AllGathered(world, gathered, max)
    requires |maps| == |world| && forall i :: 0 <= i < |world| ==> MapsNames(world[i], maps[i], GlobalNames(world))
    requires total == |AllLocations(Cpus(world))|
    ensures |groups| == |world|
    ensures forall r :: 0 <= r < |world| ==> GroupsOfRank(world, r, groups[r])
  {
    hide Valid, IsLocal, AllGathered, MapsNames, GroupsOfRank, GlobalNames;
    groups := [];
    for r := 0 to |locals|
      invariant |groups| == r && forall i :: 0 <= i < r ==> GroupsOfRank(world, i, groups[i])
    {
      var merged := MergeOwn(world, r, locals[r], gathered, maps[r], max, total);
      groups := groups + [merged];
    }
  }

  lemma MapsTo(p: Process, toGlobal: seq<int>, names: seq<string>, j: nat)
    requires MapsNames(p, toGlobal, names) && j < |Keys(p)|
    ensures j < |toGlobal| && 0 <= toGlobal[j] < |names| && names[toGlobal[j]] == Keys(p)[j]
  {}

  lemma MapsAll(p: Process, toGlobal: seq<int>, names: seq<string>)
    requires MapsNames(p, toGlobal, names)
    ensures |Keys(p)| == |UserNames(p)| <= |toGlobal|
  {}

  lemma SameCount(world: World, r: nat, l: Local)
    requires Valid(world) && r < |world| && IsLocal(world, r, l)
    ensures |l.lengths| == |Keys(world[r])|
  {}

  /** The groups a rank ends up with, one for each of its unique topologies. */
  ghost predicate GroupsOfRank(world: World, r: nat, groups: seq<seq<nat>>)
    requires Valid(world) && r < |world|
  {
    |groups| == |UserNames(world[r])| &&
    forall j :: 0 <= j < |groups| ==> groups[j] == FinalGroup(world, UserNames(world[r])[j])
  }

  lemma MergedGroups(world: World, r: nat, groups: seq<seq<nat>>)
    requires Valid(world) && r < |world| && |groups| == |Keys(world[r])|
    requires forall j :: 0 <= j < |groups| ==> groups[j] == Sorted(Dedup(Concat(Rows(world, Keys(world[r])[j]))))
    ensures GroupsOfRank(world, r, groups)
  {
    hide Valid, Dedup, Concat, Sorted, UserNames;
  }

  /** The collectives up to the gathered names and lengths. */
  method GatherNames(ghost world: World, locals: seq<Local>, garbage: seq<nat -> char>)
    returns (lengths: seq<seq<nat>>, buffers: seq<string>, maxNames: nat)
    requires Valid(world) && AllLocal(world, locals) && |garbage| == |world|
    ensures Received(world, lengths, buffers, maxNames)
  {
    hide Valid, IsLocal, RowsOfRank, LengthRow, NameRow;
    var maxBytes := MaxOf(seq(|locals|, r requires 0 <= r < |locals| => |locals[r].buffer|));
    maxNames := MaxOf(seq(|locals|, r requires 0 <= r < |locals| => |locals[r].lengths|));
    lengths, buffers := [], [];
    for r := 0 to |locals|
      invariant |lengths| == |buffers| == r
      invariant forall i :: 0 <= i < r ==> RowsOfRank(world[i], lengths[i], buffers[i]) && |lengths[i]| == maxNames
    {
      var l := locals[r];
      assert |l.buffer| == seq(|locals|, i requires 0 <= i < |locals| => |locals[i].buffer|)[r];
      assert |l.lengths| == seq(|locals|, i requires 0 <= i < |locals| => |locals[i].lengths|)[r];
      SentRows(world, r, l, maxNames, maxBytes, garbage[r]);
      lengths := lengths + [LengthRow(l.lengths, maxNames)];
      buffers := buffers + [NameRow(l.buffer, l.used, maxBytes, garbage[r])];
    }
  }

  lemma FewLocations(world: World)
    requires Valid(world)
    ensures |AllLocations(Cpus(world))| % TWO_32 == |AllLocations(Cpus(world))|
  {}

  /** The whole exchange; the garbage is what lies behind the ranks' name buffers.  Every
      rank ends up with the final group of each of its topologies, so ranks that hold a
      topology of the same name agree on its group, and no garbage byte has an influence. */
  method PreUnify(world: World, garbage: seq<nat -> char>) returns (groups: seq<seq<seq<nat>>>)
    requires Valid(world) && |garbage| == |world|
    ensures |groups| == |world|
    ensures forall r :: 0 <= r < |world| ==> GroupsOfRank(world, r, groups[r])
  {
    hide IsLocal, GroupsOfRank, Received, AllGathered, MapsNames, GlobalNames, AllLocations, MaxCount;
    FewLocations(world);
    var locations, total, max := GatherLocations(Cpus(world));
    hide Valid;
    var locals: seq<Local> := [];
    for r := 0 to |world|
      invariant |locals| == r && forall i :: 0 <= i < r ==> IsLocal(world, i, locals[i])
    {
      var l := LocalSteps(world, r, world[r], locations, max);
      locals := locals + [l];
    }
    var lengths, buffers, maxNames := GatherNames(world, locals, garbage);
    var maps, gathered := FillAll(world, locals, lengths, buffers, maxNames, max);
    groups := MergeAll(world, locals, maps, gathered, max, total);
  }

  /** Ranks that hold a topology of the same name arrive at one and the same group. */
  lemma GroupsAgree(world: World, r: nat, q: nat, i: nat, j: nat, groups: seq<seq<seq<nat>>>)
    requires Valid(world) && r < |world| && q < |world| && |groups| == |world|
    requires GroupsOfRank(world, r, groups[r]) && GroupsOfRank(world, q, groups[q])
    requires i < |groups[r]| && j < |groups[q]| && UserNames(world[r])[i] == UserNames(world[q])[j]
    ensures groups[r][i] == groups[q][j] && StrictlyIncreasing(groups[r][i])
    ensures TruncDistinct(world) ==>
      forall x :: x in groups[r][i] <==> exists p, k :: Located(world, p, UserNames(world[r])[i], x, k)
  {
    var name := UserNames(world[r])[i];
    FinalGroupElements(world, name);
    if TruncDistinct(world) {
      DistinctImpliesExact(world, r, name);
      forall x ensures InUnion(world, name, x) <==> exists p, k :: Located(world, p, name, x, k) {
        UnionIsLocated(world, name, x);
      }
    }
  }
}
