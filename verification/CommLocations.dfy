/** The global array of CPU locations and the search for a coordinate's index in it:
    scorep_unify_helpers.c, the global ids of scorep_location_management.c, and the
    descending lookup that both halves of SCOREP_Topologies.c contain.

    The locations of all ranks are given as `cpus`: entry t of `cpus[r]` says whether the
    location that rank r defined as its t-th is a CPU location. */
module CommLocations {
  import opened MachineWords
  import opened Wrappers

  // ---------------------------------------------------------------------- global ids

  /** `( ( uint64_t )thread << 32 ) | ( uint64_t )rank`; the two halves share no bit. */
  function GlobalId(rank: uint32, thread: uint32): uint64 {
    TWO_32 * (thread as int) + rank
  }

  function RankOfId(id: uint64): uint32 { id % TWO_32 }

  function ThreadOfId(id: uint64): uint32 { id / TWO_32 }

  lemma IdRoundTrip(rank: uint32, thread: uint32)
    ensures RankOfId(GlobalId(rank, thread)) == rank
    ensures ThreadOfId(GlobalId(rank, thread)) == thread
    ensures GlobalId(rank, thread) % 0x1_0000_0000 == rank && GlobalId(rank, thread) / 0x1_0000_0000 == thread
  {
    assert GlobalId(rank, thread) == TWO_32 * (thread as int) + rank;
  }

  lemma IdInjective(r: uint32, t: uint32, r': uint32, t': uint32)
    ensures GlobalId(r, t) == GlobalId(r', t') ==> r == r' && t == t'
  {
    IdRoundTrip(r, t);
    IdRoundTrip(r', t');
  }

  // --------------------------------------------------------------- the global array

  /** How many of the locations are CPU locations. */
  function Count(cpu: seq<bool>): (n: nat)
    ensures n <= |cpu|
  {
    if cpu == [] then 0
    else Count(cpu[..|cpu| - 1]) + (if cpu[|cpu| - 1] then 1 else 0)
  }

  function MaxCount(cpus: seq<seq<bool>>): (m: nat)
    ensures forall r :: 0 <= r < |cpus| ==> Count(cpus[r]) <= m
    ensures cpus != [] ==> exists r :: 0 <= r < |cpus| && Count(cpus[r]) == m
  {
    if cpus == [] then 0
    else
      var m, n := MaxCount(cpus[..|cpus| - 1]), Count(cpus[|cpus| - 1]);
      assert |cpus| > 1 ==> exists r :: 0 <= r < |cpus| - 1 && cpus[..|cpus| - 1][r] == cpus[r] && Count(cpus[r]) == m;
      if m < n then n else m
  }

  /** Ranks and local ids fit the halves of a global id. */
  ghost predicate Fits(cpus: seq<seq<bool>>) {
    |cpus| < TWO_32 && forall r :: 0 <= r < |cpus| ==> |cpus[r]| < TWO_32
  }

  function IdsOfRank(rank: uint32, cpu: seq<bool>): (ids: seq<uint64>)
    requires |cpu| < TWO_32
    ensures |ids| == Count(cpu)
  {
    if cpu == [] then []
    else IdsOfRank(rank, cpu[..|cpu| - 1]) + (if cpu[|cpu| - 1] then [GlobalId(rank, |cpu| - 1)] else [])
  }

  /** The CPU locations of all ranks, by rank and within a rank by order of creation. */
  function AllLocations(cpus: seq<seq<bool>>): seq<uint64>
    requires Fits(cpus)
  {
    if cpus == [] then []
    else AllLocations(cpus[..|cpus| - 1]) + IdsOfRank(|cpus| - 1, cpus[|cpus| - 1])
  }

  ghost predicate IsCpu(cpus: seq<seq<bool>>, rank: nat, thread: nat) {
    rank < |cpus| && thread < |cpus[rank]| && cpus[rank][thread]
  }

  /** The index of a location in the global array: a prefix sum over the ranks before it
      and the CPU locations of its own rank before it. */
  function Position(cpus: seq<seq<bool>>, rank: nat, thread: nat): nat
    requires Fits(cpus) && rank < |cpus| && thread <= |cpus[rank]|
  {
    |AllLocations(cpus[..rank])| + Count(cpus[rank][..thread])
  }

  lemma {:induction false} IdsOfRankAt(rank: uint32, cpu: seq<bool>, thread: nat)
    requires |cpu| < TWO_32 && thread < |cpu| && cpu[thread]
    ensures Count(cpu[..thread]) < Count(cpu)
    ensures IdsOfRank(rank, cpu)[Count(cpu[..thread])] == GlobalId(rank, thread)
  {
    var front := cpu[..|cpu| - 1];
    if thread < |front| {
      IdsOfRankAt(rank, front, thread);
      assert front[..thread] == cpu[..thread];
    }
  }

  lemma {:induction false} IdsOfRankOnly(rank: uint32, cpu: seq<bool>, i: nat) returns (thread: nat)
    requires |cpu| < TWO_32 && i < Count(cpu)
    ensures thread < |cpu| && cpu[thread] && Count(cpu[..thread]) == i
    ensures IdsOfRank(rank, cpu)[i] == GlobalId(rank, thread)
  {
    var front := cpu[..|cpu| - 1];
    if i < Count(front) {
      thread := IdsOfRankOnly(rank, front, i);
      assert front[..thread] == cpu[..thread];
    } else {
      thread := |cpu| - 1;
    }
  }

  lemma {:induction false} PositionHoldsId(cpus: seq<seq<bool>>, rank: nat, thread: nat)
    requires Fits(cpus) && IsCpu(cpus, rank, thread)
    ensures Position(cpus, rank, thread) < |AllLocations(cpus)|
    ensures AllLocations(cpus)[Position(cpus, rank, thread)] == GlobalId(rank, thread)
  {
    var front := cpus[..|cpus| - 1];
    if rank == |front| {
      IdsOfRankAt(rank, cpus[rank], thread);
    } else {
      PositionHoldsId(front, rank, thread);
      assert front[..rank] == cpus[..rank];
    }
  }

  lemma {:induction false} IdsHavePositions(cpus: seq<seq<bool>>, i: nat) returns (rank: nat, thread: nat)
    requires Fits(cpus) && i < |AllLocations(cpus)|
    ensures IsCpu(cpus, rank, thread) && Position(cpus, rank, thread) == i
    ensures AllLocations(cpus)[i] == GlobalId(rank, thread)
  {
    var front := cpus[..|cpus| - 1];
    if i < |AllLocations(front)| {
      rank, thread := IdsHavePositions(front, i);
      assert front[..rank] == cpus[..rank];
    } else {
      rank := |front|;
      thread := IdsOfRankOnly(rank, cpus[rank], i - |AllLocations(front)|);
    }
  }

  /** A CPU location occurs in the global array exactly once, at its position. */
  lemma PositionUnique(cpus: seq<seq<bool>>, rank: nat, thread: nat, i: nat)
    requires Fits(cpus) && IsCpu(cpus, rank, thread) && i < |AllLocations(cpus)|
    ensures AllLocations(cpus)[i] == GlobalId(rank, thread) <==> i == Position(cpus, rank, thread)
  {
    PositionHoldsId(cpus, rank, thread);
    var r, t := IdsHavePositions(cpus, i);
    IdInjective(rank, thread, r, t);
  }

  /** The count is the number of CPU locations. */
  lemma {:induction false} CountIs(cpu: seq<bool>)
    ensures Count(cpu) == |set t | 0 <= t < |cpu| && cpu[t]|
  {
    var all := set t | 0 <= t < |cpu| && cpu[t];
    if cpu == [] {
      assert all == {};
    } else {
      var last := |cpu| - 1;
      var front := set t | 0 <= t < last && cpu[..last][t];
      CountIs(cpu[..last]);
      assert all == if cpu[last] then front + {last} else front;
    }
  }

  /** The global array holds just the CPU locations, ordered by rank, and those of one rank
      in the order of their creation. */
  lemma LocationsOrdered(cpus: seq<seq<bool>>, i: nat, j: nat) returns (r: nat, t: nat, r': nat, t': nat)
    requires Fits(cpus) && i < j < |AllLocations(cpus)|
    ensures IsCpu(cpus, r, t) && AllLocations(cpus)[i] == t * 0x1_0000_0000 + r
    ensures IsCpu(cpus, r', t') && AllLocations(cpus)[j] == t' * 0x1_0000_0000 + r'
    ensures r < r' || (r == r' && t < t')
  {
    r, t := IdsHavePositions(cpus, i);
    r', t' := IdsHavePositions(cpus, j);
    if r' < r { PositionsAscend(cpus, r', t', r); }
    if r == r' && t' <= t { CountAscends(cpus[r], t', t); }
  }

  lemma PositionsAscend(cpus: seq<seq<bool>>, rank: nat, thread: nat, later: nat)
    requires Fits(cpus) && IsCpu(cpus, rank, thread) && rank < later < |cpus|
    ensures Position(cpus, rank, thread) < |AllLocations(cpus[..later])|
  {
    var front := cpus[..later];
    PositionHoldsId(front, rank, thread);
    assert front[..rank] == cpus[..rank];
  }

  lemma {:induction false} CountAscends(cpu: seq<bool>, m: nat, n: nat)
    requires m <= n <= |cpu|
    ensures Count(cpu[..m]) <= Count(cpu[..n])
  {
    if m < n {
      CountAscends(cpu, m, n - 1);
      assert cpu[..n][..n - 1] == cpu[..n - 1];
    }
  }

  // ------------------------------------------------------------ gathering the array

  /** scorep_unify_helper_get_number_of_cpu_locations, between its two definition loops:
      the counts are gathered, then summed up and maximised. */
  method SumAndMax(counts: seq<nat>) returns (total: uint32, max: nat)
    ensures total == Sum(counts) % 0x1_0000_0000
    ensures forall i :: 0 <= i < |counts| ==> counts[i] <= max
    ensures if counts == [] then max == 0 else exists i :: 0 <= i < |counts| && counts[i] == max
  {
    total, max := 0, 0;
    for i := 0 to |counts|
      invariant total == Wrap(Sum(counts[..i]))
      invariant forall j :: 0 <= j < i ==> counts[j] <= max
      invariant if i == 0 then max == 0 else exists j :: 0 <= j < i && counts[j] == max
    {
      assert counts[..i + 1][..i] == counts[..i];
      WrapAdd(Sum(counts[..i]), counts[i]);
      total := Add(total, Wrap(counts[i]));
      if max < counts[i] {
        max := counts[i];
      }
    }
    assert counts[..|counts|] == counts;
  }

  function Sum(s: seq<nat>): nat {
    if s == [] then 0 else Sum(s[..|s| - 1]) + s[|s| - 1]
  }

  /** One rank collects the global ids of its CPU locations. */
  method CollectIds(rank: uint32, cpu: seq<bool>) returns (ids: seq<uint64>)
    requires |cpu| < TWO_32
    ensures ids == IdsOfRank(rank, cpu)
  {
    ids := [];
    for t := 0 to |cpu|
      invariant ids == IdsOfRank(rank, cpu[..t])
    {
      assert cpu[..t + 1][..t] == cpu[..t];
      if cpu[t] {
        ids := ids + [GlobalId(rank, t)];
      }
    }
    assert cpu[..|cpu|] == cpu;
  }

  /** All ranks together: every rank counts and collects, the counts are exchanged with an
      allgather, the ids with a gatherv to rank 0 and a broadcast. */
  method GatherLocations(cpus: seq<seq<bool>>) returns (all: seq<uint64>, total: uint32, max: nat)
    requires Fits(cpus)
    ensures all == AllLocations(cpus) && total == |all| % 0x1_0000_0000 && max == MaxCount(cpus)
  {
    var counts: seq<nat> := [];
    all := [];
    for r := 0 to |cpus|
      invariant |counts| == r && forall i :: 0 <= i < r ==> counts[i] == Count(cpus[i])
      invariant all == AllLocations(cpus[..r]) && |all| == Sum(counts)
    {
      assert cpus[..r + 1][..r] == cpus[..r];
      var ids := CollectIds(r, cpus[r]);
      assert (counts + [|ids|])[..r] == counts;
      counts := counts + [|ids|];
      all := all + ids;
    }
    assert cpus[..|cpus|] == cpus;
    total, max := SumAndMax(counts);
  }

  // ---------------------------------------------------------------------- the search

  /** Where the search starts: `rank * max + thread` in 32-bit arithmetic, cut off at the
      last index. */
  function StartPos(rank: uint32, thread: uint32, max: nat, count: nat): (i: nat)
    requires count > 0
    ensures i < count
  {
    var s := Add(Wrap(rank * max), thread);
    if s > count - 1 then count - 1 else s
  }

  /** The search downwards; reaching index 0 without a match is the fatal error. */
  method SearchDown(locations: seq<uint64>, id: uint64, start: nat) returns (found: Option<nat>)
    requires start < |locations|
    ensures found.Some? ==> found.value <= start && locations[found.value] == id
    ensures found.Some? ==> forall j :: found.value < j <= start ==> locations[j] != id
    ensures found.None? ==> forall j :: 0 <= j <= start ==> locations[j] != id
  {
    var i := start;
    while true
      invariant 0 <= i <= start
      invariant forall j :: i < j <= start ==> locations[j] != id
      decreases i
    {
      if locations[i] == id { return Some(i); }
      if i == 0 { return None; }
      i := i - 1;
    }
  }

  lemma OneRankMore(rank: nat, max: nat)
    requires rank > 0
    ensures rank * max == (rank - 1) * max + max
  {}

  lemma {:induction false} OffsetBound(cpus: seq<seq<bool>>, rank: nat, max: nat)
    requires Fits(cpus) && rank <= |cpus|
    requires forall r :: 0 <= r < |cpus| ==> Count(cpus[r]) <= max
    ensures |AllLocations(cpus[..rank])| <= rank * max
    decreases rank
  {
    if rank > 0 {
      OffsetBound(cpus, rank - 1, max);
      assert cpus[..rank][..rank - 1] == cpus[..rank - 1];
      OneRankMore(rank, max);
    }
  }

  /** The prefix-sum argument: no location lies above `rank * max + thread`. */
  lemma PositionBelowStart(cpus: seq<seq<bool>>, rank: nat, thread: nat)
    requires Fits(cpus) && IsCpu(cpus, rank, thread)
    ensures Position(cpus, rank, thread) <= rank * MaxCount(cpus) + thread
  {
    OffsetBound(cpus, rank, MaxCount(cpus));
  }

  /** Exactly when the search from the start position downwards meets the location: when
      the 32-bit sum `rank * max + thread` has not been wrapped below the location. */
  lemma SearchRange(cpus: seq<seq<bool>>, rank: nat, thread: nat)
    requires Fits(cpus) && IsCpu(cpus, rank, thread)
    ensures |AllLocations(cpus)| > 0
    ensures var start := StartPos(rank, thread, MaxCount(cpus), |AllLocations(cpus)|);
            (exists i :: 0 <= i <= start && AllLocations(cpus)[i] == GlobalId(rank, thread)) <==>
            Position(cpus, rank, thread) <= Add(Wrap(rank * MaxCount(cpus)), thread)
  {
    PositionHoldsId(cpus, rank, thread);
    forall i | 0 <= i < |AllLocations(cpus)|
      ensures AllLocations(cpus)[i] == GlobalId(rank, thread) <==> i == Position(cpus, rank, thread)
    {
      PositionUnique(cpus, rank, thread, i);
    }
  }

  /** Without wrap-around the fatal case is never reached, whatever the counts per rank and
      wherever non-CPU locations were created in between. */
  lemma SearchSucceeds(cpus: seq<seq<bool>>, rank: nat, thread: nat)
    requires Fits(cpus) && IsCpu(cpus, rank, thread)
    requires rank * MaxCount(cpus) + thread < TWO_32
    ensures |AllLocations(cpus)| > 0
    ensures Position(cpus, rank, thread) <= StartPos(rank, thread, MaxCount(cpus), |AllLocations(cpus)|)
    ensures StartPos(rank, thread, MaxCount(cpus), |AllLocations(cpus)|) < |AllLocations(cpus)|
  {
    PositionHoldsId(cpus, rank, thread);
    PositionBelowStart(cpus, rank, thread);
  }

  /** With wrap-around it can be reached: behind one rank of 4096 threads and 2^20 - 1 ranks
      of one thread, the start for rank 2^20 is 0. */
  lemma SearchCanFail()
    ensures exists cpus: seq<seq<bool>>, rank: nat, thread: nat ::
      Fits(cpus) && IsCpu(cpus, rank, thread) && |cpus| == 0x10_0001 && MaxCount(cpus) == 4096 &&
      Position(cpus, rank, thread) > Add(Wrap(rank * MaxCount(cpus)), thread)
  {
    hide AllLocations, MaxCount, Count;
    var one, many := [true], seq(4096, _ => true);
    var cpus := [many] + seq(0x10_0000, _ => one);
    CountAllTrue(one);
    CountAllTrue(many);
    assert forall r :: 0 <= r < |cpus| ==> cpus[r] == if r == 0 then many else one;
    assert Count(cpus[0]) == 4096;
    assert MaxCount(cpus) == 4096;
    CountBelow(cpus[..0x10_0000], 0);
    assert Wrap(0x10_0000 * 4096) == 0;
    assert IsCpu(cpus, 0x10_0000, 0);
    assert Position(cpus, 0x10_0000, 0) > 0 == Add(Wrap(0x10_0000 * MaxCount(cpus)), 0);
  }

  lemma {:induction false} CountBelow(cpus: seq<seq<bool>>, r: nat)
    requires Fits(cpus) && r < |cpus|
    ensures Count(cpus[r]) <= |AllLocations(cpus)|
    decreases |cpus|
  {
    if r < |cpus| - 1 {
      CountBelow(cpus[..|cpus| - 1], r);
    }
  }

  lemma {:induction false} CountAllTrue(cpu: seq<bool>)
    requires forall t :: 0 <= t < |cpu| ==> cpu[t]
    ensures Count(cpu) == |cpu|
  {
    if cpu != [] {
      CountAllTrue(cpu[..|cpu| - 1]);
    }
  }

  /** With equally many, CPU-only locations on all ranks the first probe hits. */
  lemma {:induction false} SearchHitsAtOnce(cpus: seq<seq<bool>>, rank: nat, thread: nat)
    requires Fits(cpus) && IsCpu(cpus, rank, thread)
    requires forall r :: 0 <= r < |cpus| ==> |cpus[r]| == MaxCount(cpus) == Count(cpus[r])
    requires rank * MaxCount(cpus) + thread < TWO_32
    ensures |AllLocations(cpus)| > 0
    ensures StartPos(rank, thread, MaxCount(cpus), |AllLocations(cpus)|) == Position(cpus, rank, thread)
  {
    FullOffset(cpus, rank, MaxCount(cpus));
    FullCount(cpus[rank], thread);
    SearchSucceeds(cpus, rank, thread);
    PositionHoldsId(cpus, rank, thread);
  }

  lemma {:induction false} FullOffset(cpus: seq<seq<bool>>, rank: nat, max: nat)
    requires Fits(cpus) && rank <= |cpus|
    requires forall r :: 0 <= r < |cpus| ==> Count(cpus[r]) == max
    ensures |AllLocations(cpus[..rank])| == rank * max
    decreases rank
  {
    if rank > 0 {
      FullOffset(cpus, rank - 1, max);
      assert cpus[..rank][..rank - 1] == cpus[..rank - 1];
      OneRankMore(rank, max);
    }
  }

  lemma {:induction false} FullCount(cpu: seq<bool>, n: nat)
    requires n <= |cpu| && Count(cpu) == |cpu|
    ensures Count(cpu[..n]) == n
    decreases |cpu|
  {
    if n < |cpu| {
      FullCount(cpu[..|cpu| - 1], n);
      assert cpu[..|cpu| - 1][..n] == cpu[..n];
    } else {
      assert cpu[..n] == cpu;
    }
  }
}
