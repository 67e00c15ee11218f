/** Sequences without repetitions, and the order qsort gives them. */
module Sequences {
  ghost predicate NoRepeats<T>(s: seq<T>) {
    forall i, j :: 0 <= i < j < |s| ==> s[i] != s[j]
  }

  ghost predicate StrictlyIncreasing(s: seq<nat>) {
    forall i, j :: 0 <= i < j < |s| ==> s[i] < s[j]
  }

  /** s without the elements that already occur to their left. */
  function Dedup<T(==, !new)>(s: seq<T>): (d: seq<T>)
    ensures NoRepeats(d)
    ensures forall x :: x in d <==> x in s
  {
    if s == [] then []
    else
      var d, x := Dedup(s[..|s| - 1]), s[|s| - 1];
      assert s == s[..|s| - 1] + [x];
      if x in d then d else d + [x]
  }

  lemma DedupAppend<T(!new)>(s: seq<T>, x: T)
    ensures Dedup(s + [x]) == if x in Dedup(s) then Dedup(s) else Dedup(s) + [x]
  {
    assert (s + [x])[..|s|] == s;
  }

  lemma DedupNothing<T(!new)>()
    ensures Dedup<T>([]) == []
  {}

  lemma DedupOne<T(!new)>(x: T)
    ensures Dedup([x]) == [x]
  {
    assert [x][..0] == [];
  }

  lemma DedupIs<T(!new)>(s: seq<T>)
    ensures NoRepeats(Dedup(s)) && forall x :: x in Dedup(s) <==> x in s
  {}

  function IndexOf<T(==)>(s: seq<T>, x: T): (i: nat)
    requires x in s
    ensures i < |s| && s[i] == x && x !in s[..i]
  {
    if s[0] == x then 0 else
      assert s == [s[0]] + s[1..];
      1 + IndexOf(s[1..], x)
  }

  function Concat<T>(ss: seq<seq<T>>): seq<T> {
    if ss == [] then [] else Concat(ss[..|ss| - 1]) + ss[|ss| - 1]
  }

  lemma {:induction false} InConcat<T>(ss: seq<seq<T>>, x: T)
    ensures x in Concat(ss) <==> exists i :: 0 <= i < |ss| && x in ss[i]
  {
    if ss != [] {
      var front, last := ss[..|ss| - 1], ss[|ss| - 1];
      InConcat(front, x);
      assert ss == front + [last];
      if x in Concat(front) {
        var i :| 0 <= i < |front| && x in front[i];
        assert x in ss[i];
      }
      if x in last { assert x in ss[|ss| - 1]; }
    }
  }

  /** Distinct numbers between lo and hi are at most hi - lo many. */
  lemma {:induction false} Pigeonhole(s: seq<nat>, lo: nat, hi: nat)
    requires lo <= hi && NoRepeats(s)
    requires forall x :: x in s ==> lo <= x < hi
    ensures |s| <= hi - lo
    decreases hi
  {
    assert s != [] ==> s[0] in s;
    if lo == hi {
    } else if hi - 1 in s {
      var k := IndexOf(s, hi - 1);
      Without(s, k);
      Pigeonhole(s[..k] + s[k + 1..], lo, hi - 1);
    } else {
      Pigeonhole(s, lo, hi - 1);
    }
  }

  lemma Without(s: seq<nat>, k: nat)
    requires NoRepeats(s) && k < |s|
    ensures var t := s[..k] + s[k + 1..];
            NoRepeats(t) && forall x :: x in t ==> x in s && x != s[k]
  {
    var t := s[..k] + s[k + 1..];
    forall i | 0 <= i < |t| ensures t[i] == s[if i < k then i else i + 1] {}
  }

  // ------------------------------------------------------------------------ sorting

  function Insert(x: nat, s: seq<nat>): seq<nat> {
    if s == [] || x <= s[0] then [x] + s else [s[0]] + Insert(x, s[1..])
  }

  /** The ascending order of the elements: what qsort with compare_uint64 leaves behind. */
  function Sorted(s: seq<nat>): seq<nat> {
    if s == [] then [] else Insert(s[0], Sorted(s[1..]))
  }

  ghost predicate Ascending(s: seq<nat>) {
    forall i, j :: 0 <= i < j < |s| ==> s[i] <= s[j]
  }

  lemma {:induction false} InsertKeeps(x: nat, s: seq<nat>)
    requires Ascending(s)
    ensures multiset(Insert(x, s)) == multiset(s) + multiset{x}
    ensures Ascending(Insert(x, s))
  {
    if s == [] || x <= s[0] {
    } else {
      InsertKeeps(x, s[1..]);
      assert s == [s[0]] + s[1..];
      var t := Insert(x, s[1..]);
      NoneBelow(s[0], x, s[1..], t);
      AscendingCons(s[0], t);
    }
  }

  lemma NoneBelow(low: nat, x: nat, s: seq<nat>, t: seq<nat>)
    requires multiset(t) == multiset(s) + multiset{x} && low <= x
    requires forall j :: 0 <= j < |s| ==> low <= s[j]
    ensures forall j :: 0 <= j < |t| ==> low <= t[j]
  {
    forall j | 0 <= j < |t| ensures low <= t[j] {
      assert t[j] in multiset(t);
      assert t[j] == x || t[j] in s;
    }
  }

  lemma AscendingCons(x: nat, t: seq<nat>)
    requires Ascending(t) && forall j :: 0 <= j < |t| ==> x <= t[j]
    ensures Ascending([x] + t)
  {}

  lemma {:induction false} SortedKeeps(s: seq<nat>)
    ensures multiset(Sorted(s)) == multiset(s)
    ensures Ascending(Sorted(s))
  {
    if s != [] {
      SortedKeeps(s[1..]);
      assert s == [s[0]] + s[1..];
      InsertKeeps(s[0], Sorted(s[1..]));
    }
  }

  lemma SortedDistinct(s: seq<nat>)
    requires NoRepeats(s)
    ensures StrictlyIncreasing(Sorted(s))
    ensures |Sorted(s)| == |s|
    ensures forall x :: x in Sorted(s) <==> x in s
  {
    var t := Sorted(s);
    SortedKeeps(s);
    assert |multiset(t)| == |multiset(s)|;
    forall x ensures x in t <==> x in s {
      assert x in multiset(t) <==> x in multiset(s);
    }
    forall i, j | 0 <= i < j < |t| ensures t[i] < t[j] {
      if t[i] == t[j] {
        CountTwice(t, i, j);
        CountOnce(s, t[i]);
      }
    }
  }

  lemma CountTwice(t: seq<nat>, i: nat, j: nat)
    requires i < j < |t| && t[i] == t[j]
    ensures multiset(t)[t[i]] >= 2
  {
    assert t == t[..i] + [t[i]] + t[i + 1..j] + [t[j]] + t[j + 1..];
  }

  lemma CountOnce(s: seq<nat>, x: nat)
    requires NoRepeats(s)
    ensures multiset(s)[x] <= 1
  {
    if multiset(s)[x] >= 1 {
      var k := IndexOf(s, x);
      assert s == s[..k] + [x] + s[k + 1..];
      assert x !in s[..k] && x !in s[k + 1..];
    }
  }

  /** A strictly increasing sequence is determined by its elements. */
  lemma {:induction false} IncreasingUnique(s: seq<nat>, t: seq<nat>)
    requires StrictlyIncreasing(s) && StrictlyIncreasing(t)
    requires forall x :: x in s <==> x in t
    ensures s == t
  {
    assert (s != [] ==> s[0] in s) && (t != [] ==> t[0] in t);
    if s != [] && t != [] {
      assert s[0] in t && t[0] in s;
      assert s[0] == t[0];
      assert s == [s[0]] + s[1..] && t == [t[0]] + t[1..];
      forall x ensures x in s[1..] <==> x in t[1..] {
        assert x in s[1..] <==> x in s && x != s[0];
        assert x in t[1..] <==> x in t && x != t[0];
      }
      IncreasingUnique(s[1..], t[1..]);
    }
  }
}
