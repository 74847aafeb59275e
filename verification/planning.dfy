/** The pure planning steps of the two reserve edits: which animal arrays
    are eligible (`add_animals_to_reserve`, `remove_animals_from_reserve`),
    the order they are visited in, how new records are dealt out to them,
    and the greedy plan of how many records to take out of each. Arrays are
    named by their position in the list of animal arrays, which is also
    their position in the list of all arrays. */
module Planning {
  import opened Bytes
  import opened AdfProfile

  // ---------------------------------------------------------------------
  // Eligibility.

  /** The test of each list comprehension: the add path takes every animal
      array of the species, the removal path only those that hold at least
      one animal of the requested gender. */
  datatype Criterion = ForAdd(population: int) | ForRemoval(population: int, gender: string)
  {
    predicate Admits(a: AdfArray)
    {
      match this
      case ForAdd(p) => a.population == p
      case ForRemoval(p, g) =>
        a.population == p && ((a.maleCnt > 0 && g == "male") || (a.femaleCnt > 0 && g == "female"))
    }
  }

  predicate InRange(s: seq<nat>, n: int)
  {
    forall k :: 0 <= k < |s| ==> s[k] < n
  }

  predicate Distinct(s: seq<nat>)
  {
    forall k, l :: 0 <= k < l < |s| ==> s[k] != s[l]
  }

  /** The positions among the first `n` arrays that `c` admits, in list
      order: exactly the admitted ones, each once, ascending. */
  function Filter(arrays: seq<AdfArray>, c: Criterion, n: nat): (r: seq<nat>)
    requires n <= |arrays|
    ensures InRange(r, n)
    ensures forall k :: 0 <= k < |r| ==> c.Admits(arrays[r[k]])
    ensures forall j :: 0 <= j < n && c.Admits(arrays[j]) ==> j in r
    ensures forall k, l :: 0 <= k < l < |r| ==> r[k] < r[l]
  {
    if n == 0 then []
    else
      var r := Filter(arrays, c, n - 1);
      if c.Admits(arrays[n - 1]) then r + [n - 1] else r
  }

  // ---------------------------------------------------------------------
  // Visiting order.

  /** The order of `sorted(..., key=array_start_offset, reverse=True)` on a
      list in ascending position order. Python's sort is stable also when
      reversed, so arrays with equal starts keep their list order: `a` goes
      before `b` when it starts later, or starts at the same offset and
      comes first in the list. */
  predicate Precedes(arrays: seq<AdfArray>, a: nat, b: nat)
    requires a < |arrays| && b < |arrays|
  {
    arrays[a].arrayStartOffset > arrays[b].arrayStartOffset ||
    (arrays[a].arrayStartOffset == arrays[b].arrayStartOffset && a < b)
  }

  predicate SortedByStart(arrays: seq<AdfArray>, s: seq<nat>)
    requires InRange(s, |arrays|)
  {
    forall k, l :: 0 <= k < l < |s| ==> Precedes(arrays, s[k], s[l])
  }

  /** Put `x` in front of the first element it precedes. */
  function InsertByStart(arrays: seq<AdfArray>, x: nat, s: seq<nat>): (r: seq<nat>)
    requires x < |arrays| && InRange(s, |arrays|)
    ensures multiset(r) == multiset(s) + multiset{x}
    ensures forall y :: y in r <==> y == x || y in s
    ensures InRange(r, |arrays|)
  {
    if s == [] || Precedes(arrays, x, s[0]) then [x] + s
    else
      assert s == [s[0]] + s[1..];
      [s[0]] + InsertByStart(arrays, x, s[1..])
  }

  /** The eligible arrays, latest start first. */
  function SortByStartDescending(arrays: seq<AdfArray>, s: seq<nat>): (r: seq<nat>)
    requires InRange(s, |arrays|)
    ensures multiset(r) == multiset(s)
    ensures InRange(r, |arrays|)
  {
    if s == [] then []
    else
      assert s == [s[0]] + s[1..];
      InsertByStart(arrays, s[0], SortByStartDescending(arrays, s[1..]))
  }

  /** Inserting a new position into a sorted list keeps it sorted. */
  lemma {:induction false} InsertByStartSorted(arrays: seq<AdfArray>, x: nat, s: seq<nat>)
    requires x < |arrays| && InRange(s, |arrays|) && SortedByStart(arrays, s) && x !in s
    ensures SortedByStart(arrays, InsertByStart(arrays, x, s))
    decreases |s|
  {
    if s != [] && !Precedes(arrays, x, s[0]) {
      var rest := InsertByStart(arrays, x, s[1..]);
      SortedTail(arrays, s);
      InsertByStartSorted(arrays, x, s[1..]);
      forall l | 0 <= l < |rest|
        ensures Precedes(arrays, s[0], rest[l])
      {
        assert rest[l] in rest;
        if rest[l] != x {
          var m :| 0 <= m < |s[1..]| && s[1..][m] == rest[l];
          assert s[m + 1] == rest[l];
        }
      }
    }
  }

  /** The visiting order is the eligible positions, each once, every one
      before the ones it precedes. */
  lemma {:induction false} SortByStartDescendingSorted(arrays: seq<AdfArray>, s: seq<nat>)
    requires InRange(s, |arrays|) && Distinct(s)
    ensures SortedByStart(arrays, SortByStartDescending(arrays, s))
    ensures Distinct(SortByStartDescending(arrays, s))
    decreases |s|
  {
    var r := SortByStartDescending(arrays, s);
    if s != [] {
      var rest := SortByStartDescending(arrays, s[1..]);
      SortByStartDescendingSorted(arrays, s[1..]);
      assert s[0] !in s[1..];
      assert s[0] !in multiset(rest);
      InsertByStartSorted(arrays, s[0], rest);
    }
    forall k, l | 0 <= k < l < |r|
      ensures r[k] != r[l]
    {
      assert Precedes(arrays, r[k], r[l]);
    }
  }

  /** Any two lists sorted by `Precedes` that hold the same positions are
      equal, so every stable descending sort of the eligible list gives
      this one. */
  lemma {:induction false} SortedByStartUnique(arrays: seq<AdfArray>, a: seq<nat>, b: seq<nat>)
    requires InRange(a, |arrays|) && InRange(b, |arrays|)
    requires SortedByStart(arrays, a) && SortedByStart(arrays, b) && multiset(a) == multiset(b)
    ensures a == b
    decreases |a|
  {
    if a != [] {
      SortedHeadsAgree(arrays, a, b);
      SortedTail(arrays, a);
      SortedTail(arrays, b);
      SortedByStartUnique(arrays, a[1..], b[1..]);
      assert a == [a[0]] + a[1..] && b == [b[0]] + b[1..];
    }
  }

  /** What follows the head of a sorted list is sorted and holds the other
      positions. */
  lemma {:induction false} SortedTail(arrays: seq<AdfArray>, a: seq<nat>)
    requires InRange(a, |arrays|) && SortedByStart(arrays, a) && a != []
    ensures InRange(a[1..], |arrays|) && SortedByStart(arrays, a[1..])
    ensures multiset(a[1..]) == multiset(a) - multiset{a[0]}
  {
    assert a == [a[0]] + a[1..];
  }

  /** Two sorted lists of the same positions start with the same one. */
  lemma {:induction false} SortedHeadsAgree(arrays: seq<AdfArray>, a: seq<nat>, b: seq<nat>)
    requires InRange(a, |arrays|) && InRange(b, |arrays|)
    requires SortedByStart(arrays, a) && SortedByStart(arrays, b) && multiset(a) == multiset(b)
    requires a != []
    ensures b != [] && a[0] == b[0]
  {
    assert a[0] in multiset(b);
    var i :| 0 <= i < |b| && b[i] == a[0];
    assert b[0] in multiset(a);
    var j :| 0 <= j < |a| && a[j] == b[0];
  }

  // ---------------------------------------------------------------------
  // Dealing out the new records.

  /** The records per chunk: one each when there are fewer records than
      eligible arrays, otherwise `math.ceil(records / arrays)`, the least
      count that gives every record a place. */
  function ChunkSize(animalCount: nat, eligibleCount: nat): (n: nat)
    requires eligibleCount > 0
    ensures n >= 1
    ensures animalCount < eligibleCount ==> n == 1
    ensures n * eligibleCount >= animalCount
    ensures animalCount >= eligibleCount ==> (n - 1) * eligibleCount < animalCount
  {
    if animalCount < eligibleCount then 1 else (animalCount + eligibleCount - 1) / eligibleCount
  }

  /** `[animals[i:i + n] for i in range(0, len(animals), n)]`: slices of
      `n` records taken at every `n`th position, the last one possibly
      shorter. Their number is the ceiling of `len(animals) / n`: enough to
      hold every record, and one fewer would not be. */
  function Chunks(animals: seq<AnimalRecord>, n: nat): (r: seq<seq<AnimalRecord>>)
    requires n >= 1
    ensures |r| * n >= |animals|
    ensures |animals| > 0 ==> (|r| - 1) * n < |animals|
    decreases |animals|
  {
    if animals == [] then []
    else
      var rest := Chunks(Drop(animals, n), n);
      assert (|rest| + 1) * n == |rest| * n + n;
      [Take(animals, n)] + rest
  }

  function Flatten<T>(ss: seq<seq<T>>): (r: seq<T>)
  {
    if ss == [] then [] else ss[0] + Flatten(ss[1..])
  }

  /** The chunks, in order, are the records: every record goes into exactly
      one chunk, none is lost or repeated, no chunk is empty or holds more
      than `n`, and every chunk but the last holds exactly `n`. */
  lemma {:induction false} ChunksPartition(animals: seq<AnimalRecord>, n: nat)
    requires n >= 1
    ensures Flatten(Chunks(animals, n)) == animals
    ensures forall i :: 0 <= i < |Chunks(animals, n)| ==> 1 <= |Chunks(animals, n)[i]| <= n
    ensures forall i :: 0 <= i < |Chunks(animals, n)| - 1 ==> |Chunks(animals, n)[i]| == n
    decreases |animals|
  {
    if animals != [] {
      var tail := Drop(animals, n);
      ChunksPartition(tail, n);
      var r := Chunks(animals, n);
      assert r[1..] == Chunks(tail, n);
      assert Take(animals, n) + tail == animals;
      if |r| > 1 {
        assert tail != [];
      }
    }
  }

  /** There are never more chunks than eligible arrays, so every chunk has
      an array to go to. */
  lemma {:induction false} ChunkCountFits(animals: seq<AnimalRecord>, eligibleCount: nat)
    requires eligibleCount > 0
    ensures |Chunks(animals, ChunkSize(|animals|, eligibleCount))| <= eligibleCount
  {
    var n := ChunkSize(|animals|, eligibleCount);
    var c := |Chunks(animals, n)|;
    if animals != [] && c > eligibleCount {
      MulMonotone(eligibleCount, c - 1, n);
    }
  }

  /** The chunks the add path deals out over `eligibleCount` arrays: all
      the records, in order, in at most one non-empty chunk per array, each
      chunk but the last holding exactly the chunk size. */
  function Deal(animals: seq<AnimalRecord>, eligibleCount: nat): (r: seq<seq<AnimalRecord>>)
    requires eligibleCount > 0
    ensures Flatten(r) == animals && |r| <= eligibleCount
    ensures forall i :: 0 <= i < |r| ==> 1 <= |r[i]| <= ChunkSize(|animals|, eligibleCount)
    ensures forall i :: 0 <= i < |r| - 1 ==> |r[i]| == ChunkSize(|animals|, eligibleCount)
  {
    ChunksPartition(animals, ChunkSize(|animals|, eligibleCount));
    ChunkCountFits(animals, eligibleCount);
    Chunks(animals, ChunkSize(|animals|, eligibleCount))
  }

  /** Multiplying by a count keeps order. */
  lemma {:induction false} MulMonotone(a: int, b: int, n: nat)
    requires a <= b
    ensures a * n <= b * n
  {
    assert b * n - a * n == (b - a) * n;
  }

  // ---------------------------------------------------------------------
  // The removal plan.

  /** One entry of `arrays_to_remove_from`: take `count` records from
      array `target`. */
  datatype Planned = Planned(count: int, target: nat)

  /** The entries planned so far and the records still to place. */
  datatype Plan = Plan(entries: seq<Planned>, left: int)

  /** One iteration of the planning loop on array `j`: stop once nothing is
      left; skip an array of at most one record; otherwise take all but one
      record of the gender, no more than are left, if that is at least one.
      The step adds at most one entry, for array `j`, and moves exactly what
      that entry takes from `left` into the plan: with something left, the
      lesser of what is left and what the array can spare. */
  function PlanStep(p: Plan, arrays: seq<AdfArray>, j: nat, gender: string): (r: Plan)
    requires j < |arrays|
    ensures r == p || r.entries == p.entries + [Planned(p.left - r.left, j)]
    ensures p.left <= 0 ==> r == p
    ensures p.left >= 0 ==> r.left == p.left - (if Spare(arrays[j], gender) < p.left then Spare(arrays[j], gender) else p.left)
  {
    if p.left == 0 then p
    else if arrays[j].length > 1 then
      var c := arrays[j].CategoryCount(gender) - 1;
      var c' := if c > p.left then p.left else c;
      if c' > 0 then
        assert (p.entries + [Planned(c', j)])[..|p.entries|] == p.entries;
        Plan(p.entries + [Planned(c', j)], p.left - c')
      else p
    else p
  }

  /** The plan after visiting the first `i` eligible arrays: at most one
      entry per array visited, and for a nonnegative request never more
      left than was asked for, and never less than nothing. */
  function PlanPrefix(arrays: seq<AdfArray>, eligible: seq<nat>, gender: string, animalCnt: int, i: nat): (r: Plan)
    requires InRange(eligible, |arrays|) && i <= |eligible|
    ensures |r.entries| <= i
    ensures animalCnt >= 0 ==> 0 <= r.left <= animalCnt
  {
    if i == 0 then Plan([], animalCnt)
    else PlanStep(PlanPrefix(arrays, eligible, gender, animalCnt, i - 1), arrays, eligible[i - 1], gender)
  }

  /** What an array can give up under the plan: all but one record of the
      gender, and nothing if it holds at most one record in all. An array
      that can spare anything holds more than one record and keeps at least
      one of the gender. */
  function Spare(a: AdfArray, gender: string): (r: nat)
    ensures r > 0 ==> a.length > 1 && r < a.CategoryCount(gender)
  {
    if a.length > 1 && a.CategoryCount(gender) > 1 then a.CategoryCount(gender) - 1 else 0
  }

  /** The records the first `i` eligible arrays can give up together:
      nothing exactly when none of them can spare a record. */
  function TotalSpare(arrays: seq<AdfArray>, eligible: seq<nat>, gender: string, i: nat): (r: nat)
    requires InRange(eligible, |arrays|) && i <= |eligible|
    ensures r == 0 <==> forall k :: 0 <= k < i ==> Spare(arrays[eligible[k]], gender) == 0
  {
    if i == 0 then 0 else TotalSpare(arrays, eligible, gender, i - 1) + Spare(arrays[eligible[i - 1]], gender)
  }

  /** The number of records a list of entries takes out. */
  function PlannedTotal(entries: seq<Planned>): int
  {
    if entries == [] then 0 else PlannedTotal(entries[..|entries| - 1]) + entries[|entries| - 1].count
  }

  /** The plan accounts for every record asked for: the planned counts and
      what is left add up to `animalCnt`. */
  lemma {:induction false} PlanAccounts(arrays: seq<AdfArray>, eligible: seq<nat>, gender: string, animalCnt: int, i: nat)
    requires InRange(eligible, |arrays|) && i <= |eligible|
    ensures var p := PlanPrefix(arrays, eligible, gender, animalCnt, i);
      PlannedTotal(p.entries) + p.left == animalCnt
  {
    if i > 0 {
      PlanAccounts(arrays, eligible, gender, animalCnt, i - 1);
      var p := PlanPrefix(arrays, eligible, gender, animalCnt, i - 1);
      var q := PlanPrefix(arrays, eligible, gender, animalCnt, i);
      if q != p {
        assert q.entries[..|q.entries| - 1] == p.entries;
      }
    }
  }

  /** Every entry names one of `visited` that holds more than one record,
      and takes at least one record of the gender and never the last one. */
  predicate EntriesBounded(entries: seq<Planned>, arrays: seq<AdfArray>, visited: seq<nat>, gender: string)
  {
    forall e :: e in entries ==>
      e.target in visited && e.target < |arrays| && arrays[e.target].length > 1 &&
      1 <= e.count <= arrays[e.target].CategoryCount(gender) - 1
  }

  predicate TargetsDistinct(entries: seq<Planned>)
  {
    forall k, l :: 0 <= k < l < |entries| ==> entries[k].target != entries[l].target
  }

  /** Every planned entry names an eligible array already visited that holds
      more than one record, and takes at least one record of the gender and
      never the last one. */
  lemma {:induction false} PlanEntriesBounded(arrays: seq<AdfArray>, eligible: seq<nat>, gender: string, animalCnt: int, i: nat)
    requires InRange(eligible, |arrays|) && i <= |eligible|
    ensures EntriesBounded(PlanPrefix(arrays, eligible, gender, animalCnt, i).entries, arrays, eligible[..i], gender)
  {
    if i > 0 {
      PlanEntriesBounded(arrays, eligible, gender, animalCnt, i - 1);
      var p := PlanPrefix(arrays, eligible, gender, animalCnt, i - 1);
      var q := PlanPrefix(arrays, eligible, gender, animalCnt, i);
      assert eligible[..i] == eligible[..i - 1] + [eligible[i - 1]];
      if q != p {
        assert q.entries == p.entries + [Planned(q.entries[|p.entries|].count, eligible[i - 1])];
      }
    }
  }

  /** Entries name arrays in the order the planning loop visits them. */
  predicate EntriesInOrder(arrays: seq<AdfArray>, entries: seq<Planned>)
  {
    forall k, l :: 0 <= k < l < |entries| ==>
      entries[k].target < |arrays| && entries[l].target < |arrays| &&
      Precedes(arrays, entries[k].target, entries[l].target)
  }

  /** The plan takes the arrays in the order they are visited: an entry
      planned earlier names an array that starts later, or at the same
      offset earlier in the list. */
  lemma {:induction false} PlanFollowsOrder(arrays: seq<AdfArray>, eligible: seq<nat>, gender: string, animalCnt: int, i: nat)
    requires InRange(eligible, |arrays|) && i <= |eligible| && SortedByStart(arrays, eligible)
    ensures EntriesInOrder(arrays, PlanPrefix(arrays, eligible, gender, animalCnt, i).entries)
  {
    if i > 0 {
      PlanFollowsOrder(arrays, eligible, gender, animalCnt, i - 1);
      PlanEntriesBounded(arrays, eligible, gender, animalCnt, i - 1);
      var p := PlanPrefix(arrays, eligible, gender, animalCnt, i - 1);
      var q := PlanPrefix(arrays, eligible, gender, animalCnt, i);
      if q != p {
        assert q.entries == p.entries + [Planned(q.entries[|p.entries|].count, eligible[i - 1])];
        forall k | 0 <= k < |p.entries|
          ensures Precedes(arrays, p.entries[k].target, eligible[i - 1])
        {
          assert p.entries[k] in p.entries;
          var j :| 0 <= j < i - 1 && eligible[..i - 1][j] == p.entries[k].target;
          assert eligible[j] == p.entries[k].target;
        }
      }
    }
  }

  /** Planned arrays are distinct when the eligible ones are, so no array is
      planned twice. */
  lemma {:induction false} PlanTargetsDistinct(arrays: seq<AdfArray>, eligible: seq<nat>, gender: string, animalCnt: int, i: nat)
    requires InRange(eligible, |arrays|) && i <= |eligible| && Distinct(eligible)
    ensures TargetsDistinct(PlanPrefix(arrays, eligible, gender, animalCnt, i).entries)
  {
    if i > 0 {
      PlanTargetsDistinct(arrays, eligible, gender, animalCnt, i - 1);
      PlanEntriesBounded(arrays, eligible, gender, animalCnt, i - 1);
      var p := PlanPrefix(arrays, eligible, gender, animalCnt, i - 1);
      var q := PlanPrefix(arrays, eligible, gender, animalCnt, i);
      assert eligible[i - 1] !in eligible[..i - 1];
      if q != p {
        assert q.entries == p.entries + [Planned(q.entries[|p.entries|].count, eligible[i - 1])];
        forall k | 0 <= k < |p.entries|
          ensures q.entries[k].target != eligible[i - 1]
        {
          assert p.entries[k] in p.entries;
        }
      }
    }
  }

  /** The greedy plan is as good as any: with a nonnegative request, what is
      left is exactly the shortfall of the spare records, so the plan falls
      short, and the removal raises, precisely when the eligible arrays
      cannot spare `animalCnt` records between them. */
  lemma {:induction false} PlanLeftover(arrays: seq<AdfArray>, eligible: seq<nat>, gender: string, animalCnt: int, i: nat)
    requires InRange(eligible, |arrays|) && i <= |eligible| && animalCnt >= 0
    ensures var p := PlanPrefix(arrays, eligible, gender, animalCnt, i);
      p.left == if animalCnt > TotalSpare(arrays, eligible, gender, i) then animalCnt - TotalSpare(arrays, eligible, gender, i) else 0
    ensures PlanPrefix(arrays, eligible, gender, animalCnt, i).left > 0 <==> TotalSpare(arrays, eligible, gender, i) < animalCnt
  {
    if i > 0 {
      PlanLeftover(arrays, eligible, gender, animalCnt, i - 1);
    }
  }

  /** Once nothing is left the loop breaks: later arrays do not change the
      plan. */
  lemma {:induction false} PlanSettled(arrays: seq<AdfArray>, eligible: seq<nat>, gender: string, animalCnt: int, i: nat, j: nat)
    requires InRange(eligible, |arrays|) && i <= j <= |eligible|
    requires PlanPrefix(arrays, eligible, gender, animalCnt, i).left == 0
    ensures PlanPrefix(arrays, eligible, gender, animalCnt, j) == PlanPrefix(arrays, eligible, gender, animalCnt, i)
    decreases j
  {
    if j > i {
      PlanSettled(arrays, eligible, gender, animalCnt, i, j - 1);
    }
  }

  /** A request of no records or fewer plans nothing: a negative `left`
      caps every array's share below one. */
  lemma {:induction false} PlanNonPositive(arrays: seq<AdfArray>, eligible: seq<nat>, gender: string, animalCnt: int, i: nat)
    requires InRange(eligible, |arrays|) && i <= |eligible| && animalCnt <= 0
    ensures PlanPrefix(arrays, eligible, gender, animalCnt, i) == Plan([], animalCnt)
  {
    if i > 0 {
      PlanNonPositive(arrays, eligible, gender, animalCnt, i - 1);
    }
  }

  /** The planning loop of `remove_animals_from_reserve`, with its early
      `break`. */
  method PlanRemoval(arrays: seq<AdfArray>, eligible: seq<nat>, gender: string, animalCnt: int)
    returns (arraysToRemoveFrom: seq<Planned>, animalsLeftToRemove: int)
    requires InRange(eligible, |arrays|)
    ensures Plan(arraysToRemoveFrom, animalsLeftToRemove) == PlanPrefix(arrays, eligible, gender, animalCnt, |eligible|)
  {
    animalsLeftToRemove := animalCnt;
    arraysToRemoveFrom := [];
    var i := 0;
    while i < |eligible|
      invariant 0 <= i <= |eligible|
      invariant Plan(arraysToRemoveFrom, animalsLeftToRemove) == PlanPrefix(arrays, eligible, gender, animalCnt, i)
    {
      if animalsLeftToRemove == 0 {
        PlanSettled(arrays, eligible, gender, animalCnt, i, |eligible|);
        break;
      }
      var animalArray := arrays[eligible[i]];
      var arrayLength := animalArray.length;
      if arrayLength > 1 {
        var removeCnt;
        if gender == "male" {
          removeCnt := animalArray.maleCnt - 1;
        } else {
          removeCnt := animalArray.femaleCnt - 1;
        }
        if removeCnt > animalsLeftToRemove {
          removeCnt := animalsLeftToRemove;
        }
        if removeCnt > 0 {
          arraysToRemoveFrom := arraysToRemoveFrom + [Planned(removeCnt, eligible[i])];
          animalsLeftToRemove := animalsLeftToRemove - removeCnt;
        }
      }
      i := i + 1;
    }
  }
}
