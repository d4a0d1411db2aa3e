/**
 * Nearest-available-elevator selection. The selection is the pipeline
 * "keep the available cars, order them by distance (stably), take the first",
 * written over the positions of the building's cars; `IsNearest` is the
 * independent description of the car it must pick.
 */
module Dispatch {
  import opened Types
  import opened Elevators
  import opened Buildings

  /** The filter: status Available and the car accepts a move to `floor`. */
  predicate Qualifies(e: Elevator, floor: int)
    reads e
  {
    e.Status == Available && e.CanMoveTo(floor)
  }

  /** The ordering key: how many floors the car is away from `floor`. */
  function Distance(e: Elevator, floor: int): nat
    reads e
  {
    Abs(e.CurrentFloor - floor)
  }

  /** The filter applied to every car, by position. */
  function Mask(es: seq<Elevator>, floor: int): seq<bool>
    reads es
  {
    seq(|es|, i requires 0 <= i < |es| reads es => Qualifies(es[i], floor))
  }

  /** The ordering key of every car, by position. */
  function Distances(es: seq<Elevator>, floor: int): seq<nat>
    reads es
  {
    seq(|es|, i requires 0 <= i < |es| reads es => Distance(es[i], floor))
  }

  predicate StrictlyIncreasing(s: seq<nat>)
  {
    forall i, j :: 0 <= i < j < |s| ==> s[i] < s[j]
  }

  predicate InRange(s: seq<nat>, n: nat)
  {
    forall i :: 0 <= i < |s| ==> s[i] < n
  }

  predicate SortedBy(s: seq<nat>, key: seq<nat>)
    requires InRange(s, |key|)
  {
    forall i, j :: 0 <= i < j < |s| ==> key[s[i]] <= key[s[j]]
  }

  /** Positions k, k + 1, ... whose flag is set, in ascending order. */
  function WhereFrom(mask: seq<bool>, k: nat): seq<nat>
    decreases |mask| - k
  {
    if k >= |mask| then []
    else (if mask[k] then [k] else []) + WhereFrom(mask, k + 1)
  }

  /**
   * The filtering step: the positions of the qualifying cars, in building
   * order. Exactly the flagged positions are kept, each once, in ascending order.
   */
  function Where(mask: seq<bool>): (r: seq<nat>)
    ensures forall x :: x in r <==> 0 <= x < |mask| && mask[x]
    ensures StrictlyIncreasing(r)
  {
    WhereFromSpec(mask, 0);
    WhereFrom(mask, 0)
  }

  lemma {:induction false} WhereFromSpec(mask: seq<bool>, k: nat)
    ensures forall x :: x in WhereFrom(mask, k) <==> k <= x < |mask| && mask[x]
    ensures StrictlyIncreasing(WhereFrom(mask, k))
    decreases |mask| - k
  {
    if k < |mask| {
      WhereFromSpec(mask, k + 1);
      var head: seq<nat> := if mask[k] then [k] else [];
      var tail := WhereFrom(mask, k + 1);
      assert WhereFrom(mask, k) == head + tail;
      assert forall i :: 0 <= i < |tail| ==> k < tail[i] by {
        forall i | 0 <= i < |tail| ensures k < tail[i] {
          assert tail[i] in tail;
        }
      }
    }
  }

  /**
   * Insert `x` into a key-sorted list in front of the first entry whose key
   * is not smaller; an entry already present with an equal key stays behind it.
   */
  function Insert(x: nat, sorted: seq<nat>, key: seq<nat>): (r: seq<nat>)
    requires x < |key| && InRange(sorted, |key|)
    ensures |r| == |sorted| + 1
    ensures InRange(r, |key|)
    ensures r[0] == if sorted == [] || key[x] <= key[sorted[0]] then x else sorted[0]
  {
    if sorted == [] then [x]
    else if key[x] <= key[sorted[0]] then [x] + sorted
    else [sorted[0]] + Insert(x, sorted[1..], key)
  }

  /** Insertion adds exactly `x`: the result is `sorted` with one more occurrence of `x`. */
  lemma {:induction false} InsertPermutes(x: nat, sorted: seq<nat>, key: seq<nat>)
    requires x < |key| && InRange(sorted, |key|)
    ensures multiset(Insert(x, sorted, key)) == multiset(sorted) + multiset{x}
  {
    if sorted != [] && key[x] > key[sorted[0]] {
      InsertPermutes(x, sorted[1..], key);
      assert sorted == [sorted[0]] + sorted[1..];
      assert Insert(x, sorted, key) == [sorted[0]] + Insert(x, sorted[1..], key);
    }
  }

  /** Inserting into a key-sorted list keeps it key-sorted. */
  lemma {:induction false} InsertSorted(x: nat, sorted: seq<nat>, key: seq<nat>)
    requires x < |key| && InRange(sorted, |key|) && SortedBy(sorted, key)
    ensures SortedBy(Insert(x, sorted, key), key)
  {
    if sorted != [] && key[x] > key[sorted[0]] {
      InsertSorted(x, sorted[1..], key);
      var rest := Insert(x, sorted[1..], key);
      assert Insert(x, sorted, key) == [sorted[0]] + rest;
      // rest starts with x or with sorted[1], both keyed at least as high as sorted[0]
      assert key[sorted[0]] <= key[rest[0]];
    }
  }

  /** The ordering step: a stable insertion sort of `xs` by `key`. */
  function OrderBy(xs: seq<nat>, key: seq<nat>): (r: seq<nat>)
    requires InRange(xs, |key|)
    ensures |r| == |xs|
    ensures InRange(r, |key|)
  {
    if xs == [] then []
    else Insert(xs[0], OrderBy(xs[1..], key), key)
  }

  /** Ordering rearranges the entries and nothing else. */
  lemma {:induction false} OrderByPermutes(xs: seq<nat>, key: seq<nat>)
    requires InRange(xs, |key|)
    ensures multiset(OrderBy(xs, key)) == multiset(xs)
  {
    if xs != [] {
      OrderByPermutes(xs[1..], key);
      InsertPermutes(xs[0], OrderBy(xs[1..], key), key);
      assert xs == [xs[0]] + xs[1..];
    }
  }

  /** The ordered list is sorted by key. */
  lemma {:induction false} OrderBySorted(xs: seq<nat>, key: seq<nat>)
    requires InRange(xs, |key|)
    ensures SortedBy(OrderBy(xs, key), key)
  {
    if xs != [] {
      OrderBySorted(xs[1..], key);
      InsertSorted(xs[0], OrderBy(xs[1..], key), key);
    }
  }

  /**
   * One step of the head argument: if `h` is the stable minimum of the tail
   * of `xs`, whose head precedes everything in the tail, then the stable
   * minimum of `xs` is its head when the head's key is at most h's, and h
   * otherwise.
   */
  lemma HeadStep(xs: seq<nat>, h: nat, key: seq<nat>)
    requires xs != [] && InRange(xs, |key|) && h < |key|
    requires forall q :: 0 < q < |xs| ==> xs[0] < xs[q]
    requires h in xs[1..]
    requires forall q :: 0 <= q < |xs[1..]| ==> key[h] <= key[xs[1..][q]]
    requires forall q :: 0 <= q < |xs[1..]| && key[xs[1..][q]] == key[h] ==> h <= xs[1..][q]
    ensures var m := if key[xs[0]] <= key[h] then xs[0] else h;
      && m in xs
      && (forall q :: 0 <= q < |xs| ==> key[m] <= key[xs[q]])
      && (forall q :: 0 <= q < |xs| && key[xs[q]] == key[m] ==> m <= xs[q])
  {
    assert forall q :: 0 < q < |xs| ==> xs[q] == xs[1..][q - 1];
  }

  /**
   * Stability at the head: for positions listed in ascending order, the first
   * entry of the ordered list has the least key, and any other entry with the
   * same key comes later in the input.
   */
  lemma {:induction false} OrderByHead(xs: seq<nat>, key: seq<nat>)
    requires InRange(xs, |key|) && StrictlyIncreasing(xs) && xs != []
    ensures OrderBy(xs, key) != [] && OrderBy(xs, key)[0] in xs
    ensures forall q :: 0 <= q < |xs| ==> key[OrderBy(xs, key)[0]] <= key[xs[q]]
    ensures forall q :: 0 <= q < |xs| && key[xs[q]] == key[OrderBy(xs, key)[0]] ==> OrderBy(xs, key)[0] <= xs[q]
  {
    var rest := xs[1..];
    var s := OrderBy(rest, key);
    if rest == [] {
      assert OrderBy(xs, key) == [xs[0]];
    } else {
      assert StrictlyIncreasing(rest);
      OrderByHead(rest, key);
      HeadStep(xs, s[0], key);
    }
  }

  /** The last step: the first entry, or nothing when the list is empty. */
  function FirstOrDefault(s: seq<nat>): (r: Option<nat>)
    ensures r.None? <==> s == []
    ensures r.Some? ==> r.value in s && r.value == s[0]
  {
    if s == [] then None else Some(s[0])
  }

  /**
   * Reference description of the pick: position `i` qualifies, no qualifying
   * car is closer, and every qualifying car before it is strictly farther.
   */
  predicate IsNearest(mask: seq<bool>, key: seq<nat>, i: nat)
    requires |mask| == |key|
  {
    && i < |mask| && mask[i]
    && (forall j :: 0 <= j < |mask| && mask[j] ==> key[i] <= key[j])
    && (forall j :: 0 <= j < i && mask[j] ==> key[i] < key[j])
  }

  /** At most one position is the nearest one. */
  lemma NearestIsUnique(mask: seq<bool>, key: seq<nat>, i: nat, j: nat)
    requires |mask| == |key|
    requires IsNearest(mask, key, i) && IsNearest(mask, key, j)
    ensures i == j
  {
  }

  /** The positions `Where` yields are valid positions, in ascending order. */
  lemma WhereInRange(mask: seq<bool>)
    ensures InRange(Where(mask), |mask|) && StrictlyIncreasing(Where(mask))
  {
    var candidates := Where(mask);
    forall i | 0 <= i < |candidates| ensures candidates[i] < |mask| {
      assert candidates[i] in candidates;
    }
  }

  /**
   * Filter, stable order, first: the pipeline finds nothing exactly when no
   * position qualifies, and otherwise finds the nearest position, ties going
   * to the earliest.
   */
  lemma PipelinePicksNearest(mask: seq<bool>, key: seq<nat>)
    requires |mask| == |key|
    ensures InRange(Where(mask), |key|)
    ensures FirstOrDefault(OrderBy(Where(mask), key)).None? <==> forall j :: 0 <= j < |mask| ==> !mask[j]
    ensures FirstOrDefault(OrderBy(Where(mask), key)).Some? ==>
      IsNearest(mask, key, FirstOrDefault(OrderBy(Where(mask), key)).value)
  {
    WhereInRange(mask);
    var candidates := Where(mask);
    var ordered := OrderBy(candidates, key);
    if candidates == [] {
      assert FirstOrDefault(ordered) == None;
      forall j | 0 <= j < |mask| ensures !mask[j] {
        assert j !in candidates;
      }
    } else {
      OrderByHead(candidates, key);
      var i := ordered[0];
      assert FirstOrDefault(ordered) == Some(i);
      assert i in candidates && mask[i];
      forall j | 0 <= j < |mask| && mask[j] ensures key[i] <= key[j] {
        assert j in candidates;
      }
      forall j | 0 <= j < i && mask[j] ensures key[i] < key[j] {
        assert j in candidates;
      }
      assert IsNearest(mask, key, i);
    }
  }

  /** The whole pipeline on positions: keep the qualifying ones, order them by key, take the first. */
  function SelectIndex(mask: seq<bool>, key: seq<nat>): (r: Option<nat>)
    requires |mask| == |key|
    ensures r.None? <==> forall j :: 0 <= j < |mask| ==> !mask[j]
    ensures r.Some? ==> IsNearest(mask, key, r.value)
  {
    PipelinePicksNearest(mask, key);
    FirstOrDefault(OrderBy(Where(mask), key))
  }

  /** When the pipeline selects nothing, no car qualifies. */
  lemma NoneQualifies(es: seq<Elevator>, floor: int)
    requires SelectIndex(Mask(es, floor), Distances(es, floor)).None?
    ensures forall e :: e in es ==> !Qualifies(e, floor)
  {
    forall e | e in es ensures !Qualifies(e, floor) {
      var i :| 0 <= i < |es| && es[i] == e;
      assert !Mask(es, floor)[i];
    }
  }

  /** The car at the selected position qualifies and is the nearest one, ties going to the earliest. */
  lemma SelectedIsNearest(es: seq<Elevator>, floor: int, i: nat)
    requires SelectIndex(Mask(es, floor), Distances(es, floor)) == Some(i)
    ensures i < |es| && Qualifies(es[i], floor)
    ensures forall e :: e in es && Qualifies(e, floor) ==> Distance(es[i], floor) <= Distance(e, floor)
    ensures forall j :: 0 <= j < i && Qualifies(es[j], floor) ==> Distance(es[i], floor) < Distance(es[j], floor)
  {
    var mask, key := Mask(es, floor), Distances(es, floor);
    assert IsNearest(mask, key, i);
    forall e | e in es && Qualifies(e, floor) ensures Distance(es[i], floor) <= Distance(e, floor) {
      var j :| 0 <= j < |es| && es[j] == e;
      assert mask[j];
    }
    forall j | 0 <= j < i && Qualifies(es[j], floor) ensures Distance(es[i], floor) < Distance(es[j], floor) {
      assert mask[j];
    }
  }

  /**
   * The dispatcher's query: the qualifying car nearest to `floor`, ties going
   * to the one listed first; nothing when no car qualifies (in particular when
   * the building has no cars or all are out of service). A function, so it
   * changes no car.
   */
  function GetNearestAvailableElevator(b: Building, floor: int): (r: Option<Elevator>)
    reads b.elevators
    ensures r.None? <==> forall e :: e in b.elevators ==> !Qualifies(e, floor)
    ensures r.Some? ==> r.value in b.elevators && r.value.Status == Available && r.value.CanMoveTo(floor)
    ensures r.Some? ==> forall e :: e in b.elevators && Qualifies(e, floor) ==>
      Distance(r.value, floor) <= Distance(e, floor)
    ensures r.Some? ==> exists i :: (0 <= i < |b.elevators| && b.elevators[i] == r.value
      && forall j :: 0 <= j < i && Qualifies(b.elevators[j], floor) ==>
           Distance(r.value, floor) < Distance(b.elevators[j], floor))
  {
    var es := b.GetAllElevators();
    match SelectIndex(Mask(es, floor), Distances(es, floor))
    case None =>
      NoneQualifies(es, floor);
      None
    case Some(i) =>
      SelectedIsNearest(es, floor, i);
      Some(es[i])
  }

  /** Snapshot of every car, in building order. */
  function States(es: seq<Elevator>): seq<ElevatorState>
    reads es
  {
    seq(|es|, k requires 0 <= k < |es| reads es => es[k].State())
  }

  /** The filter on snapshots: a car accepts a move exactly when it is Available. */
  function AvailableMask(cars: seq<ElevatorState>): seq<bool>
  {
    seq(|cars|, k requires 0 <= k < |cars| => cars[k].status == Available)
  }

  /** The ordering key on snapshots. */
  function FloorDistances(cars: seq<ElevatorState>, floor: int): seq<nat>
  {
    seq(|cars|, k requires 0 <= k < |cars| => Abs(cars[k].currentFloor - floor))
  }

  /**
   * Position `i` holds an Available car no farther from `floor` than any
   * other Available car, and strictly nearer than every Available car listed
   * before it.
   */
  predicate IsNearestCar(cars: seq<ElevatorState>, floor: int, i: nat)
  {
    && i < |cars| && cars[i].status == Available
    && (forall k :: 0 <= k < |cars| && cars[k].status == Available ==>
          Abs(cars[i].currentFloor - floor) <= Abs(cars[k].currentFloor - floor))
    && (forall k :: 0 <= k < i && cars[k].status == Available ==>
          Abs(cars[i].currentFloor - floor) < Abs(cars[k].currentFloor - floor))
  }

  /** The pipeline on snapshots selects nothing exactly when no car is Available, and otherwise the nearest one. */
  lemma SelectPicksNearestCar(cars: seq<ElevatorState>, floor: int)
    ensures var r := SelectIndex(AvailableMask(cars), FloorDistances(cars, floor));
      && (r.None? <==> forall k :: 0 <= k < |cars| ==> cars[k].status != Available)
      && (r.Some? ==> IsNearestCar(cars, floor, r.value))
  {
    var mask, key := AvailableMask(cars), FloorDistances(cars, floor);
    var r := SelectIndex(mask, key);
    if r.None? {
      forall k | 0 <= k < |cars| ensures cars[k].status != Available {
        assert !mask[k];
      }
    } else {
      var i := r.value;
      forall k | 0 <= k < |cars| && cars[k].status == Available
        ensures Abs(cars[i].currentFloor - floor) <= Abs(cars[k].currentFloor - floor)
      {
        assert mask[k] && key[i] <= key[k];
      }
      forall k | 0 <= k < i && cars[k].status == Available
        ensures Abs(cars[i].currentFloor - floor) < Abs(cars[k].currentFloor - floor)
      {
        assert mask[k] && key[i] < key[k];
      }
    }
  }

  /**
   * The dispatcher's choice on snapshots, as a position: nothing exactly when
   * no car is Available, otherwise the nearest Available car, ties going to
   * the one listed first.
   */
  function Pick(cars: seq<ElevatorState>, floor: int): (r: Option<nat>)
    ensures r.None? <==> forall k :: 0 <= k < |cars| ==> cars[k].status != Available
    ensures r.Some? ==> IsNearestCar(cars, floor, r.value)
  {
    SelectPicksNearestCar(cars, floor);
    SelectIndex(AvailableMask(cars), FloorDistances(cars, floor))
  }

  /**
   * The dispatcher's query picks the car at the position `Pick` chooses on
   * the snapshot of the cars, and nothing exactly when `Pick` finds nothing.
   */
  lemma NearestIsPick(b: Building, floor: int)
    ensures var r := GetNearestAvailableElevator(b, floor); var p := Pick(States(b.elevators), floor);
      && (r.None? <==> p.None?)
      && (r.Some? ==> p.value < |b.elevators| && b.elevators[p.value] == r.value)
  {
    var es := b.elevators;
    var cars := States(es);
    assert Mask(es, floor) == AvailableMask(cars);
    assert Distances(es, floor) == FloorDistances(cars, floor);
  }

  /** Available cars on floors 5 and 10, a call from floor 7: the car on floor 5 is sent. */
  method NearestCarScenario() returns (picked: Option<Elevator>, expected: Elevator)
    ensures picked == Some(expected) && expected.CurrentFloor == 5
  {
    var e1 := new Elevator.StandardElevator(1);
    e1.CurrentFloor := 5;
    var e2 := new Elevator.StandardElevator(2);
    e2.CurrentFloor := 10;
    var b := Building(20, [e1, e2]);
    picked := GetNearestAvailableElevator(b, 7);
    expected := e1;
    assert Qualifies(e1, 7) && Distance(e1, 7) == 2 && Distance(e2, 7) == 3;
    assert e1 in b.elevators && e2 in b.elevators;
  }

  /** The only car is out of service: nothing is sent. */
  method OutOfServiceScenario() returns (picked: Option<Elevator>)
    ensures picked == None
  {
    var e := new Elevator.StandardElevator(1);
    e.SetStatus(OutOfService);
    picked := GetNearestAvailableElevator(Building(20, [e]), 7);
  }

  /** A building without cars: nothing is sent. */
  method NoCarScenario() returns (picked: Option<Elevator>)
    ensures picked == None
  {
    picked := GetNearestAvailableElevator(Building(20, []), 7);
  }
}
