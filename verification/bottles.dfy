/** How a bartender fills an order: the requested bottle ids are sorted,
    the distinct bottles are locked in ascending order, and the locks are
    released in the reverse order. Every bartender locking in one global
    order is what rules out a circular wait; this module proves the
    sequential half of that argument. A lock handle is the index of the
    lock in the bottle-lock array, and a `NULL` handle is `None`. */
module Bottles {
  import opened Wrappers
  import opened BarConfig

  /** An order as the bartender sees it: requested bottle ids (0 marks an
      unused slot, id `b` names lock `b - 1`), the go-home flag, and the
      handles of the locks currently held, one slot per requested bottle. */
  datatype BarOrder = BarOrder(
    requestedBottles: seq<nat>,
    goHome: bool,
    holdBottle: seq<Option<nat>>)

  predicate Sorted(s: seq<nat>)
  {
    forall i, j :: 0 <= i < j < |s| ==> s[i] <= s[j]
  }

  predicate StrictlyIncreasing(s: seq<nat>)
  {
    forall i, j :: 0 <= i < j < |s| ==> s[i] < s[j]
  }

  function Elems(s: seq<nat>): set<nat>
  {
    set x | x in s
  }

  /** The lock indices an order needs: one per distinct non-zero id. */
  function Wanted(req: seq<nat>): set<nat>
  {
    set k | 0 <= k < |req| && req[k] != 0 :: req[k] - 1
  }

  /** `b` is the reverse of `a`. */
  predicate IsReverse(b: seq<nat>, a: seq<nat>)
  {
    |b| == |a| && forall k :: 0 <= k < |b| ==> b[k] == a[|a| - 1 - k]
  }

  /** The handles in a hold array that are not `NULL`, lowest index first. */
  function Held(hold: seq<Option<nat>>): seq<nat>
  {
    if |hold| == 0 then []
    else (if hold[0].Some? then [hold[0].value] else []) + Held(hold[1..])
  }

  // ---------------------------------------------------------------------
  // Sorting the request

  function SwapAdjacent(s: seq<nat>, i: nat): (r: seq<nat>)
    requires i + 1 < |s|
  {
    s[i := s[i + 1]][i + 1 := s[i]]
  }

  /** How many elements of `s` are smaller than `x`. */
  function CountBelow(x: nat, s: seq<nat>): nat
  {
    if |s| == 0 then 0 else (if s[0] < x then 1 else 0) + CountBelow(x, s[1..])
  }

  /** The number of out-of-order pairs; the bubble sort's termination measure. */
  function Inversions(s: seq<nat>): nat
  {
    if |s| == 0 then 0 else CountBelow(s[0], s[1..]) + Inversions(s[1..])
  }

  lemma {:induction false} CountBelowSwap(x: nat, s: seq<nat>, i: nat)
    requires i + 1 < |s|
    ensures CountBelow(x, SwapAdjacent(s, i)) == CountBelow(x, s)
  {
    var t := SwapAdjacent(s, i);
    if i == 0 {
      assert t[1..][1..] == s[1..][1..];
    } else {
      assert t[1..] == SwapAdjacent(s[1..], i - 1);
      CountBelowSwap(x, s[1..], i - 1);
    }
  }

  /** Swapping an adjacent out-of-order pair removes exactly one inversion. */
  lemma {:induction false} InversionsSwap(s: seq<nat>, i: nat)
    requires i + 1 < |s| && s[i] > s[i + 1]
    ensures Inversions(SwapAdjacent(s, i)) + 1 == Inversions(s)
  {
    var t := SwapAdjacent(s, i);
    if i == 0 {
      var rest := s[2..];
      assert s[1..] == [s[1]] + rest && s[1..][1..] == rest;
      assert t[1..] == [s[0]] + rest && t[1..][1..] == rest;
      assert CountBelow(s[0], s[1..]) == 1 + CountBelow(s[0], rest);
      assert CountBelow(s[1], t[1..]) == CountBelow(s[1], rest);
    } else {
      assert t[1..] == SwapAdjacent(s[1..], i - 1);
      CountBelowSwap(s[0], s[1..], i - 1);
      InversionsSwap(s[1..], i - 1);
    }
  }

  lemma {:induction false} AdjacentSorted(s: seq<nat>)
    requires forall k :: 0 < k < |s| ==> s[k - 1] <= s[k]
    ensures Sorted(s)
  {
    if |s| > 1 {
      AdjacentSorted(s[1..]);
      forall i, j | 0 <= i < j < |s|
        ensures s[i] <= s[j]
      {
        if i > 0 {
          assert s[1..][i - 1] <= s[1..][j - 1];
        } else if j > 1 {
          assert s[1..][0] <= s[1..][j - 1];
        }
      }
    }
  }

  /** `sort_requested_bottles`: bubble passes over the whole array until a
      pass makes no swap. */
  method SortRequestedBottles(req: seq<nat>) returns (sorted: seq<nat>)
    ensures |sorted| == |req|
    ensures Sorted(sorted)
    ensures multiset(sorted) == multiset(req)
  {
    var a := req;
    var swap := true;
    while swap
      invariant |a| == |req|
      invariant multiset(a) == multiset(req)
      invariant !swap ==> forall k :: 0 < k < |a| ==> a[k - 1] <= a[k]
      decreases Inversions(a) + (if swap then 1 else 0)
    {
      swap := false;
      ghost var before := Inversions(a);
      var i := 0;
      while i < |a| - 1
        invariant 0 <= i && (i <= |a| - 1 || i == 0)
        invariant |a| == |req|
        invariant multiset(a) == multiset(req)
        invariant !swap ==> forall k :: 0 < k <= i ==> a[k - 1] <= a[k]
        invariant !swap ==> Inversions(a) == before
        invariant swap ==> Inversions(a) < before
      {
        if a[i] > a[i + 1] {
          InversionsSwap(a, i);
          a := SwapAdjacent(a, i);
          swap := true;
        }
        i := i + 1;
      }
    }
    AdjacentSorted(a);
    sorted := a;
  }

  // ---------------------------------------------------------------------
  // Taking and returning the bottles

  /** `take_bottles`: scan the (sorted) request, clearing each hold slot and
      locking bottle `b` as lock `b - 1` whenever `b` is non-zero and differs
      from its predecessor. `acquired` is the sequence of locks taken. */
  method TakeBottles(req: seq<nat>, prevHold: seq<Option<nat>>)
    returns (hold: seq<Option<nat>>, acquired: seq<nat>)
    requires |prevHold| == |req|
    requires forall k :: 0 <= k < |req| ==> req[k] <= NBOTTLES
    ensures |hold| == |req| && |acquired| <= |req|
    ensures forall k :: 0 <= k < |acquired| ==> hold[k] == Some(acquired[k])
    ensures forall k :: |acquired| <= k < |hold| ==> hold[k] == None
    ensures forall k :: 0 <= k < |acquired| ==> acquired[k] < NBOTTLES
    ensures Elems(acquired) == Wanted(req)
    ensures Sorted(req) ==> StrictlyIncreasing(acquired)
  {
    hold := prevHold;
    acquired := [];
    var i := 0;
    var j := 0;
    while i < |req|
      invariant 0 <= j <= i <= |req|
      invariant |hold| == |req| && |acquired| == j
      invariant forall k :: 0 <= k < j ==> hold[k] == Some(acquired[k])
      invariant forall k :: j <= k < i ==> hold[k] == None
      invariant forall k :: 0 <= k < j ==> acquired[k] < NBOTTLES
      invariant Elems(acquired) == Wanted(req[..i])
      invariant Sorted(req) ==> StrictlyIncreasing(acquired)
      invariant Sorted(req) && j > 0 ==> acquired[j - 1] < req[i - 1]
    {
      hold := hold[i := None];
      assert req[..i + 1] == req[..i] + [req[i]];
      WantedSnoc(req[..i], req[i]);
      if req[i] != 0 && (i == 0 || req[i] != req[i - 1]) {
        hold := hold[j := Some(req[i] - 1)];
        AcquireStep(req, i, acquired);
        acquired := acquired + [req[i] - 1];
        j := j + 1;
      } else if req[i] != 0 {
        assert req[..i][i - 1] == req[i];
      }
      i := i + 1;
    }
    assert req[..i] == req;
  }

  /** One acquisition in `take_bottles` keeps the acquired locks strictly
      ascending when the request is sorted. */
  lemma AcquireStep(req: seq<nat>, i: nat, acquired: seq<nat>)
    requires i < |req| && req[i] != 0 && (i == 0 || req[i] != req[i - 1])
    requires Sorted(req) ==> StrictlyIncreasing(acquired)
    requires Sorted(req) && |acquired| > 0 ==> i > 0 && acquired[|acquired| - 1] < req[i - 1]
    ensures Elems(acquired + [req[i] - 1]) == Elems(acquired) + {req[i] - 1}
    ensures Sorted(req) ==> StrictlyIncreasing(acquired + [req[i] - 1])
  {
    var t := acquired + [req[i] - 1];
    if Sorted(req) {
      forall a, b | 0 <= a < b < |t|
        ensures t[a] < t[b]
      {
        if b == |acquired| && a < b - 1 {
          assert acquired[a] < acquired[b - 1];
        }
      }
    }
  }

  lemma WantedSnoc(s: seq<nat>, x: nat)
    ensures Wanted(s + [x]) == Wanted(s) + (if x != 0 then {x - 1} else {})
  {
    var t := s + [x];
    assert forall k :: 0 <= k < |s| ==> t[k] == s[k];
    assert t[|s|] == x;
  }

  /** `return_bottles`: release every non-`NULL` handle, from the highest
      slot down; `released` is the sequence of locks released. */
  method ReturnBottles(hold: seq<Option<nat>>) returns (released: seq<nat>)
    ensures IsReverse(released, Held(hold))
  {
    released := [];
    var i := |hold|;
    while i > 0
      invariant 0 <= i <= |hold|
      invariant IsReverse(released, Held(hold[i..]))
    {
      i := i - 1;
      assert hold[i..][1..] == hold[i + 1..];
      if hold[i].Some? {
        released := released + [hold[i].value];
      }
    }
  }

  /** A hold array filled as `take_bottles` leaves it lists exactly the
      acquired locks, in acquisition order. */
  lemma {:induction false} HeldAfterTake(hold: seq<Option<nat>>, acquired: seq<nat>)
    requires |acquired| <= |hold|
    requires forall k :: 0 <= k < |acquired| ==> hold[k] == Some(acquired[k])
    requires forall k :: |acquired| <= k < |hold| ==> hold[k] == None
    ensures Held(hold) == acquired
  {
    if |hold| > 0 {
      if |acquired| > 0 {
        HeldAfterTake(hold[1..], acquired[1..]);
        assert acquired == [acquired[0]] + acquired[1..];
      } else {
        HeldAfterTake(hold[1..], acquired);
      }
    }
  }

  /** Reordering a request does not change which locks it needs. */
  lemma WantedPermutation(a: seq<nat>, b: seq<nat>)
    requires multiset(a) == multiset(b)
    ensures Wanted(a) == Wanted(b)
  {
    forall x | x in Wanted(a)
      ensures x in Wanted(b)
    {
      var k :| 0 <= k < |a| && a[k] != 0 && x == a[k] - 1;
      assert a[k] in multiset(b);
      var k' :| 0 <= k' < |b| && b[k'] == a[k];
    }
    forall x | x in Wanted(b)
      ensures x in Wanted(a)
    {
      var k :| 0 <= k < |b| && b[k] != 0 && x == b[k] - 1;
      assert b[k] in multiset(a);
      var k' :| 0 <= k' < |a| && a[k'] == b[k];
    }
  }

  /** `fill_order` without the opaque `mix` step: sort, take, return. Locks
      are taken in strictly ascending order, each needed lock exactly once,
      and released in exactly the reverse order. */
  method FillOrder(order: BarOrder) returns (filled: BarOrder, acquired: seq<nat>, released: seq<nat>)
    requires |order.holdBottle| == |order.requestedBottles|
    requires forall k :: 0 <= k < |order.requestedBottles| ==> order.requestedBottles[k] <= NBOTTLES
    ensures Sorted(filled.requestedBottles)
    ensures multiset(filled.requestedBottles) == multiset(order.requestedBottles)
    ensures filled.goHome == order.goHome
    ensures StrictlyIncreasing(acquired)
    ensures Elems(acquired) == Wanted(order.requestedBottles)
    ensures Held(filled.holdBottle) == acquired
    ensures IsReverse(released, acquired)
  {
    var sorted := SortRequestedBottles(order.requestedBottles);
    assert forall k :: 0 <= k < |sorted| ==> sorted[k] <= NBOTTLES by {
      forall k | 0 <= k < |sorted|
        ensures sorted[k] <= NBOTTLES
      {
        assert sorted[k] in multiset(order.requestedBottles);
      }
    }
    var hold;
    hold, acquired := TakeBottles(sorted, order.holdBottle);
    WantedPermutation(sorted, order.requestedBottles);
    HeldAfterTake(hold, acquired);
    released := ReturnBottles(hold);
    filled := order.(requestedBottles := sorted, holdBottle := hold);
  }

  lemma {:induction false} IncreasingCard(s: seq<nat>)
    requires StrictlyIncreasing(s)
    ensures |Elems(s)| == |s|
  {
    if |s| > 0 {
      IncreasingCard(s[1..]);
      assert Elems(s) == {s[0]} + Elems(s[1..]);
      assert s[0] !in Elems(s[1..]);
    }
  }

  /** Two strictly increasing sequences with the same elements are equal. */
  lemma {:induction false} IncreasingUnique(a: seq<nat>, b: seq<nat>)
    requires StrictlyIncreasing(a) && StrictlyIncreasing(b)
    requires Elems(a) == Elems(b)
    ensures a == b
  {
    IncreasingCard(a);
    IncreasingCard(b);
    if |a| != 0 {
      assert a[0] in Elems(b);
      assert |b| > 0;
      assert b[0] in Elems(a);
      assert a[0] == b[0];
      assert Elems(a[1..]) == Elems(a) - {a[0]};
      assert Elems(b[1..]) == Elems(b) - {b[0]};
      IncreasingUnique(a[1..], b[1..]);
      assert a == [a[0]] + a[1..] && b == [b[0]] + b[1..];
    }
  }

  lemma ExampleWanted()
    ensures Wanted([3, 1, 3, 2]) == Elems([0, 1, 2])
    ensures StrictlyIncreasing([0, 1, 2])
  {
    var req := [3, 1, 3, 2];
    assert req[0] - 1 == 2 && req[1] - 1 == 0 && req[3] - 1 == 1;
    assert Elems([0, 1, 2]) == {0, 1, 2};
  }

  /** An order for bottles 3, 1, 3, 2 locks bottles 1, 2, 3 (lock indices
      0, 1, 2) and releases them as 3, 2, 1. */
  method FillExample() returns (acquired: seq<nat>, released: seq<nat>)
    ensures acquired == [0, 1, 2]
    ensures released == [2, 1, 0]
  {
    var req := [3, 1, 3, 2];
    var order := BarOrder(req, false, [None, None, None, None]);
    var filled;
    filled, acquired, released := FillOrder(order);
    ExampleWanted();
    IncreasingUnique(acquired, [0, 1, 2]);
  }
}
