/** The order queue shared by customers and bartenders, as a sequential
    ring buffer. The two semaphores that make `order_drink` and
    `take_order` block become preconditions: a customer may submit only
    when a slot is free, a bartender may take only when an order waits. */
module OrderQueue {
  import opened Wrappers
  import opened BarConfig

  /** `slots` is the `order_queue` array (a `NULL` entry is `None`), `hi` and
      `lo` are `order_hi` and `order_lo`, and `waiting` is the count of
      `empty_sem`; the count of `full_sem` is `NCUSTOMERS - waiting`. */
  datatype Ring<T> = Ring(slots: seq<Option<T>>, hi: nat, lo: nat, waiting: nat)

  /** The slot `k` places after cursor `c`, both cursors advancing `(x + 1) % NCUSTOMERS`. */
  function After(c: nat, k: nat): (i: nat)
    ensures i < NCUSTOMERS
  {
    (c + k) % NCUSTOMERS
  }

  /** Advancing a cursor `j` places and then `k` more is advancing it `j + k`. */
  lemma AfterAfter(c: nat, j: nat, k: nat)
    ensures After(After(c, j), k) == After(c, j + k)
  {
  }

  /** Fewer than NCUSTOMERS steps from one cursor never wrap onto the same slot. */
  lemma AfterDistinct(c: nat, k: nat, w: nat)
    requires k < w < NCUSTOMERS
    ensures After(c, k) != After(c, w)
  {
  }

  predicate Valid<T>(q: Ring<T>)
  {
    && |q.slots| == NCUSTOMERS
    && q.hi < NCUSTOMERS && q.lo < NCUSTOMERS
    && q.waiting <= NCUSTOMERS
    && q.hi == After(q.lo, q.waiting)
    && forall k :: 0 <= k < q.waiting ==> q.slots[After(q.lo, k)].Some?
  }

  /** The waiting orders, oldest first. */
  function Contents<T>(q: Ring<T>): (s: seq<T>)
    requires Valid(q)
    ensures |s| == q.waiting
  {
    seq(q.waiting, k requires 0 <= k < q.waiting => q.slots[After(q.lo, k)].value)
  }

  /** A free slot exists: `P(full_sem)` in `order_drink` would not block. */
  predicate CanSubmit<T>(q: Ring<T>)
  {
    q.waiting < NCUSTOMERS
  }

  /** An order waits: `P(empty_sem)` in `take_order` would not block. */
  predicate CanTake<T>(q: Ring<T>)
  {
    q.waiting > 0
  }

  /** The queue part of `bar_open`: both cursors reset, whatever the array
      still holds from before, with every slot free. */
  function Open<T>(stale: seq<Option<T>>): (q: Ring<T>)
    requires |stale| == NCUSTOMERS
    ensures Valid(q) && Contents(q) == []
    ensures CanSubmit(q) && !CanTake(q)
  {
    Ring(stale, 0, 0, 0)
  }

  /** The queue part of `order_drink`: store at `order_hi`, advance it. */
  function Submit<T>(q: Ring<T>, order: T): (r: Ring<T>)
    requires Valid(q) && CanSubmit(q)
    ensures Valid(r)
    ensures Contents(r) == Contents(q) + [order]
  {
    var r := Ring(q.slots[q.hi := Some(order)], (q.hi + 1) % NCUSTOMERS, q.lo, q.waiting + 1);
    assert forall k :: 0 <= k < q.waiting ==> After(q.lo, k) != q.hi by {
      forall k | 0 <= k < q.waiting {
        AfterDistinct(q.lo, k, q.waiting);
      }
    }
    AfterAfter(q.lo, q.waiting, 1);
    r
  }

  /** The queue part of `take_order`: read at `order_lo`, advance it. */
  function Take<T>(q: Ring<T>): (res: (T, Ring<T>))
    requires Valid(q) && CanTake(q)
    ensures Valid(res.1) && res.1.waiting == q.waiting - 1
    ensures Contents(q) == [res.0] + Contents(res.1)
  {
    var r := Ring(q.slots, q.hi, (q.lo + 1) % NCUSTOMERS, q.waiting - 1);
    assert After(q.lo, 0) == q.lo;
    forall k | 0 <= k <= r.waiting
      ensures After(r.lo, k) == After(q.lo, k + 1)
    {
      AfterAfter(q.lo, 1, k);
    }
    (q.slots[q.lo].value, r)
  }

  /** Customers submitting `orders` one after another. */
  function SubmitAll<T>(q: Ring<T>, orders: seq<T>): (r: Ring<T>)
    requires Valid(q) && q.waiting + |orders| <= NCUSTOMERS
    ensures Valid(r) && r.waiting == q.waiting + |orders|
    decreases |orders|
  {
    if |orders| == 0 then q else SubmitAll(Submit(q, orders[0]), orders[1..])
  }

  /** Bartenders taking orders until none waits. */
  function Drain<T>(q: Ring<T>): (taken: seq<T>)
    requires Valid(q)
    ensures |taken| == q.waiting
    decreases q.waiting
  {
    if q.waiting == 0 then [] else
      var (order, r) := Take(q);
      [order] + Drain(r)
  }

  lemma {:induction false} SubmitAllContents<T>(q: Ring<T>, orders: seq<T>)
    requires Valid(q) && q.waiting + |orders| <= NCUSTOMERS
    ensures Contents(SubmitAll(q, orders)) == Contents(q) + orders
    decreases |orders|
  {
    if |orders| > 0 {
      SubmitAllContents(Submit(q, orders[0]), orders[1..]);
      assert orders == [orders[0]] + orders[1..];
    }
  }

  lemma {:induction false} DrainContents<T>(q: Ring<T>)
    requires Valid(q)
    ensures Drain(q) == Contents(q)
    decreases q.waiting
  {
    if q.waiting > 0 {
      DrainContents(Take(q).1);
    }
  }

  /** FIFO: orders submitted to a freshly opened bar are taken in the order
      they were submitted. */
  lemma FifoOrder<T>(stale: seq<Option<T>>, orders: seq<T>)
    requires |stale| == NCUSTOMERS && |orders| <= NCUSTOMERS
    ensures Drain(SubmitAll(Open(stale), orders)) == orders
  {
    SubmitAllContents(Open(stale), orders);
    DrainContents(SubmitAll(Open(stale), orders));
  }

  /** Backpressure: once NCUSTOMERS orders wait, a further submit must
      block until one order is taken, after which it may proceed. */
  lemma FullBlocksUntilTake<T>(stale: seq<Option<T>>, orders: seq<T>)
    requires |stale| == NCUSTOMERS && |orders| == NCUSTOMERS
    ensures !CanSubmit(SubmitAll(Open(stale), orders))
    ensures CanTake(SubmitAll(Open(stale), orders))
    ensures CanSubmit(Take(SubmitAll(Open(stale), orders)).1)
  {
  }
}
