/** `PCPool_t`, the single-producer ring buffer of src/include/helper.h, and
    its simpler version in tools/test_multi_stat.cc, as sequential state
    machines.  A call that would spin in the C++ code (a full pool for the
    producer, an empty pool while putting for a consumer) returns without
    changing anything and says so; the caller retrying it is the busy wait. */
module Pools {

  /** Cell `k` of the queue that starts at cursor `c` in a ring of `n` cells. */
  function Slot(c: nat, k: nat, n: nat): (i: nat)
    requires c < n && k < n
    ensures i < n
  {
    if c + k < n then c + k else c + k - n
  }

  /** `(i + 1) % n` for a cursor `i < n`. */
  function Next(i: nat, n: nat): (j: nat)
    requires i < n
    ensures j < n && j == (i + 1) % n
  {
    if i + 1 == n then 0 else i + 1
  }

  /** The number of items between the consumer cursor `c` and the producer
      cursor `p`. */
  function Count(c: nat, p: nat, n: nat): (k: nat)
    requires c < n && p < n
    ensures k < n && Slot(c, k, n) == p
  {
    if c <= p then p - c else p + n - c
  }

  /** The items waiting in the ring, oldest first. */
  function Queue<T>(buf: seq<T>, c: nat, p: nat): (q: seq<T>)
    requires c < |buf| && p < |buf|
    ensures |q| == Count(c, p, |buf|)
    ensures forall k :: 0 <= k < |q| ==> q[k] == buf[Slot(c, k, |buf|)]
  {
    seq(Count(c, p, |buf|), k requires 0 <= k < Count(c, p, |buf|) => buf[Slot(c, k, |buf|)])
  }

  /** The ring is full exactly when it holds `n - 1` items: one cell always
      stays free (src/include/helper.h:289-301). */
  lemma FullIffNMinusOne(c: nat, p: nat, n: nat)
    requires c < n && p < n
    ensures (p + 1) % n == c <==> Count(c, p, n) == n - 1
  {
    if (p + 1) % n == c {
      assert Next(p, n) == c;
    }
  }

  /** Writing a cell outside the queue leaves the queue unchanged. */
  lemma WriteFreeCell<T>(buf: seq<T>, c: nat, p: nat, x: T)
    requires c < |buf| && p < |buf|
    ensures Queue(buf[p := x], c, p) == Queue(buf, c, p)
  {
    var n := |buf|;
    forall k | 0 <= k < Count(c, p, n)
      ensures Slot(c, k, n) != p
    {
    }
  }

  /** Advancing the producer cursor past a non-full ring appends the cell it
      leaves. */
  lemma AdvanceProducer<T>(buf: seq<T>, c: nat, p: nat)
    requires c < |buf| && p < |buf| && Count(c, p, |buf|) < |buf| - 1
    ensures Queue(buf, c, Next(p, |buf|)) == Queue(buf, c, p) + [buf[p]]
  {
    var n := |buf|;
    assert Count(c, Next(p, n), n) == Count(c, p, n) + 1;
  }

  /** Advancing the consumer cursor past a non-empty ring drops the oldest
      item. */
  lemma AdvanceConsumer<T>(buf: seq<T>, c: nat, p: nat)
    requires c < |buf| && p < |buf| && c != p
    ensures Queue(buf, c, p) == [buf[c]] + Queue(buf, Next(c, |buf|), p)
  {
    var n := |buf|;
    var q, q' := Queue(buf, c, p), Queue(buf, Next(c, n), p);
    assert |q| == |q'| + 1;
    forall k | 0 <= k < |q'|
      ensures q'[k] == q[k + 1]
    {
    }
  }

  /** What a consumer's `get` comes back with. */
  datatype Got<T> =
    | Finished                 // returns false: empty and no longer putting
    | Waiting                  // would spin and try again
    | Took(item: T, order: nat)

  /** `PCPool_t` of src/include/helper.h. */
  class Pool<T> {
    var buf: seq<T>
    var c: nat
    var p: nat
    var putting: bool
    var totalGet: nat
    var totalPut: nat

    /** Cursors inside the ring, and every item put is either taken or
        still waiting. */
    predicate Valid()
      reads this
    {
      |buf| > 0 && c < |buf| && p < |buf| && totalPut == totalGet + Count(c, p, |buf|)
    }

    /** The items waiting, oldest first. */
    function Items(): seq<T>
      reads this
      requires Valid()
    {
      Queue(buf, c, p)
    }

    /** `PCPool_t(buffer_size)`: empty, putting on; the cells hold whatever
        `new T[]` gave them (`fill`) (src/include/helper.h:271-280). */
    constructor(size: nat, fill: T)
      requires size > 0
      ensures Valid() && Items() == [] && |buf| == size && putting
      ensures totalGet == 0 && totalPut == 0
    {
      buf := seq(size, _ => fill);
      c, p := 0, 0;
      putting := true;
      totalGet, totalPut := 0, 0;
    }

    /** The full test `(p + 1) % n == c`. */
    predicate Full()
      reads this
      requires Valid()
    {
      (p + 1) % |buf| == c
    }

    /** `put`: stores the item when the ring is not full, and would spin
        otherwise (src/include/helper.h:289-301). */
    method Put(x: T) returns (stored: bool)
      requires Valid()
      modifies this
      ensures Valid() && |buf| == old(|buf|) && putting == old(putting) && totalGet == old(totalGet)
      ensures stored <==> |old(Items())| < |buf| - 1
      ensures stored ==> Items() == old(Items()) + [x] && totalPut == old(totalPut) + 1
      ensures !stored ==> Items() == old(Items()) && totalPut == old(totalPut)
    {
      FullIffNMinusOne(c, p, |buf|);
      var next := (p + 1) % |buf|;
      if next == c {
        return false;
      }
      WriteFreeCell(buf, c, p, x);
      AdvanceProducer(buf[p := x], c, p);
      buf := buf[p := x];
      p := next;
      totalPut := totalPut + 1;
      stored := true;
    }

    /** `begin_put`: the cell the producer may write, when the ring is not
        full (src/include/helper.h:305-316). */
    method BeginPut() returns (slot: nat, ready: bool)
      requires Valid()
      ensures ready <==> !Full()
      ensures ready ==> slot == p
    {
      if (p + 1) % |buf| == c {
        return 0, false;
      }
      return p, true;
    }

    /** The producer writing the object in the cell `begin_put` gave it:
        the waiting items are untouched. */
    method WriteCell(slot: nat, x: T)
      requires Valid() && slot == p
      modifies this
      ensures Valid() && Items() == old(Items()) && buf == old(buf)[slot := x]
      ensures c == old(c) && p == old(p) && putting == old(putting)
      ensures totalGet == old(totalGet) && totalPut == old(totalPut)
    {
      WriteFreeCell(buf, c, p, x);
      buf := buf[slot := x];
    }

    /** `end_put(put_ok)`: publishes the written cell, or changes nothing
        (src/include/helper.h:318-323).  It is called only after a
        successful `begin_put`, so the ring is not full. */
    method EndPut(ok: bool)
      requires Valid() && !Full()
      modifies this
      ensures Valid() && buf == old(buf) && putting == old(putting) && totalGet == old(totalGet)
      ensures ok ==> Items() == old(Items()) + [buf[old(p)]] && totalPut == old(totalPut) + 1
      ensures !ok ==> Items() == old(Items()) && p == old(p) && totalPut == old(totalPut)
    {
      if ok {
        FullIffNMinusOne(c, p, |buf|);
        AdvanceProducer(buf, c, p);
        p := (p + 1) % |buf|;
        totalPut := totalPut + 1;
      }
    }

    /** `get`: `false` once the ring is empty and the producer has stopped;
        a wait while it is empty, or holds the producer's last cell
        (`c + 1 == p`) while putting; otherwise the oldest item, with the
        number of items taken before it as its order id
        (src/include/helper.h:328-359). */
    method Get() returns (r: Got<T>)
      requires Valid()
      modifies this
      ensures Valid() && buf == old(buf) && p == old(p) && putting == old(putting) && totalPut == old(totalPut)
      ensures r.Finished? <==> old(Items()) == [] && !putting
      ensures r.Waiting? <==> putting && (old(Items()) == [] || old(c) + 1 == old(p))
      ensures r.Took? ==> old(Items()) == [r.item] + Items() && r.order == old(totalGet) && totalGet == old(totalGet) + 1
      ensures !r.Took? ==> c == old(c) && totalGet == old(totalGet)
    {
      if c == p {
        if !putting {
          return Finished;
        }
        return Waiting;
      }
      if c + 1 == p && putting {
        return Waiting;
      }
      AdvanceConsumer(buf, c, p);
      var m := c;
      c := (c + 1) % |buf|;
      r := Took(buf[m], totalGet);
      totalGet := totalGet + 1;
    }

    /** `set_putting`. */
    method SetPutting(b: bool)
      requires Valid()
      modifies this
      ensures Valid() && putting == b && Items() == old(Items())
      ensures buf == old(buf) && c == old(c) && p == old(p)
      ensures totalGet == old(totalGet) && totalPut == old(totalPut)
    {
      putting := b;
    }
  }

  /** The hold-back test of `get` compares `c + 1` with `p` without the
      wrap: while putting, it holds back a single waiting item except when
      that item sits in the last cell of the ring (src/include/helper.h:341). */
  lemma HoldBackMissesLastCell(c: nat, p: nat, n: nat)
    requires c < n && p < n
    ensures c + 1 == p ==> Count(c, p, n) == 1
    ensures Count(c, p, n) == 1 ==> (c + 1 == p <==> c + 1 < n)
  {
  }

  /** `PCPool_t` of tools/test_multi_stat.cc: no totals, and `get` never
      holds back an item. */
  class SimplePool<T> {
    var buf: seq<T>
    var c: nat
    var p: nat
    var putting: bool

    predicate Valid()
      reads this
    {
      |buf| > 0 && c < |buf| && p < |buf|
    }

    function Items(): seq<T>
      reads this
      requires Valid()
    {
      Queue(buf, c, p)
    }

    /** A new pool is empty with putting on (tools/test_multi_stat.cc:30-37). */
    constructor(size: nat, fill: T)
      requires size > 0
      ensures Valid() && Items() == [] && |buf| == size && putting && c == 0 && p == 0
    {
      buf := seq(size, _ => fill);
      c, p := 0, 0;
      putting := true;
    }

    /** `put`: waits while full, so at most `n - 1` items are stored
        (tools/test_multi_stat.cc:46-59). */
    method Put(x: T) returns (stored: bool)
      requires Valid()
      modifies this
      ensures Valid() && |buf| == old(|buf|) && putting == old(putting)
      ensures stored <==> |old(Items())| < |buf| - 1
      ensures stored ==> Items() == old(Items()) + [x]
      ensures !stored ==> Items() == old(Items())
    {
      FullIffNMinusOne(c, p, |buf|);
      var next := (p + 1) % |buf|;
      if next == c {
        return false;
      }
      WriteFreeCell(buf, c, p, x);
      AdvanceProducer(buf[p := x], c, p);
      buf := buf[p := x];
      p := next;
      stored := true;
    }

    /** `get`: `false` only when empty and no longer putting; otherwise the
        oldest item (tools/test_multi_stat.cc:64-83). */
    method Get() returns (r: Got<T>)
      requires Valid()
      modifies this
      ensures Valid() && buf == old(buf) && p == old(p) && putting == old(putting)
      ensures r.Finished? <==> old(Items()) == [] && !putting
      ensures r.Waiting? <==> old(Items()) == [] && putting
      ensures r.Took? ==> old(Items()) == [r.item] + Items() && r.order == 0
      ensures !r.Took? ==> c == old(c)
    {
      if c == p {
        if !putting {
          return Finished;
        }
        return Waiting;
      }
      AdvanceConsumer(buf, c, p);
      var m := c;
      c := (c + 1) % |buf|;
      r := Took(buf[m], 0);
    }

    /** `set_putting`. */
    method SetPutting(b: bool)
      requires Valid()
      modifies this
      ensures Valid() && putting == b && buf == old(buf) && c == old(c) && p == old(p)
    {
      putting := b;
    }
  }

  /** Items leave the simple pool in the order they were put: putting `xs`
      into an empty pool and then taking one item gives the first of them. */
  method FirstInFirstOut<T>(xs: seq<T>, size: nat, fill: T) returns (first: Got<T>)
    requires 0 < |xs| < size
    ensures first == Took(xs[0], 0)
  {
    var pool := new SimplePool<T>(size, fill);
    var i := 0;
    while i < |xs|
      invariant 0 <= i <= |xs| && pool.Valid() && |pool.buf| == size && pool.putting
      invariant pool.Items() == xs[..i]
      modifies pool
    {
      var stored := pool.Put(xs[i]);
      assert xs[..i + 1] == xs[..i] + [xs[i]];
      i := i + 1;
    }
    first := pool.Get();
  }
}
