/** Concrete uses of the pool as written that show where its take departs
    from what the pool promises: it moves the back slot out of the queue but
    pops the front one. Each lemma drives the façade and its leases exactly as
    a client does. */
module Findings {
  import opened Optional
  import opened SharedStorage
  import opened PoolFacade

  /** On an empty queue the take builds the next instance and hands it out. */
  lemma TakeFromEmptyQueue(taken: set<Slot>, c: nat)
    ensures TakeInstance(AsWritten, Pool(SharedPool([], taken, c)))
      == Issued(Pool(SharedPool([], taken + {Some(c)}, c + 1)), Lease(Some(c), Active))
  {
    var t := Take(SharedPool([], taken, c));
    assert t.pool.available == [];
  }

  /** Three takes from a new pool hand out instances 0, 1 and 2, each built
      for its take, and leave them all taken. */
  lemma ThreeTakes()
    ensures
      var i1 := TakeInstance(AsWritten, NewPool());
      var i2 := TakeInstance(AsWritten, i1.pool);
      var i3 := TakeInstance(AsWritten, i2.pool);
      && i1.lease == Lease(Some(0), Active)
      && i2.lease == Lease(Some(1), Active)
      && i3.lease == Lease(Some(2), Active)
      && i3.pool.storage == SharedPool([], {Some(0), Some(1), Some(2)}, 3)
  {
    TakeFromEmptyQueue({}, 0);
    TakeFromEmptyQueue({Some(0)}, 1);
    TakeFromEmptyQueue({Some(0), Some(1)}, 2);
    assert {Some(0)} + {Some(1)} == {Some(0), Some(1)};
    assert {Some(0), Some(1)} + {Some(2)} == {Some(0), Some(1), Some(2)};
  }

  /** Ending those three leases in order queues instances 0, 1 and 2, front
      to back, and leaves nothing taken. */
  lemma RefilledQueue()
    ensures
      var s := SharedPool([], {Some(0), Some(1), Some(2)}, 3);
      var r1 := Release(s, Lease(Some(0), Active));
      var r2 := Release(r1.storage, Lease(Some(1), Active));
      && Releasable(r2.storage, Lease(Some(2), Active))
      && Release(r2.storage, Lease(Some(2), Active)).storage == SharedPool([Some(0), Some(1), Some(2)], {}, 3)
  {
    var s := SharedPool([], {Some(0), Some(1), Some(2)}, 3);
    var r1 := Release(s, Lease(Some(0), Active));
    assert r1.storage == SharedPool([Some(0)], {Some(1), Some(2)}, 3);
    var r2 := Release(r1.storage, Lease(Some(1), Active));
    assert r2.storage == SharedPool([Some(0), Some(1)], {Some(2)}, 3);
    var r3 := Release(r2.storage, Lease(Some(2), Active));
    assert r3.storage.taken == {};
  }

  /** From that queue, three more takes: the first hands out instance 2 and
      destroys instance 0, the second hands out a null address and destroys
      instance 1, the third hands out a null address again. Three leases are
      active, but `getTaken()` is 2 and `getSize()` has dropped from 3 to 2;
      instances 0 and 1 are in neither collection. */
  lemma BackTakeLosesInstances()
    ensures
      var p := Pool(SharedPool([Some(0), Some(1), Some(2)], {}, 3));
      var i1 := TakeInstance(AsWritten, p);
      var i2 := TakeInstance(AsWritten, i1.pool);
      var i3 := TakeInstance(AsWritten, i2.pool);
      && GetSize(p) == 3
      && i1.lease.instance == Some(2) && i2.lease.instance == None && i3.lease.instance == None
      && GetTaken(i3.pool) == 2
      && GetSize(i3.pool) == 2
      && Some(0) !in i3.pool.storage.taken && Some(1) !in i3.pool.storage.taken
      && GetAvailable(i3.pool) == 0
  {
    var p := Pool(SharedPool([Some(0), Some(1), Some(2)], {}, 3));
    var i1 := TakeInstance(AsWritten, p);
    assert i1.pool.storage == SharedPool([Some(1), None], {Some(2)}, 3);
    var i2 := TakeInstance(AsWritten, i1.pool);
    assert i2.pool.storage == SharedPool([None], {Some(2), None}, 3);
    var i3 := TakeInstance(AsWritten, i2.pool);
    assert i3.pool.storage == SharedPool([], {Some(2), None}, 3);
  }

  /** A batch of one lease and then a batch of two from a new pool, each
      batch ended in order before the next: the queue then holds both
      instances, front to back, and nothing is taken. */
  lemma FirstTwoBatches()
    ensures
      var i1 := TakeInstance(AsWritten, NewPool());
      var r1 := Release(i1.pool.storage, i1.lease);
      var i2 := TakeInstance(AsWritten, Pool(r1.storage));
      var i3 := TakeInstance(AsWritten, i2.pool);
      && i2.lease == Lease(Some(0), Active)
      && i3.lease == Lease(Some(1), Active)
      && var r2 := Release(i3.pool.storage, i2.lease);
      && var r3 := Release(r2.storage, i3.lease);
      && r3.storage == SharedPool([Some(0), Some(1)], {}, 2)
  {
    var i1 := TakeInstance(AsWritten, NewPool());
    var r1 := Release(i1.pool.storage, i1.lease);
    assert r1.storage == SharedPool([Some(0)], {}, 1);
    var i2 := TakeInstance(AsWritten, Pool(r1.storage));
    assert i2.pool.storage == SharedPool([], {Some(0)}, 1);
    var i3 := TakeInstance(AsWritten, i2.pool);
    assert i3.pool.storage == SharedPool([], {Some(0), Some(1)}, 2);
    var r2 := Release(i3.pool.storage, i2.lease);
    assert r2.storage == SharedPool([Some(0)], {Some(1)}, 2);
  }

  /** The third batch, of three leases, on the pool the first two batches
      leave: afterwards all three leases have ended, yet `getTaken()` is 1,
      because the null address the second lease was handed is never
      returned. */
  lemma ThirdBatchLeavesNullTaken()
    ensures
      var p := Pool(SharedPool([Some(0), Some(1)], {}, 2));
      var i4 := TakeInstance(AsWritten, p);
      var i5 := TakeInstance(AsWritten, i4.pool);
      var i6 := TakeInstance(AsWritten, i5.pool);
      && GetTaken(p) == 0
      && i4.lease.instance == Some(1) && i5.lease.instance == None && i6.lease.instance == Some(2)
      && Releasable(i6.pool.storage, i4.lease)
      && var r4 := Release(i6.pool.storage, i4.lease);
      && Releasable(r4.storage, i5.lease)
      && var r5 := Release(r4.storage, i5.lease);
      && Releasable(r5.storage, i6.lease)
      && var r6 := Release(r5.storage, i6.lease);
      && r6.storage.taken == {None}
      && GetTaken(Pool(r6.storage)) == 1
  {
    var p := Pool(SharedPool([Some(0), Some(1)], {}, 2));
    var i4 := TakeInstance(AsWritten, p);
    assert i4.pool.storage == SharedPool([None], {Some(1)}, 2);
    var i5 := TakeInstance(AsWritten, i4.pool);
    assert i5.pool.storage == SharedPool([], {Some(1), None}, 2);
    var i6 := TakeInstance(AsWritten, i5.pool);
    assert i6.pool.storage == SharedPool([], {Some(1), None, Some(2)}, 3);
    var r4 := Release(i6.pool.storage, i4.lease);
    assert r4.storage == SharedPool([Some(1)], {None, Some(2)}, 3);
    var r5 := Release(r4.storage, i5.lease);
    var r6 := Release(r5.storage, i6.lease);
    assert r6.storage == SharedPool([Some(1), Some(2)], {None}, 3);
  }
}
