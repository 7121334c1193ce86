/** Model of the `Pool<T>` façade and of its `Pooled` lease
    (include/lab/pool.h). The façade holds the shared storage and issues
    leases; a lease holds an address and, through its `InstanceDeleter`, its
    own reference to the storage, which it uses to return the address when it
    is released. */
module PoolFacade {
  import opened Optional
  import opened SharedStorage

  /** A lease is `Active` until its owner releases it (its destructor runs);
      after that it holds no capability to act. */
  datatype LeaseState = Active | Released

  datatype Lease = Lease(instance: Slot, state: LeaseState)

  /** The façade; its storage is the one every lease it issued refers to. */
  datatype Pool = Pool(storage: SharedPool)

  /** A take through the façade: the façade afterwards and the new lease. */
  datatype Issued = Issued(pool: Pool, lease: Lease)

  /** The lease's storage after a release, and the lease itself. */
  datatype Settled = Settled(storage: SharedPool, lease: Lease)

  /** `Pool()`: fresh, empty storage; there is no pre-population. */
  function NewPool(): (p: Pool)
    ensures GetSize(p) == 0 && GetTaken(p) == 0 && GetAvailable(p) == 0
    ensures Conserved(p.storage)
  {
    Pool(Empty())
  }

  /** `Pool::getSize`, forwarded to the storage. */
  function GetSize(p: Pool): (n: nat)
    ensures n == GetAvailable(p) + GetTaken(p)
    ensures n == |p.storage.available| + |p.storage.taken|
  {
    Size(p.storage)
  }

  /** `Pool::getTaken`, forwarded to the storage. */
  function GetTaken(p: Pool): (n: nat)
    ensures n == |p.storage.taken|
  {
    TakenCount(p.storage)
  }

  /** `Pool::getAvailable`, forwarded to the storage. */
  function GetAvailable(p: Pool): (n: nat)
    ensures n == |p.storage.available|
  {
    AvailableCount(p.storage)
  }

  /** `Pool::takeInstance`: take an address from the storage and wrap it in
      an active lease bound to that storage. */
  function TakeInstance(v: Variant, p: Pool): (i: Issued)
    ensures i.lease.state == Active
    ensures i.lease.instance in i.pool.storage.taken
    ensures i.pool.storage.taken == p.storage.taken + {i.lease.instance}
    ensures GetTaken(i.pool) <= GetTaken(p) + 1
  {
    var t := TakeWith(v, p.storage);
    Issued(Pool(t.pool), Lease(t.instance, Active))
  }

  /** `Pool::returnInstance(std::unique_ptr<T>)`: the caller's pointer is
      released into a private overload whose body is empty, so the storage
      is left exactly as it was and the instance is leaked. */
  function ReturnOwned(p: Pool, instance: Id): (q: Pool)
    ensures q.storage.available == p.storage.available
    ensures q.storage.taken == p.storage.taken
    ensures q.storage.constructed == p.storage.constructed
  {
    p
  }

  /** What releasing a lease needs of its storage: an active lease holding a
      non-null address must find that address among the taken keys. */
  predicate Releasable(storage: SharedPool, lease: Lease) {
    lease.state == Active && lease.instance.Some? ==> lease.instance in storage.taken
  }

  /** The end of a lease. The owning pointer only calls its deleter when it
      is non-null, and the deleter calls `returnInstance` on the storage it
      holds; a released lease does nothing more. */
  function Release(storage: SharedPool, lease: Lease): (r: Settled)
    requires Releasable(storage, lease)
    ensures r.lease == Lease(lease.instance, Released)
    ensures lease.state == Active && lease.instance.Some? ==>
      && r.storage.available == storage.available + [lease.instance]
      && r.storage.taken == storage.taken - {lease.instance}
    ensures !(lease.state == Active && lease.instance.Some?) ==> r.storage == storage
  {
    if lease.state == Active && lease.instance.Some? then
      Settled(Return(storage, lease.instance), Lease(lease.instance, Released))
    else
      Settled(storage, Lease(lease.instance, Released))
  }

  /** Releasing twice is releasing once: the identity goes back at most
      once. */
  lemma ReleaseIdempotent(storage: SharedPool, lease: Lease)
    requires Releasable(storage, lease)
    ensures var r := Release(storage, lease);
      Releasable(r.storage, r.lease) && Release(r.storage, r.lease) == r
  {
  }

  /** Taking a lease and releasing it again leaves `taken` as it was, except
      that a null address handed out stays a key; so `getTaken()` is restored
      exactly when the lease held a real instance or a null key was already
      there. */
  lemma TakeThenRelease(v: Variant, p: Pool)
    requires Inv(p.storage)
    ensures var i := TakeInstance(v, p);
      && Releasable(i.pool.storage, i.lease)
      && var r := Release(i.pool.storage, i.lease);
      && r.storage.taken == p.storage.taken + (if i.lease.instance.None? then {None} else {})
      && (|r.storage.taken| == |p.storage.taken| <==> i.lease.instance.Some? || None in p.storage.taken)
  {
    var i := TakeInstance(v, p);
    var r := Release(i.pool.storage, i.lease);
    TakeYieldsUntaken(v, p.storage);
    if i.lease.instance.Some? {
      assert r.storage.taken == p.storage.taken;
    } else {
      assert r.storage.taken == p.storage.taken + {None};
      if None !in p.storage.taken {
        assert |r.storage.taken| == |p.storage.taken| + 1;
      } else {
        assert r.storage.taken == p.storage.taken;
      }
    }
  }

  /** With the corrected take on storage that keeps every instance, the
      lease always holds a real instance and the round trip restores
      `getTaken()`. */
  lemma CorrectedTakeThenRelease(p: Pool)
    requires Conserved(p.storage)
    ensures var i := TakeInstance(FrontCorrected, p);
      && i.lease.instance.Some?
      && GetTaken(i.pool) == GetTaken(p) + 1
      && var r := Release(i.pool.storage, i.lease);
      && |r.storage.taken| == GetTaken(p)
  {
    TakeFrontConserves(p.storage);
    TakeThenRelease(FrontCorrected, p);
  }
}
