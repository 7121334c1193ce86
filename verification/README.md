# Object pool and region: a Dafny model

This project models the two small state machines of the `lab` library.

`lab::Pool<T>` recycles instances of `T` that are expensive to construct. Its
shared storage (`Pool::SharedPool`) keeps the constructed instances in two
collections:

- `available`: a FIFO queue of owning pointers.
- `taken`: a hash map from an instance's address to its owning pointer.

`takeInstance` constructs an instance only when the queue is empty. It then
moves one instance into `taken` and hands out its address. `returnInstance`
moves an address from `taken` back onto the queue. The `Pool` façade wraps
each handed-out address in a `Pooled` lease: a `unique_ptr` whose deleter
holds its own `shared_ptr` to the storage. Ending a lease that holds a
non-null address calls `returnInstance` on that storage, whether or not the
façade still exists. A lease that holds a null address never calls its
deleter.

`lab::Region` is a set of `size_t` object identifiers with `add`, `remove`,
`contains` and `size`.

Modules:

- `Optional` (optional.dfy): `Option`. A `None` stands for a null pointer.
- `SharedStorage` (shared_pool.dfy): `SharedPool` and its take and return.
  - An instance's address is an `Id`, a `nat` handed out by a counter of
    constructor calls. The counter stands in for the instance constructor.
  - The queue is a `seq<Option<Id>>` with its front at index 0.
  - `taken` is a `set<Option<Id>>`. Each mapped owner points at its own key,
    so the key set carries everything the map holds.
  - `Take` is the take as written. `TakeFront` is the corrected take (see
    Findings). `Variant` chooses between them for the rest of the model.
- `PoolFacade` (pool.dfy): `Pool`, `Lease`, the deleter (`Release`), the no-op
  `returnInstance(unique_ptr)` overload and the forwarded getters.
- `Session` (session.dfy): one client's view of one pool. It holds the
  storage, whether the façade still exists, and every lease issued so far. A
  `Run` applies a sequence of takes, lease releases and the façade's
  destruction to a new pool. The main theorem says that no run reaches the
  undefined return path. This holds even when leases end after the façade
  is gone.
- `Findings` (findings.dfy): concrete client runs that show the take's
  discrepancy.
- `Regions` (region.dfy): `Region` over `set<ObjectId>`, with a reference
  meaning of membership after any history of calls.

Two consequences of the code are worth stating up front:

- `Pool()` takes no initial size (include/lab/pool.h:20, 77), so nothing is
  pre-populated.
- `getSize()` can decrease; see Findings.

## Model

| member | source | states |
|---|---|---|
| SharedStorage.Empty | include/lab/pool.h:47-48 | new storage has size, taken count and available count 0, and every constructed instance (none yet) is accounted for |
| SharedStorage.Refilled | include/lab/pool.h:83-85 | an empty queue gets exactly one freshly constructed instance and the constructor count goes up by one; a non-empty queue is left alone |
| SharedStorage.Take | include/lab/pool.h:82-92 | the handed-out address becomes a key of `taken`, and `taken` gains no other key; the constructor runs only when the queue was empty; the queue loses one slot, or stays empty when the instance was built for this call |
| SharedStorage.TakeFromEmpty | include/lab/pool.h:83-85 | on an empty queue the constructor runs exactly once; the new identity is in neither collection before the call; `taken` grows by exactly one and the queue stays empty |
| SharedStorage.TakeFromSingle | include/lab/pool.h:86-91 | with one queued slot, that slot is handed out, the queue empties and nothing is constructed; `taken` grows by exactly one unless a null key was already there, and always for a real instance |
| SharedStorage.TakeFromSeveral | include/lab/pool.h:87-90 | with two or more queued slots, the back slot is handed out but the front slot is popped; the front instance ends up in neither collection, and a null slot is left at the back |
| SharedStorage.TakeYieldsUntaken | include/lab/pool.h:82-91 | a real instance handed out by either take was not taken before the call and came from the constructor |
| SharedStorage.SizeAfterTake | include/lab/pool.h:101-103 | `getSize()` after a take grows by the constructions and drops by one exactly when the handed-out address was already a taken key |
| SharedStorage.TakePreservesInv | include/lab/pool.h:82-92 | both takes keep queued instances distinct and out of `taken`, with every identity from the constructor |
| SharedStorage.Return | include/lab/pool.h:95-98 | the returned address must be a taken key; afterwards it is not a key, it is the new back of the queue, no other key changes, `taken` shrinks by one and `available` grows by one |
| SharedStorage.ReturnPreservesInv | include/lab/pool.h:95-98 | a return keeps the storage invariant, and keeps every constructed instance when no null is stored |
| SharedStorage.TakeReturnRoundTrip | include/lab/pool.h:82-98 | taking from a one-slot queue and returning that instance restores the storage exactly |
| SharedStorage.TakeFront | include/lab/pool.h:87-90 | the corrected take moves the front slot and pops it; the address becomes a taken key, the constructor runs only on an empty queue, and the queue loses one slot |
| SharedStorage.TakeFrontConserves | include/lab/pool.h:87-90 | with the corrected take, no instance is ever lost, a real instance is always handed out, `taken` grows by exactly one, and `getSize()` grows by exactly the constructions |
| SharedStorage.TakeFrontReturnRotates | include/lab/pool.h:87-98 | with the corrected take, taking and then returning the same instance moves the queue's front to its back and changes nothing else |
| PoolFacade.NewPool | include/lab/pool.h:77 | a new `Pool` has size 0, taken 0 and available 0 |
| PoolFacade.GetSize | include/lab/pool.h:135 | the façade's `getSize()`, forwarded to the storage's (pool.h:101-103), is `getAvailable() + getTaken()`, which is the queue length plus the number of taken keys |
| PoolFacade.GetTaken | include/lab/pool.h:141 | the façade's `getTaken()`, forwarded to the storage's (pool.h:110-113), is the storage's number of taken keys |
| PoolFacade.GetAvailable | include/lab/pool.h:138 | the façade's `getAvailable()`, forwarded to the storage's (pool.h:105-108), is the storage's queue length |
| PoolFacade.TakeInstance | include/lab/pool.h:126 | the façade's take issues an active lease on an address that is now a taken key; `taken` gains only that key, so `getTaken()` grows by at most one |
| PoolFacade.ReturnOwned | include/lab/pool.h:128-132 | returning a caller-owned instance through the façade changes neither `available` nor `taken` nor the constructor count |
| PoolFacade.Release | include/lab/pool.h:120-123 | ending an active lease on a real instance pushes it onto the queue and removes it from `taken`; ending a null or already-ended lease changes nothing; the lease is ended afterwards |
| PoolFacade.ReleaseIdempotent | include/lab/pool.h:120-123 | a lease returns its instance at most once: ending it again changes nothing |
| PoolFacade.TakeThenRelease | include/lab/pool.h:121-126 | a take followed by the end of its lease leaves `taken` as it was, except that a null address handed out stays a key; `getTaken()` is restored exactly when the lease held a real instance or a null key was already there |
| PoolFacade.CorrectedTakeThenRelease | test/source/test_pool.cpp:25-33 | with the corrected take, a lease raises `getTaken()` by one and ending it restores the old value |
| Session.TakeStep | include/lab/pool.h:126 | a take through the live façade adds one active lease, holding a taken key, to the client's leases and leaves the earlier leases alone |
| Session.ReleaseStep | include/lab/pool.h:117-123 | ending the lease at an index marks exactly that lease as ended and does not touch the façade |
| Session.TakeStepInv | include/lab/pool.h:82-92 | after a take, the non-null taken keys are still exactly the addresses held by active leases, one lease each |
| Session.CorrectedTakeStepInv | include/lab/pool.h:87-90 | with the corrected take, a take also keeps every constructed instance and keeps null out of every lease |
| Session.ReleaseStepInv | include/lab/pool.h:95-98 | under the invariant every lease can be ended without the undefined return, and ending it keeps the invariant |
| Session.ApplyInv | include/lab/pool.h:117-132 | no client step taken under the invariant reaches the undefined return path, and each step keeps the invariant |
| Session.RunNeverUndefined | include/lab/pool.h:33-35 | every client run from a new `Pool` stays clear of the undefined return path, including leases that end after the façade is destroyed |
| Session.ReleaseAfterFacadeDropped | include/lab/pool.h:51-58 | a lease ended after the façade is gone has the same effect on the storage as one ended while the façade is alive |
| Session.CorrectedRunKeepsCounts | test/source/test_pool.cpp:131-142 | with the corrected take, every run keeps `getSize()` equal to the number of constructions, and `getTaken()` equal to the number of active leases |
| Findings.ThreeTakes | include/lab/pool.h:82-92 | three takes from a new pool hand out instances 0, 1 and 2, each built for its own take, and leave all three taken |
| Findings.RefilledQueue | include/lab/pool.h:95-98 | ending those three leases in order leaves instances 0, 1, 2 queued front to back and nothing taken |
| Findings.BackTakeLosesInstances | include/lab/pool.h:87-90 | from that queue, three takes hand out instance 2 and then null twice; `getTaken()` is 2 with three active leases, `getSize()` falls from 3 to 2, and instances 0 and 1 are in neither collection |
| Findings.FirstTwoBatches | test/source/test_pool.cpp:128-138 | a batch of one lease and then a batch of two, each ended in order, leave instances 0 and 1 queued and nothing taken |
| Findings.ThirdBatchLeavesNullTaken | test/source/test_pool.cpp:140-142 | a following batch of three hands out a null address; after all three leases end, `getTaken()` is 1 instead of 0 |
| Regions.Empty | include/lab/region.h:9 | a default region has size 0 and contains nothing |
| Regions.Add | source/region.cpp:3-5 | `add(x)` returns true exactly when `x` was absent; afterwards `contains(x)` holds, no other id's membership changes, and the size grows by one exactly when it returned true |
| Regions.Remove | source/region.cpp:7-9 | `remove(x)` returns true exactly when `x` was present; afterwards `contains(x)` is false, no other id's membership changes, and the size drops by one exactly when it returned true |
| Regions.AddThenRemove | source/region.cpp:3-9 | adding an absent id and removing it again restores the region, and both calls return true |
| Regions.RemoveThenAdd | source/region.cpp:3-9 | removing a present id and adding it again restores the region, and both calls return true |
| Regions.AddIdempotent | source/region.cpp:3-5 | adding an id that is already present returns false and changes nothing |
| Regions.ReplayContains | source/region.cpp:11-13 | after any history of adds and removes, `contains(x)` holds exactly when some call added `x` and no later call removed it |
| Regions.ReplaySize | source/region.cpp:15-17 | after any history of calls, `size()` is the number of distinct ids added and not removed since |

## Findings

| source | as written | input that shows it | evidently intended | confidence | as-written member | corrected member |
|---|---|---|---|---|---|---|
| include/lab/pool.h:87-90 | `takeInstance` moves the pointer out of the queue's back slot but pops the front slot; the front instance is destroyed and a null slot stays queued | a new pool; take three leases, end them in order, take three more | move out of and pop the same slot, so no instance is destroyed and `getSize()` never decreases | not executed; high (the counterexample is proved on the model) | Findings.BackTakeLosesInstances | SharedStorage.TakeFrontConserves |
| include/lab/pool.h:87-90 | a lease handed a null address never returns it (the owning pointer does not call its deleter on null), so the null key stays in `taken` | a new pool; batches of one, two and three leases, each ended in order before the next | `getTaken()` is 0 again once every lease has ended | not executed; high (the counterexample is proved on the model) | Findings.ThirdBatchLeavesNullTaken | Session.CorrectedRunKeepsCounts |

## Left out

- Memory lifetime and `shared_ptr` reference counting are not modelled. Dafny values are never freed, so storage that outlives its façade cannot be wrong here. The façade's destruction or move is a `DropFacade` step, after which only leases act on the storage.
- Address reuse is not modelled. An instance destroyed by the front pop frees its memory, and a later construction could get the same address. Here identities come from a counter and are never reused.
- The pooled payload values are not modelled, and neither is access through `operator->` or dereferencing a null lease. Only identities are modelled.
- Copy and move constructors, and move-only or non-movable element types, are not modelled. These are compile-time constraints.
- Calling a moved-from `Pool` dereferences its null storage pointer at run time (include/lab/pool.h:28-29, 135-141). The model treats a move like the façade's destruction: a `DropFacade` step, after which a take through the façade is `NotCallable` and only the leases act on the storage.
- Instance-constructor exceptions and allocation failure are not modelled. The constructor is a counter that always succeeds.
- Thread safety is not modelled; the code has none.
- `Pooled::release()` and `reset(p)` are not modelled. A lease ends only through its deleter.
- Regions.ObjectId: `size_t` is taken to be 64 bits wide, so identifiers are below 2^64; other widths are not modelled.
- The `size_t` overflow of `getAvailable() + getTaken()` is not modelled; counts are unbounded.
- The float payload test and the memory pressure of the 10M-element test are not modelled. The large test's counting pattern is modelled by the Findings lemmas.
- A pre-sized pool is not modelled: the code has no initial-size parameter.
- Hash-map bucket behaviour and the queue's underlying `deque` are not modelled. Only their contents are.
- PoolFacade.TakeInstance: states only that `getTaken()` grows by at most one, not by exactly one. As written, a null address that is already a taken key leaves the count unchanged. The exact cases are in `SharedStorage.TakeFromEmpty`, `SharedStorage.TakeFromSingle` and `SharedStorage.SizeAfterTake`.
