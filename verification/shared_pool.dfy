/** Model of `Pool<T>::SharedPool` (include/lab/pool.h): the storage that
    splits the constructed instances into an `available` queue and a `taken`
    map keyed by address. */
module SharedStorage {
  import opened Optional

  /** Identity of one constructed instance; it stands in for the instance's
      address. Identities come from a counter, so none is ever reused. */
  type Id = nat

  /** A pointer as the pool stores it: `None` is a null, moved-from pointer. */
  type Slot = Option<Id>

  /** `available` is the queue, front at index 0 and back at the end.
      `taken` is the key set of the address-keyed map: each mapped owner
      points at its own key, so the keys say everything about the map.
      `constructed` counts the calls of the instance constructor and is also
      the next fresh identity. */
  datatype SharedPool = SharedPool(available: seq<Slot>, taken: set<Slot>, constructed: nat)

  /** The storage after a take, and the address the take hands out. */
  datatype Taken = Taken(pool: SharedPool, instance: Slot)

  /** Which queue end a take moves its instance out of: the back, as the
      code does, or the front, the end it pops. */
  datatype Variant = AsWritten | FrontCorrected

  function AvailableCount(s: SharedPool): nat { |s.available| }

  function TakenCount(s: SharedPool): nat { |s.taken| }

  function Size(s: SharedPool): nat { AvailableCount(s) + TakenCount(s) }

  /** Every non-null queue slot holds a distinct instance that is not taken,
      and every identity in the storage came from the constructor. */
  predicate Inv(s: SharedPool) {
    && (forall i, j :: 0 <= i < j < |s.available| && s.available[i].Some? ==> s.available[i] != s.available[j])
    && (forall i :: 0 <= i < |s.available| && s.available[i].Some? ==> s.available[i] !in s.taken)
    && (forall i :: 0 <= i < |s.available| && s.available[i].Some? ==> s.available[i].value < s.constructed)
    && (forall x :: x in s.taken && x.Some? ==> x.value < s.constructed)
  }

  /** No null pointer is stored anywhere. */
  predicate NoNull(s: SharedPool) {
    && (forall i :: 0 <= i < |s.available| ==> s.available[i].Some?)
    && None !in s.taken
  }

  /** What the pool is meant to keep: every instance ever constructed is
      still owned by exactly one of the two collections. */
  predicate Conserved(s: SharedPool) {
    Inv(s) && NoNull(s) && Size(s) == s.constructed
  }

  /** The storage a new `Pool` creates: both collections empty. */
  function Empty(): (s: SharedPool)
    ensures Size(s) == 0 && TakenCount(s) == 0 && AvailableCount(s) == 0
    ensures Conserved(s)
  {
    SharedPool([], {}, 0)
  }

  /** The queue after `takeInstance` has made sure it is not empty, together
      with the constructor count. */
  function Refilled(s: SharedPool): (q: SharedPool)
    ensures |q.available| >= 1
    ensures |s.available| == 0 ==> q.available == [Some(s.constructed)] && q.constructed == s.constructed + 1
    ensures |s.available| > 0 ==> q.available == s.available && q.constructed == s.constructed
    ensures q.taken == s.taken
  {
    if |s.available| < 1 then
      SharedPool(s.available + [Some(s.constructed)], s.taken, s.constructed + 1)
    else
      s
  }

  /** `SharedPool::takeInstance` as written: construct one instance when the
      queue is empty, move the BACK slot's pointer into `taken` (leaving a
      null behind in that slot), then pop the FRONT slot. */
  function Take(s: SharedPool): (t: Taken)
    ensures t.instance in t.pool.taken
    ensures t.pool.taken == s.taken + {t.instance}
    ensures t.pool.constructed == s.constructed + (if |s.available| == 0 then 1 else 0)
    ensures AvailableCount(t.pool) == if |s.available| == 0 then 0 else |s.available| - 1
  {
    var q := Refilled(s);
    var back := |q.available| - 1;
    var instance := q.available[back];
    var movedFrom := q.available[back := None];
    Taken(SharedPool(movedFrom[1..], s.taken + {instance}, q.constructed), instance)
  }

  /** The evidently intended take: move the FRONT slot's pointer into
      `taken` and pop that same slot. */
  function TakeFront(s: SharedPool): (t: Taken)
    ensures t.instance in t.pool.taken
    ensures t.pool.taken == s.taken + {t.instance}
    ensures t.pool.constructed == s.constructed + (if |s.available| == 0 then 1 else 0)
    ensures AvailableCount(t.pool) == if |s.available| == 0 then 0 else |s.available| - 1
  {
    var q := Refilled(s);
    var instance := q.available[0];
    Taken(SharedPool(q.available[1..], s.taken + {instance}, q.constructed), instance)
  }

  function TakeWith(v: Variant, s: SharedPool): Taken {
    match v
    case AsWritten => Take(s)
    case FrontCorrected => TakeFront(s)
  }

  /** `SharedPool::returnInstance`: extract the entry for `instance` from
      `taken` and push its owner onto the back of the queue. Extracting a
      key that is not there yields an empty node whose owner is then read,
      which is undefined behaviour, so membership is required. */
  function Return(s: SharedPool, instance: Slot): (r: SharedPool)
    requires instance in s.taken
    ensures instance !in r.taken
    ensures r.available == s.available + [instance]
    ensures forall x :: x != instance ==> (x in r.taken <==> x in s.taken)
    ensures TakenCount(r) == TakenCount(s) - 1
    ensures AvailableCount(r) == AvailableCount(s) + 1
    ensures Size(r) == Size(s) && r.constructed == s.constructed
  {
    SharedPool(s.available + [instance], s.taken - {instance}, s.constructed)
  }

  /** Taking from an empty queue calls the constructor exactly once; the new
      identity is in no collection before the call, and `taken` grows by
      one. Both variants agree here. */
  lemma TakeFromEmpty(v: Variant, s: SharedPool)
    requires Inv(s) && |s.available| == 0
    ensures var t := TakeWith(v, s);
      && t.instance == Some(s.constructed)
      && t.pool.constructed == s.constructed + 1
      && t.instance !in s.taken
      && t.pool.available == []
      && TakenCount(t.pool) == TakenCount(s) + 1
  {
    var t := TakeWith(v, s);
    assert t.instance == Some(s.constructed);
  }

  /** With one queued slot, the take hands out that slot, empties the queue
      and constructs nothing; `taken` grows by exactly one unless that slot
      was a null that is already a key. */
  lemma TakeFromSingle(s: SharedPool)
    requires Inv(s) && |s.available| == 1
    ensures var t := Take(s);
      && t.instance == s.available[0]
      && t.pool.available == []
      && t.pool.constructed == s.constructed
      && TakenCount(t.pool) == TakenCount(s) + (if t.instance in s.taken then 0 else 1)
      && (t.instance.Some? ==> TakenCount(t.pool) == TakenCount(s) + 1)
  {
    var t := Take(s);
    assert t.instance == s.available[0];
    if t.instance in s.taken {
      assert t.pool.taken == s.taken;
    }
  }

  /** With two or more queued slots, the code as written hands out the back
      slot but pops the front one: the front instance ends up in neither
      collection (it is destroyed), and a null slot is left at the back. */
  lemma TakeFromSeveral(s: SharedPool)
    requires Inv(s) && |s.available| >= 2
    ensures var t := Take(s); var n := |s.available|;
      && t.instance == s.available[n - 1]
      && t.pool.available == s.available[1..n - 1] + [None]
      && t.pool.constructed == s.constructed
      && (s.available[0].Some? ==> s.available[0] !in t.pool.taken && s.available[0] !in t.pool.available)
  {
    var t := Take(s);
    var n := |s.available|;
    assert t.pool.available == s.available[n - 1 := None][1..];
    assert s.available[n - 1 := None][1..] == s.available[1..n - 1] + [None];
    if s.available[0].Some? {
      assert s.available[0] != s.available[n - 1];
      forall k | 0 <= k < |t.pool.available|
        ensures t.pool.available[k] != s.available[0]
      {
        if k < n - 2 {
          assert t.pool.available[k] == s.available[k + 1];
        }
      }
    }
  }

  /** A non-null instance handed out by either take was not taken before. */
  lemma TakeYieldsUntaken(v: Variant, s: SharedPool)
    requires Inv(s)
    ensures var t := TakeWith(v, s);
      t.instance.Some? ==> t.instance !in s.taken && t.instance.value < t.pool.constructed
  {
    var t := TakeWith(v, s);
    if |s.available| == 0 {
      TakeFromEmpty(v, s);
    } else if v.AsWritten? {
      assert t.instance == s.available[|s.available| - 1];
    } else {
      assert t.instance == s.available[0];
    }
  }

  /** `getSize()` after a take: it grows by the constructions and shrinks by
      one when the handed-out address was already a key of `taken`. */
  lemma SizeAfterTake(v: Variant, s: SharedPool)
    requires Inv(s)
    ensures var t := TakeWith(v, s);
      Size(t.pool) + (if t.instance in s.taken then 1 else 0)
        == Size(s) + (t.pool.constructed - s.constructed)
  {
    var t := TakeWith(v, s);
    if |s.available| == 0 {
      TakeFromEmpty(v, s);
    } else if t.instance in s.taken {
      assert t.pool.taken == s.taken;
    } else {
      assert |t.pool.taken| == |s.taken| + 1;
    }
  }

  lemma TakePreservesInv(v: Variant, s: SharedPool)
    requires Inv(s)
    ensures Inv(TakeWith(v, s).pool)
  {
    var t := TakeWith(v, s);
    var p := t.pool;
    TakeYieldsUntaken(v, s);
    if |s.available| == 0 {
      TakeFromEmpty(v, s);
    } else if v.AsWritten? && |s.available| >= 2 {
      TakeFromSeveral(s);
      var n := |s.available|;
      forall k | 0 <= k < |p.available| && p.available[k].Some?
        ensures p.available[k] == s.available[k + 1]
        ensures p.available[k] != t.instance
      {
        assert k < n - 2;
      }
    } else if v.FrontCorrected? {
      forall k | 0 <= k < |p.available|
        ensures p.available[k] == s.available[k + 1]
      {
      }
    }
  }

  lemma ReturnPreservesInv(s: SharedPool, instance: Slot)
    requires Inv(s) && instance in s.taken
    ensures Inv(Return(s, instance))
    ensures Conserved(s) ==> Conserved(Return(s, instance))
  {
    var r := Return(s, instance);
    forall i | 0 <= i < |s.available| && s.available[i].Some?
      ensures s.available[i] != instance
    {
    }
  }

  /** The corrected take keeps every constructed instance: it always hands
      out a real instance, `taken` grows by exactly one, and `getSize()`
      grows by exactly the number of constructions. */
  lemma TakeFrontConserves(s: SharedPool)
    requires Conserved(s)
    ensures var t := TakeFront(s);
      && Conserved(t.pool)
      && t.instance.Some?
      && t.instance !in t.pool.available
      && TakenCount(t.pool) == TakenCount(s) + 1
      && Size(t.pool) == Size(s) + (t.pool.constructed - s.constructed)
  {
    var t := TakeFront(s);
    TakePreservesInv(FrontCorrected, s);
    TakeYieldsUntaken(FrontCorrected, s);
    SizeAfterTake(FrontCorrected, s);
    if |s.available| == 0 {
      TakeFromEmpty(FrontCorrected, s);
    } else {
      assert t.instance == s.available[0];
      forall k | 0 <= k < |t.pool.available|
        ensures t.pool.available[k] == s.available[k + 1]
      {
      }
    }
  }

  /** Returning the instance a take handed out from a one-slot queue
      restores the storage exactly. */
  lemma TakeReturnRoundTrip(s: SharedPool)
    requires Inv(s) && |s.available| == 1 && s.available[0].Some?
    ensures var t := Take(s); Return(t.pool, t.instance) == s
  {
    var t := Take(s);
    TakeFromSingle(s);
    assert Return(t.pool, t.instance).available == [s.available[0]] == s.available;
  }

  /** With the corrected take, taking from a non-empty queue and returning
      the same instance rotates the queue by one and changes nothing else. */
  lemma TakeFrontReturnRotates(s: SharedPool)
    requires Inv(s) && |s.available| >= 1 && s.available[0].Some?
    ensures var t := TakeFront(s);
      Return(t.pool, t.instance) == s.(available := s.available[1..] + [s.available[0]])
  {
    var t := TakeFront(s);
    assert t.instance == s.available[0];
    assert t.instance !in s.taken;
  }
}
