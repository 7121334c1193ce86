/** Model of `lab::Region` (include/lab/region.h, source/region.cpp): a set
    of object identifiers with insertion, removal, membership and size. */
module Regions {

  /** `Region::id_t` is `size_t`; a 64-bit target is assumed. */
  type ObjectId = n: nat | n < 0x1_0000_0000_0000_0000

  datatype Region = Region(contents: set<ObjectId>)

  /** A mutating call's region afterwards, and its `bool` result. */
  datatype Changed = Changed(region: Region, changed: bool)

  /** `Region::contains`. */
  predicate Contains(r: Region, x: ObjectId) {
    x in r.contents
  }

  /** `Region::size`. */
  function Size(r: Region): nat {
    |r.contents|
  }

  /** A default-constructed region: nothing in it. */
  function Empty(): (r: Region)
    ensures Size(r) == 0
    ensures forall x :: !Contains(r, x)
  {
    Region({})
  }

  /** `Region::add`: insert `x`; the result says whether the insertion took
      place, which is exactly when `x` was absent. */
  function Add(r: Region, x: ObjectId): (c: Changed)
    ensures c.changed <==> !Contains(r, x)
    ensures Contains(c.region, x)
    ensures forall y :: y != x ==> (Contains(c.region, y) <==> Contains(r, y))
    ensures Size(c.region) == Size(r) + (if c.changed then 1 else 0)
  {
    var grown := r.contents + {x};
    assert x in r.contents ==> grown == r.contents;
    Changed(Region(grown), x !in r.contents)
  }

  /** `Region::remove`: erase `x`; the result says whether anything was
      erased, which is exactly when `x` was present. */
  function Remove(r: Region, x: ObjectId): (c: Changed)
    ensures c.changed <==> Contains(r, x)
    ensures !Contains(c.region, x)
    ensures forall y :: y != x ==> (Contains(c.region, y) <==> Contains(r, y))
    ensures Size(c.region) == Size(r) - (if c.changed then 1 else 0)
  {
    Changed(Region(r.contents - {x}), x in r.contents)
  }

  /** Adding an absent identifier and removing it again gives back the
      region, and both calls report a change. */
  lemma AddThenRemove(r: Region, x: ObjectId)
    requires !Contains(r, x)
    ensures Add(r, x).changed
    ensures Remove(Add(r, x).region, x) == Changed(r, true)
  {
  }

  /** Removing a present identifier and adding it again gives back the
      region, and both calls report a change. */
  lemma RemoveThenAdd(r: Region, x: ObjectId)
    requires Contains(r, x)
    ensures Remove(r, x).changed
    ensures Add(Remove(r, x).region, x) == Changed(r, true)
  {
  }

  /** A second add of the same identifier reports no change and leaves the
      region as the first add left it. */
  lemma AddIdempotent(r: Region, x: ObjectId)
    ensures var c := Add(r, x); Add(c.region, x) == Changed(c.region, false)
  {
  }

  /** One call on a region, its result discarded. */
  datatype Op = AddOp(id: ObjectId) | RemoveOp(id: ObjectId)

  function Step(r: Region, op: Op): Region {
    match op
    case AddOp(x) => Add(r, x).region
    case RemoveOp(x) => Remove(r, x).region
  }

  /** The region a default-constructed region becomes after `ops`, in order. */
  function Replay(ops: seq<Op>): Region {
    if |ops| == 0 then Empty() else Step(Replay(ops[..|ops| - 1]), ops[|ops| - 1])
  }

  /** The reference meaning of membership after a history of calls: some
      call added `x`, and no later call removed it. */
  ghost predicate LastAdded(ops: seq<Op>, x: ObjectId) {
    exists i :: 0 <= i < |ops| && ops[i] == AddOp(x) && forall j :: i < j < |ops| ==> ops[j] != RemoveOp(x)
  }

  /** The reference meaning after one more call: that call added `x`, or it
      did not remove `x` and `x` was already held. */
  lemma LastAddedSnoc(ops: seq<Op>, x: ObjectId)
    requires |ops| > 0
    ensures var n := |ops|;
      LastAdded(ops, x) <==>
        ops[n - 1] == AddOp(x) || (ops[n - 1] != RemoveOp(x) && LastAdded(ops[..n - 1], x))
  {
    var n := |ops|;
    var init := ops[..n - 1];
    if LastAdded(ops, x) && ops[n - 1] != AddOp(x) {
      var i :| 0 <= i < n && ops[i] == AddOp(x) && forall j :: i < j < n ==> ops[j] != RemoveOp(x);
      assert i < n - 1;
      assert init[i] == AddOp(x);
      forall j | i < j < n - 1
        ensures init[j] != RemoveOp(x)
      {
        assert init[j] == ops[j];
      }
    }
    if ops[n - 1] != RemoveOp(x) && LastAdded(init, x) {
      var i :| 0 <= i < n - 1 && init[i] == AddOp(x) && forall j :: i < j < n - 1 ==> init[j] != RemoveOp(x);
      assert ops[i] == AddOp(x);
      forall j | i < j < n
        ensures ops[j] != RemoveOp(x)
      {
        if j < n - 1 {
          assert ops[j] == init[j];
        }
      }
    }
  }

  /** `contains` after any history of adds and removes is exactly the
      reference meaning: added, and not removed since. */
  lemma {:induction false} ReplayContains(ops: seq<Op>, x: ObjectId)
    ensures Contains(Replay(ops), x) <==> LastAdded(ops, x)
    decreases |ops|
  {
    if |ops| > 0 {
      var init := ops[..|ops| - 1];
      ReplayContains(init, x);
      LastAddedSnoc(ops, x);
      assert Replay(ops) == Step(Replay(init), ops[|ops| - 1]);
    }
  }

  /** `size` after any history of calls is the number of distinct
      identifiers that were added and not removed since. */
  lemma ReplaySize(ops: seq<Op>)
    ensures Size(Replay(ops)) == |set i | 0 <= i < |ops| && LastAdded(ops, ops[i].id) :: ops[i].id|
  {
    var held := set i | 0 <= i < |ops| && LastAdded(ops, ops[i].id) :: ops[i].id;
    forall x | x in Replay(ops).contents
      ensures x in held
    {
      ReplayContains(ops, x);
      var i :| 0 <= i < |ops| && ops[i] == AddOp(x) && forall j :: i < j < |ops| ==> ops[j] != RemoveOp(x);
      assert ops[i].id == x;
    }
    forall x | x in held
      ensures x in Replay(ops).contents
    {
      ReplayContains(ops, x);
    }
    assert Replay(ops).contents == held;
  }
}
