/** A client of one pool, seen whole: the shared storage, whether the façade
    still exists, and every lease the client has been issued. A run is a
    sequence of takes, lease releases and the destruction of the façade; the
    theorems say that such a run never reaches the undefined return path of
    the storage, and what it keeps of the counters. */
module Session {
  import opened Optional
  import opened SharedStorage
  import opened PoolFacade

  /** `leases` lists the leases in the order they were issued; a released
      lease stays in the list, marked `Released`. */
  datatype World = World(storage: SharedPool, facadeAlive: bool, leases: seq<Lease>)

  /** What a client can do: take a lease through the façade, end the lease
      at an index, or destroy (or move from) the façade. */
  datatype Step = TakeLease | ReleaseLease(index: nat) | DropFacade

  /** `NotCallable`: the step names an object the client does not have (a
      destroyed façade, a lease never issued). `Undefined`: the step reaches
      the storage's undefined return path. */
  datatype Outcome = Ok(world: World) | NotCallable | Undefined

  function Initial(): World {
    World(Empty(), true, [])
  }

  /** The non-null addresses held by active leases. */
  function Held(leases: seq<Lease>): set<Slot> {
    set i | 0 <= i < |leases| && leases[i].state == Active && leases[i].instance.Some? :: leases[i].instance
  }

  /** The number of active leases. */
  function Outstanding(leases: seq<Lease>): nat {
    if |leases| == 0 then 0
    else Outstanding(leases[..|leases| - 1]) + (if leases[|leases| - 1].state == Active then 1 else 0)
  }

  /** No real instance is held by two active leases. */
  predicate UniqueHolders(leases: seq<Lease>) {
    forall i, j ::
      0 <= i < j < |leases| && leases[i].state == Active && leases[j].state == Active && leases[i].instance.Some?
      ==> leases[i].instance != leases[j].instance
  }

  /** The non-null taken keys are exactly the addresses the active leases
      hold, one lease each. */
  predicate WorldInv(w: World) {
    && Inv(w.storage)
    && w.storage.taken - {None} == Held(w.leases)
    && UniqueHolders(w.leases)
  }

  /** What the corrected take keeps in addition: no null anywhere, and every
      constructed instance still in the storage. */
  predicate CorrectedInv(w: World) {
    && WorldInv(w)
    && Conserved(w.storage)
    && forall i :: 0 <= i < |w.leases| ==> w.leases[i].instance.Some?
  }

  /** `Pool::takeInstance` on the live façade; the lease joins the client's
      list. */
  function TakeStep(v: Variant, w: World): (w': World)
    requires w.facadeAlive
    ensures w'.facadeAlive
    ensures |w'.leases| == |w.leases| + 1 && w'.leases[..|w.leases|] == w.leases
    ensures w'.leases[|w.leases|].state == Active
    ensures w'.leases[|w.leases|].instance in w'.storage.taken
  {
    var i := TakeInstance(v, Pool(w.storage));
    World(i.pool.storage, true, w.leases + [i.lease])
  }

  /** The end of the lease at index `k`, through the storage the lease
      refers to; the façade plays no part. */
  function ReleaseStep(w: World, k: nat): (w': World)
    requires k < |w.leases| && Releasable(w.storage, w.leases[k])
    ensures w'.leases == w.leases[k := Lease(w.leases[k].instance, Released)]
    ensures w'.facadeAlive == w.facadeAlive
  {
    var r := Release(w.storage, w.leases[k]);
    World(r.storage, w.facadeAlive, w.leases[k := r.lease])
  }

  function Apply(v: Variant, w: World, step: Step): Outcome {
    match step
    case TakeLease =>
      if w.facadeAlive then Ok(TakeStep(v, w)) else NotCallable
    case ReleaseLease(k) =>
      if k >= |w.leases| then NotCallable
      else if Releasable(w.storage, w.leases[k]) then Ok(ReleaseStep(w, k))
      else Undefined
    case DropFacade =>
      if w.facadeAlive then Ok(w.(facadeAlive := false)) else NotCallable
  }

  /** The outcome of a run from a freshly constructed `Pool`. */
  function Run(v: Variant, steps: seq<Step>): Outcome {
    if |steps| == 0 then Ok(Initial())
    else
      match Run(v, steps[..|steps| - 1])
      case Ok(w) => Apply(v, w, steps[|steps| - 1])
      case other => other
  }

  /** A run one step longer applies that step to the shorter run's world. */
  lemma RunSnoc(v: Variant, steps: seq<Step>, w: World, step: Step)
    requires Run(v, steps) == Ok(w)
    ensures Run(v, steps + [step]) == Apply(v, w, step)
  {
  }

  lemma HeldAppend(leases: seq<Lease>, l: Lease)
    ensures Held(leases + [l]) == Held(leases) + (if l.state == Active && l.instance.Some? then {l.instance} else {})
  {
    var ls := leases + [l];
    forall x | x in Held(ls)
      ensures x in Held(leases) || (l.state == Active && l.instance.Some? && x == l.instance)
    {
      var i :| 0 <= i < |ls| && ls[i].state == Active && ls[i].instance.Some? && ls[i].instance == x;
      if i < |leases| {
        assert leases[i] == ls[i];
      }
    }
    forall x | x in Held(leases)
      ensures x in Held(ls)
    {
      var i :| 0 <= i < |leases| && leases[i].state == Active && leases[i].instance.Some? && leases[i].instance == x;
      assert ls[i] == leases[i];
    }
    if l.state == Active && l.instance.Some? {
      assert ls[|leases|] == l;
    }
  }

  /** Ending the lease at `k` removes exactly its address from `Held`. */
  lemma HeldRelease(leases: seq<Lease>, k: nat)
    requires UniqueHolders(leases) && k < |leases|
    ensures var l := leases[k];
      Held(leases[k := Lease(l.instance, Released)])
        == Held(leases) - (if l.state == Active && l.instance.Some? then {l.instance} else {})
  {
    var l := leases[k];
    var ls := leases[k := Lease(l.instance, Released)];
    var gone: set<Slot> := if l.state == Active && l.instance.Some? then {l.instance} else {};
    forall x | x in Held(ls)
      ensures x in Held(leases) && x !in gone
    {
      var i :| 0 <= i < |ls| && ls[i].state == Active && ls[i].instance.Some? && ls[i].instance == x;
      assert i != k && ls[i] == leases[i];
    }
    forall x | x in Held(leases) && x !in gone
      ensures x in Held(ls)
    {
      var i :| 0 <= i < |leases| && leases[i].state == Active && leases[i].instance.Some? && leases[i].instance == x;
      assert i != k;
      assert ls[i] == leases[i];
    }
  }

  lemma {:induction false} OutstandingRelease(leases: seq<Lease>, k: nat)
    requires k < |leases|
    ensures var l := leases[k];
      Outstanding(leases[k := Lease(l.instance, Released)])
        == Outstanding(leases) - (if l.state == Active then 1 else 0)
    decreases |leases|
  {
    var l := leases[k];
    var ls := leases[k := Lease(l.instance, Released)];
    var n := |leases|;
    if k == n - 1 {
      assert ls[..n - 1] == leases[..n - 1];
    } else {
      assert ls[..n - 1] == leases[..n - 1][k := Lease(l.instance, Released)];
      OutstandingRelease(leases[..n - 1], k);
    }
  }

  /** With every lease holding a real instance, one lease per instance, the
      held addresses are as many as the active leases. */
  lemma {:induction false} HeldCard(leases: seq<Lease>)
    requires UniqueHolders(leases)
    requires forall i :: 0 <= i < |leases| ==> leases[i].instance.Some?
    ensures |Held(leases)| == Outstanding(leases)
    decreases |leases|
  {
    var n := |leases|;
    if n > 0 {
      var init := leases[..n - 1];
      var l := leases[n - 1];
      assert init + [l] == leases;
      HeldAppend(init, l);
      HeldCard(init);
      if l.state == Active {
        forall x | x in Held(init)
          ensures x != l.instance
        {
          var i :| 0 <= i < |init| && init[i].state == Active && init[i].instance.Some? && init[i].instance == x;
          assert leases[i] == init[i];
        }
      }
    }
  }

  /** A lease on an address no active lease holds keeps holders unique. */
  lemma UniqueAppend(leases: seq<Lease>, l: Lease)
    requires UniqueHolders(leases)
    requires l.instance.Some? ==> l.instance !in Held(leases)
    ensures UniqueHolders(leases + [l])
  {
    var ls := leases + [l];
    forall i, j | 0 <= i < j < |ls| && ls[i].state == Active && ls[j].state == Active && ls[i].instance.Some?
      ensures ls[i].instance != ls[j].instance
    {
      assert ls[i] == leases[i];
      if j == |leases| {
        assert ls[i].instance in Held(leases);
      } else {
        assert ls[j] == leases[j];
      }
    }
  }

  lemma TakeStepInv(v: Variant, w: World)
    requires WorldInv(w) && w.facadeAlive
    ensures WorldInv(TakeStep(v, w))
  {
    var t := TakeWith(v, w.storage);
    var l := Lease(t.instance, Active);
    assert TakeStep(v, w) == World(t.pool, true, w.leases + [l]);
    assert Inv(t.pool) by {
      TakePreservesInv(v, w.storage);
    }
    assert l.instance.Some? ==> l.instance !in Held(w.leases) by {
      TakeYieldsUntaken(v, w.storage);
    }
    assert t.pool.taken - {None} == Held(w.leases + [l]) by {
      HeldAppend(w.leases, l);
    }
    assert UniqueHolders(w.leases + [l]) by {
      UniqueAppend(w.leases, l);
    }
  }

  lemma CorrectedTakeStepInv(w: World)
    requires CorrectedInv(w) && w.facadeAlive
    ensures CorrectedInv(TakeStep(FrontCorrected, w))
  {
    var t := TakeFront(w.storage);
    var w' := TakeStep(FrontCorrected, w);
    assert w' == World(t.pool, true, w.leases + [Lease(t.instance, Active)]);
    TakeStepInv(FrontCorrected, w);
    TakeFrontConserves(w.storage);
  }

  /** Under the invariant every lease can be released, and releasing keeps
      the invariant. */
  lemma ReleaseStepInv(w: World, k: nat)
    requires WorldInv(w) && k < |w.leases|
    ensures Releasable(w.storage, w.leases[k])
    ensures WorldInv(ReleaseStep(w, k))
    ensures CorrectedInv(w) ==> CorrectedInv(ReleaseStep(w, k))
  {
    var l := w.leases[k];
    if l.state == Active && l.instance.Some? {
      assert l.instance in Held(w.leases);
      ReturnPreservesInv(w.storage, l.instance);
    }
    HeldRelease(w.leases, k);
    var w' := ReleaseStep(w, k);
    assert w'.storage.taken - {None} == Held(w'.leases);
  }

  /** No step taken under the invariant reaches the undefined return path,
      and every step that runs keeps the invariant. */
  lemma ApplyInv(v: Variant, w: World, step: Step)
    requires WorldInv(w)
    ensures Apply(v, w, step) != Undefined
    ensures Apply(v, w, step).Ok? ==> WorldInv(Apply(v, w, step).world)
    ensures CorrectedInv(w) && v == FrontCorrected && Apply(v, w, step).Ok? ==>
      CorrectedInv(Apply(v, w, step).world)
  {
    match step
    case TakeLease =>
      if w.facadeAlive {
        TakeStepInv(v, w);
        if CorrectedInv(w) && v == FrontCorrected {
          CorrectedTakeStepInv(w);
        }
      }
    case ReleaseLease(k) =>
      if k < |w.leases| {
        ReleaseStepInv(w, k);
      }
    case DropFacade =>
  }

  /** Every run of the façade and its leases, including releases after the
      façade is gone, stays clear of the undefined return path. */
  lemma {:induction false} RunNeverUndefined(v: Variant, steps: seq<Step>)
    ensures Run(v, steps) != Undefined
    ensures Run(v, steps).Ok? ==> WorldInv(Run(v, steps).world)
    decreases |steps|
  {
    if |steps| > 0 {
      RunNeverUndefined(v, steps[..|steps| - 1]);
      if Run(v, steps[..|steps| - 1]).Ok? {
        ApplyInv(v, Run(v, steps[..|steps| - 1]).world, steps[|steps| - 1]);
      }
    }
  }

  /** A lease ended after the façade is gone does exactly what it would have
      done with the façade alive. */
  lemma ReleaseAfterFacadeDropped(v: Variant, w: World, k: nat)
    requires WorldInv(w) && w.facadeAlive && k < |w.leases|
    ensures Apply(v, w.(facadeAlive := false), ReleaseLease(k)).Ok?
    ensures Apply(v, w.(facadeAlive := false), ReleaseLease(k)).world
      == Apply(v, w, ReleaseLease(k)).world.(facadeAlive := false)
  {
    ReleaseStepInv(w, k);
  }

  /** With the corrected take every run keeps every constructed instance
      (`getSize()` equals the number of constructions, so it never shrinks)
      and `getTaken()` equals the number of leases still active. */
  lemma {:induction false} CorrectedRunKeepsCounts(steps: seq<Step>)
    ensures Run(FrontCorrected, steps).Ok? ==>
      var w := Run(FrontCorrected, steps).world;
      && CorrectedInv(w)
      && Size(w.storage) == w.storage.constructed
      && TakenCount(w.storage) == Outstanding(w.leases)
    decreases |steps|
  {
    if |steps| > 0 {
      CorrectedRunKeepsCounts(steps[..|steps| - 1]);
      var prev := Run(FrontCorrected, steps[..|steps| - 1]);
      if prev.Ok? {
        ApplyInv(FrontCorrected, prev.world, steps[|steps| - 1]);
      }
    }
    if Run(FrontCorrected, steps).Ok? {
      var w := Run(FrontCorrected, steps).world;
      assert w.storage.taken == w.storage.taken - {None};
      HeldCard(w.leases);
    }
  }
}
