/**
 * The dependency store of the mock execution site used by the tests: a map from
 * transaction id to the table a fragment produced for it, and a map from
 * transaction id to the count of the latch a waiter blocks on.
 *
 * All three operations are synchronized on the site, and a waiter keeps the
 * monitor while it awaits its latch, so no store can run between the waiter's
 * first and second look at the map: calls happen one after another, and the
 * model is sequential.
 */
module MockExecutionSite {
  import opened Wrappers

  /** What a failed waitForDependency throws: a RuntimeException wrapping the InterruptedException. */
  datatype Failure = Interrupted

  datatype Outcome<T> = Returned(value: T) | Thrown(error: Failure)

  /** HashMap.get: a missing key and a stored null both read as null. */
  function Lookup<V>(m: map<int, Option<V>>, txnId: int): Option<V>
  {
    if txnId in m then m[txnId] else None
  }

  /** CountDownLatch.countDown: one less, but never below zero. */
  function CountDown(count: nat): nat
  {
    if count == 0 then 0 else count - 1
  }

  /** The two maps of a site. */
  datatype SiteState<V> = SiteState(dependencies: map<int, Option<V>>, latches: map<int, nat>)

  /** One call on the site, with what the caller passes. */
  datatype Call<V> =
    | Store(txnId: int, senderPartitionId: int, dependencyId: int, data: Option<V>)
    | Get(txnId: int)
    | Wait(txnId: int, interrupted: bool)

  /** The state after storeDependency: the value is put (overwriting any earlier one),
      and an existing latch for the transaction is counted down. */
  function AfterStore<V>(s: SiteState<V>, txnId: int, data: Option<V>): (r: SiteState<V>)
    ensures Lookup(r.dependencies, txnId) == data
    ensures forall t :: t != txnId ==> Lookup(r.dependencies, t) == Lookup(s.dependencies, t)
    ensures r.latches.Keys == s.latches.Keys
    ensures txnId in s.latches ==> r.latches[txnId] == CountDown(s.latches[txnId])
    ensures forall t :: t in s.latches && t != txnId ==> r.latches[t] == s.latches[t]
  {
    SiteState(
      s.dependencies[txnId := data],
      if txnId in s.latches then s.latches[txnId := CountDown(s.latches[txnId])] else s.latches)
  }

  /** The state after waitForDependency: when no value is present, a latch of count one is
      registered unless one exists already; the stored values are never touched. */
  function AfterWait<V>(s: SiteState<V>, txnId: int): (r: SiteState<V>)
    ensures r.dependencies == s.dependencies
    ensures Lookup(s.dependencies, txnId).Some? ==> r.latches == s.latches
    ensures Lookup(s.dependencies, txnId).None? ==> txnId in r.latches
    ensures r.latches.Keys == s.latches.Keys + (if Lookup(s.dependencies, txnId).None? then {txnId} else {})
    ensures forall t :: t in s.latches ==> r.latches[t] == s.latches[t]
    ensures txnId !in s.latches && Lookup(s.dependencies, txnId).None? ==> r.latches[txnId] == 1
  {
    if Lookup(s.dependencies, txnId).None? && txnId !in s.latches
    then SiteState(s.dependencies, s.latches[txnId := 1])
    else s
  }

  /** What waitForDependency returns: the value present when it was called; an absent
      value reads as null after the timed wait, unless the wait was interrupted. */
  function WaitResult<V>(s: SiteState<V>, txnId: int, interrupted: bool): (r: Outcome<Option<V>>)
    ensures Lookup(s.dependencies, txnId).Some? ==> r == Returned(Lookup(s.dependencies, txnId))
    ensures Lookup(s.dependencies, txnId).None? ==> r == if interrupted then Thrown(Interrupted) else Returned(None)
  {
    var vt := Lookup(s.dependencies, txnId);
    if vt.None? && interrupted then Thrown(Interrupted) else Returned(vt)
  }

  function Step<V>(s: SiteState<V>, c: Call<V>): SiteState<V>
  {
    match c
    case Store(txnId, _, _, data) => AfterStore(s, txnId, data)
    case Get(_) => s
    case Wait(txnId, _) => AfterWait(s, txnId)
  }

  /** The state after the calls, in order. */
  function Run<V>(s: SiteState<V>, calls: seq<Call<V>>): SiteState<V>
    decreases |calls|
  {
    if calls == [] then s else Run(Step(s, calls[0]), calls[1..])
  }

  /** No call in the sequence stores a value for txnId. */
  predicate NoStoreFor<V>(calls: seq<Call<V>>, txnId: int)
  {
    forall i :: 0 <= i < |calls| ==> !(calls[i].Store? && calls[i].txnId == txnId)
  }

  /** A value stays readable until the next store for the same transaction: neither
      stores for other transactions nor waits nor reads disturb it. */
  lemma {:induction false} ValueSurvives<V>(s: SiteState<V>, calls: seq<Call<V>>, txnId: int)
    requires NoStoreFor(calls, txnId)
    ensures Lookup(Run(s, calls).dependencies, txnId) == Lookup(s.dependencies, txnId)
    decreases |calls|
  {
    if calls != [] {
      assert NoStoreFor(calls[1..], txnId) by {
        forall i | 0 <= i < |calls[1..]| ensures !(calls[1..][i].Store? && calls[1..][i].txnId == txnId) {
          assert calls[1..][i] == calls[i + 1];
        }
      }
      assert !(calls[0].Store? && calls[0].txnId == txnId);
      ValueSurvives(Step(s, calls[0]), calls[1..], txnId);
    }
  }

  /** storeDependency followed by any calls that do not store for the same transaction:
      getDependency returns the stored data, and a wait with a non-null value returns it. */
  lemma StoreThenRead<V>(s: SiteState<V>, txnId: int, sender: int, dependencyId: int, data: Option<V>,
                         rest: seq<Call<V>>, interrupted: bool)
    requires NoStoreFor(rest, txnId)
    ensures Lookup(Run(s, [Store(txnId, sender, dependencyId, data)] + rest).dependencies, txnId) == data
    ensures data.Some? ==>
      WaitResult(Run(s, [Store(txnId, sender, dependencyId, data)] + rest), txnId, interrupted) == Returned(data)
  {
    var calls := [Store(txnId, sender, dependencyId, data)] + rest;
    assert calls[0] == Store(txnId, sender, dependencyId, data) && calls[1..] == rest;
    ValueSurvives(AfterStore(s, txnId, data), rest, txnId);
  }

  /** Without stores, the stored values never change: reads and waits only read them. */
  lemma {:induction false} OnlyStoresWrite<V>(s: SiteState<V>, calls: seq<Call<V>>)
    requires forall i :: 0 <= i < |calls| ==> !calls[i].Store?
    ensures Run(s, calls).dependencies == s.dependencies
    decreases |calls|
  {
    if calls != [] {
      assert forall i :: 0 <= i < |calls[1..]| ==> calls[1..][i] == calls[i + 1];
      OnlyStoresWrite(Step(s, calls[0]), calls[1..]);
    }
  }

  /** A latch, once registered, is never removed, and its count never grows. */
  lemma {:induction false} LatchesPersist<V>(s: SiteState<V>, calls: seq<Call<V>>)
    ensures s.latches.Keys <= Run(s, calls).latches.Keys
    ensures forall t :: t in s.latches ==> Run(s, calls).latches[t] <= s.latches[t]
    decreases |calls|
  {
    if calls != [] {
      LatchesPersist(Step(s, calls[0]), calls[1..]);
    }
  }

  /** The sender partition and the dependency id do not influence the store. */
  lemma StoreIgnoresSender<V>(s: SiteState<V>, txnId: int, sender1: int, dep1: int, sender2: int, dep2: int, data: Option<V>)
    ensures Step(s, Store(txnId, sender1, dep1, data)) == Step(s, Store(txnId, sender2, dep2, data))
  {
  }

  class MockExecutionSite<V> {
    var dependencies: map<int, Option<V>>
    var latches: map<int, nat>

    function State(): SiteState<V>
      reads this
    {
      SiteState(dependencies, latches)
    }

    /** The partition id, catalog and estimator go to the base class, which is not part of this model. */
    constructor ()
      ensures dependencies == map[] && latches == map[]
    {
      dependencies := map[];
      latches := map[];
    }

    method StoreDependency(txnId: int, senderPartitionId: int, dependencyId: int, data: Option<V>)
      modifies this
      ensures dependencies == old(dependencies)[txnId := data]
      ensures latches == if txnId in old(latches) then old(latches)[txnId := CountDown(old(latches)[txnId])] else old(latches)
      ensures State() == Step(old(State()), Store(txnId, senderPartitionId, dependencyId, data))
    {
      dependencies := dependencies[txnId := data];
      if txnId in latches {
        latches := latches[txnId := CountDown(latches[txnId])];
      }
    }

    method GetDependency(txnId: int) returns (r: Option<V>)
      ensures r == Lookup(dependencies, txnId)
      ensures txnId !in dependencies ==> r == None
    {
      r := if txnId in dependencies then dependencies[txnId] else None;
    }

    /** interrupted: whether the thread is interrupted while it awaits the latch. The 100 ms
        timeout is not modelled: the store that would count the latch down cannot run while
        this method holds the monitor, so the wait ends with the value still absent. */
    method WaitForDependency(txnId: int, interrupted: bool) returns (out: Outcome<Option<V>>)
      modifies this
      ensures dependencies == old(dependencies)
      ensures Lookup(old(dependencies), txnId).Some? ==> latches == old(latches)
      ensures Lookup(old(dependencies), txnId).None? ==>
        latches == if txnId in old(latches) then old(latches) else old(latches)[txnId := 1]
      ensures out == WaitResult(old(State()), txnId, interrupted)
      ensures State() == Step(old(State()), Wait(txnId, interrupted))
    {
      var vt := Lookup(dependencies, txnId);
      if vt.None? {
        if txnId !in latches {
          latches := latches[txnId := 1];
        }
        if interrupted {
          return Thrown(Interrupted);
        }
        vt := Lookup(dependencies, txnId);
      }
      return Returned(vt);
    }
  }
}
