/**
 * The producer of the fan-out pipeline: it starts every consumer, routes each input
 * item to one consumer's queue through its transform, and then tells every consumer
 * to stop once its queue is empty. Consumers are objects holding a queue, a started
 * flag, a stop flag and a processed counter; their threads are not part of this model.
 */
module Producer {
  import opened Wrappers
  import opened Sums
  import opened Seqs

  /** A worker with its own queue. Consumer's own source is not part of this model:
      its methods are modelled by the state they are called to change. */
  class Consumer<U> {
    var queue: seq<U>
    var started: bool
    var stopWhenEmpty: bool
    /** Advanced by the consumer's thread for every item it has processed. */
    var processed: int

    constructor ()
      ensures queue == [] && !started && !stopWhenEmpty && processed == 0
    {
      queue, started, stopWhenEmpty, processed := [], false, false, 0;
    }

    method Start()
      modifies this
      ensures started
      ensures queue == old(queue) && stopWhenEmpty == old(stopWhenEmpty) && processed == old(processed)
    {
      started := true;
    }

    method Queue(item: U)
      modifies this
      ensures queue == old(queue) + [item]
      ensures started == old(started) && stopWhenEmpty == old(stopWhenEmpty) && processed == old(processed)
    {
      queue := queue + [item];
    }

    method StopWhenEmpty()
      modifies this
      ensures stopWhenEmpty
      ensures queue == old(queue) && started == old(started) && processed == old(processed)
    {
      stopWhenEmpty := true;
    }
  }

  /** What transform returns: a Pair of a consumer and an item, where the pair itself
      and either of its components may be null. */
  datatype Pair<U> = NullPair | Pair(first: Option<Consumer<U>>, second: Option<U>)

  /** What one call of the subclass's transform does: return a pair, or throw. */
  datatype Routed<U> = Returns(pair: Pair<U>) | Throws

  /** The producer's transform: the subclass's own, or defaultTransform.
      route(j, t) is what the call on item t does when j calls came before it. run calls
      transform once per item, in input order, so this also covers a transform that keeps
      state across calls.
      cast stands for the unchecked cast (U) t of defaultTransform, which passes a null
      input element through as null. */
  datatype Transform<!T, U> = Custom(route: (nat, T) -> Routed<U>) | Default(cast: T -> Option<U>)

  /** A call the producer makes on a consumer. */
  datatype Event<U> = Started(who: Consumer<U>) | Queued(who: Consumer<U>, item: U) | StopRequested(who: Consumer<U>)

  /** The element of getRunnablesList: the producer itself or one of its consumers. */
  datatype Runnable<T, U> = ProducerTask(producer: Producer<T, U>) | ConsumerTask(consumer: Consumer<U>)

  /** How run ends: normally, with an AssertionError, or with the exception the subclass's
      transform threw, at the item with the given index. */
  datatype RunStatus = Completed | AssertionError(index: nat) | TransformError(index: nat)

  /** The pair passes the three assertions of run: neither it nor its parts are null. */
  predicate ValidPair<U>(p: Pair<U>)
  {
    p.Pair? && p.first.Some? && p.second.Some?
  }

  /** es calls the same method (start, or stopWhenEmpty) once on every member of cs and on nothing else. */
  ghost predicate OnceEach<U>(es: seq<Event<U>>, cs: set<Consumer<U>>, starts: bool)
  {
    && (forall i :: 0 <= i < |es| ==> es[i].who in cs && (if starts then es[i].Started? else es[i].StopRequested?))
    && (forall i, j :: 0 <= i < j < |es| ==> es[i].who != es[j].who)
    && Callees(es) == cs
  }

  /** The consumers es calls. */
  ghost function Callees<U>(es: seq<Event<U>>): set<Consumer<U>>
  {
    set i | 0 <= i < |es| :: es[i].who
  }

  /** The items es queues on c, in the order they were queued. */
  function ItemsFor<U>(es: seq<Event<U>>, c: Consumer<U>): seq<U>
    decreases |es|
  {
    if es == [] then []
    else
      var e := es[|es| - 1];
      ItemsFor(es[..|es| - 1], c) + if e.Queued? && e.who == c then [e.item] else []
  }

  /** One more event adds at most its own item to one consumer's items. */
  lemma ItemsForAppend<U>(es: seq<Event<U>>, e: Event<U>, c: Consumer<U>)
    ensures ItemsFor(es + [e], c) == ItemsFor(es, c) + if e.Queued? && e.who == c then [e.item] else []
  {
    assert (es + [e])[..|es|] == es;
  }

  /** How many items es queues on each member of cs. */
  function QueuedCounts<U>(es: seq<Event<U>>, cs: set<Consumer<U>>): map<Consumer<U>, int>
  {
    map c | c in cs :: |ItemsFor(es, c)|
  }

  /** When every event of es queues one item on a member of cs, the queues of cs receive
      |es| items in all: each item goes to exactly one queue. */
  lemma {:induction false} QueuedExactlyOnce<U>(es: seq<Event<U>>, cs: set<Consumer<U>>)
    requires forall i :: 0 <= i < |es| ==> es[i].Queued? && es[i].who in cs
    ensures MapSum(QueuedCounts(es, cs)) == |es|
    decreases |es|, |cs|
  {
    if es == [] {
      var z: map<Consumer<U>, int> := QueuedCounts(es, cs);
      if z != map[] {
        var c := Pick(z);
        MapSumRemove(z, c);
        assert z - {c} == QueuedCounts(es, cs - {c});
        assert |cs - {c}| < |cs| by { assert c in cs; }
        QueuedExactlyOnce(es, cs - {c});
      }
    } else {
      var init, e := es[..|es| - 1], es[|es| - 1];
      assert forall i :: 0 <= i < |init| ==> init[i] == es[i];
      QueuedExactlyOnce(init, cs);
      var before: map<Consumer<U>, int> := QueuedCounts(init, cs);
      assert es[..|es| - 1] == init;
      forall c | c in cs ensures |ItemsFor(es, c)| == |ItemsFor(init, c)| + if c == e.who then 1 else 0 {
      }
      assert QueuedCounts(es, cs) == before[e.who := before[e.who] + 1];
      MapSumUpdate(before, e.who, before[e.who] + 1);
    }
  }

  /** The call of start (or of stopWhenEmpty) on each consumer of order, in that order. */
  ghost function Calls<U>(order: seq<Consumer<U>>, starts: bool): seq<Event<U>>
    decreases |order|
  {
    if order == [] then []
    else
      var c := order[|order| - 1];
      Calls(order[..|order| - 1], starts) + [if starts then Started(c) else StopRequested(c)]
  }

  /** Visiting each member of cs once, in any order, calls the method once on each. */
  lemma {:induction false} CallsOnceEach<U>(order: seq<Consumer<U>>, cs: set<Consumer<U>>, starts: bool)
    requires Distinct(order) && Elements(order) == cs
    ensures OnceEach(Calls(order, starts), cs, starts) && |Calls(order, starts)| == |cs|
  {
    var es := Calls(order, starts);
    CallsAt(order, starts);
    assert Callees(es) == cs by {
      assert forall i :: 0 <= i < |es| ==> es[i].who == order[i];
      assert forall c :: c in cs ==> exists i :: 0 <= i < |order| && order[i] == c;
    }
    DistinctCard(order);
  }

  /** The i-th call of Calls(order, starts) is the call on order[i]. */
  lemma {:induction false} CallsAt<U>(order: seq<Consumer<U>>, starts: bool)
    ensures |Calls(order, starts)| == |order|
    ensures forall i :: 0 <= i < |order| ==>
      Calls(order, starts)[i] == if starts then Started(order[i]) else StopRequested(order[i])
    decreases |order|
  {
    if order != [] {
      var init := order[..|order| - 1];
      CallsAt(init, starts);
      assert forall i :: 0 <= i < |init| ==> init[i] == order[i];
    }
  }

  /** The processed counter of every member of cs. */
  ghost function ProcessedBy<U>(cs: set<Consumer<U>>): map<Consumer<U>, int>
    reads cs
  {
    map c | c in cs :: c.processed
  }

  class Producer<T, U> {
    /** The Iterable the producer consumes. */
    const input: seq<T>
    const transform: Transform<T, U>
    var consumers: set<Consumer<U>>
    /** Every call this producer has made on a consumer, in order. */
    ghost var trace: seq<Event<U>>

    constructor (it: seq<T>, transform: Transform<T, U>)
      ensures input == it && this.transform == transform
      ensures consumers == {} && trace == []
    {
      input, this.transform := it, transform;
      consumers, trace := {}, [];
    }

    constructor WithConsumers(it: seq<T>, transform: Transform<T, U>, cs: set<Consumer<U>>)
      ensures input == it && this.transform == transform
      ensures consumers == cs && trace == []
    {
      input, this.transform := it, transform;
      consumers, trace := cs, [];
    }

    /** The consumers a custom transform routes some input item to. */
    ghost function Targets(): set<Consumer<U>>
    {
      set j | 0 <= j < |input| && transform.Custom? && transform.route(j, input[j]).Returns?
                && transform.route(j, input[j]).pair.Pair? && transform.route(j, input[j]).pair.first.Some?
        :: transform.route(j, input[j]).pair.first.value
    }

    /** The transform call for item j returns rather than throws. defaultTransform always returns. */
    predicate CallReturns(j: int)
      requires 0 <= j < |input|
    {
      transform.Custom? ==> transform.route(j, input[j]).Returns?
    }

    /** Item j passes run's assertions: its transform call returns a pair, and neither the
        pair nor its parts are null. Under the default route that fails exactly for a null
        input element. */
    predicate Routable(j: int)
      requires 0 <= j < |input|
    {
      match transform
      case Custom(route) => route(j, input[j]).Returns? && ValidPair(route(j, input[j]).pair)
      case Default(cast) => cast(input[j]).Some?
    }

    /** Event e is the queue call run makes for item j. */
    ghost predicate RoutedAs(j: int, e: Event<U>, cs: set<Consumer<U>>)
      requires 0 <= j < |input|
    {
      && e.Queued?
      && (transform.Custom? ==> transform.route(j, input[j]) == Returns(Pair(Some(e.who), Some(e.item))))
      && (transform.Default? ==> e.who in cs && transform.cast(input[j]) == Some(e.item))
    }

    method AddConsumer(consumer: Consumer<U>)
      modifies this
      ensures consumers == old(consumers) + {consumer}
      ensures consumer in old(consumers) ==> consumers == old(consumers)
      ensures trace == old(trace)
    {
      consumers := consumers + {consumer};
    }

    /** Pairs the item itself, cast to U, with some consumer; which one is unspecified,
        as the random choice of the source is. */
    method DefaultTransform(t: T, cast: T -> Option<U>) returns (p: Pair<U>)
      requires consumers != {}
      ensures p.Pair? && p.first.Some? && p.first.value in consumers && p.second == cast(t)
      ensures ValidPair(p) <==> cast(t).Some?
    {
      var c :| c in consumers;
      p := Pair(Some(c), cast(t));
    }

    /** The subclass's transform, called on item t after j earlier calls: its own, which
        may throw, or defaultTransform. */
    method Transform(j: nat, t: T) returns (r: Routed<U>)
      requires transform.Default? ==> consumers != {}
      ensures transform.Custom? ==> r == transform.route(j, t)
      ensures transform.Default? ==>
        r.Returns? && r.pair.Pair? && r.pair.first.Some? && r.pair.first.value in consumers
        && r.pair.second == transform.cast(t)
    {
      if transform.Custom? {
        r := transform.route(j, t);
      } else {
        var p := DefaultTransform(t, transform.cast);
        r := Returns(p);
      }
    }

    /** How many items run queues before it ends with status. */
    function QueuedCount(status: RunStatus): nat
    {
      if !status.Completed? && status.index < |input| then status.index else |input|
    }

    /** run. starts, queued and stops are the calls its three loops make, in order. */
    method Run() returns (status: RunStatus, ghost starts: seq<Event<U>>, ghost queued: seq<Event<U>>, ghost stops: seq<Event<U>>)
      requires transform.Default? && |input| > 0 ==> consumers != {}
      requires forall c :: c in Targets() ==> allocated(c)
      modifies this, consumers, Targets()
      ensures consumers == old(consumers)
      // run ends at the first item whose transform throws or whose pair is null or has a
      // null part: with the transform's exception or with an AssertionError
      ensures status == Completed <==> forall j :: 0 <= j < |input| ==> Routable(j)
      ensures !status.Completed? ==>
        && status.index < |input| && !Routable(status.index)
        && (status.TransformError? <==> !CallReturns(status.index))
        && forall j :: 0 <= j < status.index ==> Routable(j)
      // first every consumer is started, then each item is queued once, in input order,
      // then, when run did not end early, every consumer is told to stop when empty
      ensures trace == old(trace) + starts + queued + stops
      ensures OnceEach(starts, consumers, true)
      ensures |queued| == QueuedCount(status)
      ensures forall j :: 0 <= j < |queued| ==> RoutedAs(j, queued[j], consumers)
      ensures if status == Completed then OnceEach(stops, consumers, false) else stops == []
      ensures forall c: Consumer<U> :: old(allocated(c)) ==>
        && c.started == (old(c.started) || c in consumers)
        && c.queue == old(c.queue) + ItemsFor(queued, c)
        && c.stopWhenEmpty == (old(c.stopWhenEmpty) || (status == Completed && c in consumers))
        && c.processed == old(c.processed)
    {
      starts := StartAll();
      status, queued := QueueAll();
      stops := [];
      if status == Completed {
        stops := StopAll();
      }
    }

    /** The first loop of run: every consumer is started, once. */
    method StartAll() returns (ghost starts: seq<Event<U>>)
      modifies this, consumers
      ensures consumers == old(consumers)
      ensures trace == old(trace) + starts && OnceEach(starts, consumers, true)
      ensures forall c: Consumer<U> :: old(allocated(c)) ==>
        && c.started == (old(c.started) || c in consumers)
        && c.queue == old(c.queue) && c.stopWhenEmpty == old(c.stopWhenEmpty) && c.processed == old(c.processed)
    {
      var order := Enumerate(consumers);
      for i := 0 to |order|
        invariant forall j :: 0 <= j < i ==> order[j].started
        invariant forall c: Consumer<U> :: old(allocated(c)) && !(c in consumers && c.started) ==> c.started == old(c.started)
        invariant forall c: Consumer<U> :: old(allocated(c)) ==>
          c.queue == old(c.queue) && c.stopWhenEmpty == old(c.stopWhenEmpty) && c.processed == old(c.processed)
        invariant consumers == old(consumers)
        invariant trace == old(trace) + Calls(order[..i], true)
        modifies this, consumers
      {
        assert order[i] in Elements(order);
        order[i].Start();
        assert order[..i + 1][..i] == order[..i];
        trace := trace + [Started(order[i])];
      }
      assert order[..|order|] == order;
      starts := Calls(order, true);
      CallsOnceEach(order, consumers, true);
      forall c | c in consumers ensures c.started {
        assert c in Elements(order);
      }
    }

    /** The second loop of run: each item goes to the queue its pair names, until a
        transform call throws or a pair fails the assertions. */
    method QueueAll() returns (status: RunStatus, ghost queued: seq<Event<U>>)
      requires transform.Default? && |input| > 0 ==> consumers != {}
      requires forall c :: c in Targets() ==> allocated(c)
      modifies this, consumers, Targets()
      ensures consumers == old(consumers)
      ensures status == Completed <==> forall j :: 0 <= j < |input| ==> Routable(j)
      ensures !status.Completed? ==>
        && status.index < |input| && !Routable(status.index)
        && (status.TransformError? <==> !CallReturns(status.index))
        && forall j :: 0 <= j < status.index ==> Routable(j)
      ensures trace == old(trace) + queued && |queued| == QueuedCount(status)
      ensures forall j :: 0 <= j < |queued| ==> RoutedAs(j, queued[j], consumers)
      ensures forall c: Consumer<U> :: old(allocated(c)) ==>
        && c.queue == old(c.queue) + ItemsFor(queued, c)
        && c.started == old(c.started) && c.stopWhenEmpty == old(c.stopWhenEmpty) && c.processed == old(c.processed)
    {
      queued := [];
      status := Completed;
      var j := 0;
      while j < |input|
        invariant 0 <= j <= |input| && |queued| == j && status == Completed
        invariant forall i :: 0 <= i < j ==> Routable(i) && RoutedAs(i, queued[i], consumers)
        invariant forall c: Consumer<U> :: old(allocated(c)) ==>
          && c.queue == old(c.queue) + ItemsFor(queued, c)
          && c.started == old(c.started) && c.stopWhenEmpty == old(c.stopWhenEmpty) && c.processed == old(c.processed)
        modifies consumers, Targets()
      {
        var ok, threw, e := QueueItem(j);
        if !ok {
          status := if threw then TransformError(j) else AssertionError(j);
          break;
        }
        forall d: Consumer<U> | old(allocated(d))
          ensures d.queue == old(d.queue) + ItemsFor(queued + [e.value], d)
        {
          ItemsForAppend(queued, e.value, d);
        }
        queued := queued + [e.value];
        j := j + 1;
      }
      trace := trace + queued;
    }

    /** One pass of the second loop: the transform call for input[j], the assertions on its
        pair, and the call that queues its item. threw says the transform threw; e is the
        queue call, when the assertions hold. */
    method QueueItem(j: int) returns (ok: bool, threw: bool, ghost e: Option<Event<U>>)
      requires 0 <= j < |input|
      requires transform.Default? ==> consumers != {}
      requires forall c :: c in Targets() ==> allocated(c)
      modifies consumers, Targets()
      ensures ok == Routable(j) && ok == e.Some?
      ensures threw == !CallReturns(j)
      ensures ok ==> RoutedAs(j, e.value, consumers)
      ensures forall c: Consumer<U> :: old(allocated(c)) ==>
        && c.queue == old(c.queue) + (if ok && c == e.value.who then [e.value.item] else [])
        && c.started == old(c.started) && c.stopWhenEmpty == old(c.stopWhenEmpty) && c.processed == old(c.processed)
    {
      var r := Transform(j, input[j]);
      if r.Throws? {
        return false, true, None;
      }
      var p := r.pair;
      if !ValidPair(p) {
        return false, false, None;
      }
      var c, item := p.first.value, p.second.value;
      assert transform.Custom? ==> c in Targets();
      c.Queue(item);
      ok, threw, e := true, false, Some(Queued(c, item));
    }

    /** The third loop of run: every consumer is told, once, to stop when its queue is empty. */
    method StopAll() returns (ghost stops: seq<Event<U>>)
      modifies this, consumers
      ensures consumers == old(consumers)
      ensures trace == old(trace) + stops && OnceEach(stops, consumers, false)
      ensures forall c: Consumer<U> :: old(allocated(c)) ==>
        && c.stopWhenEmpty == (old(c.stopWhenEmpty) || c in consumers)
        && c.queue == old(c.queue) && c.started == old(c.started) && c.processed == old(c.processed)
    {
      var order := Enumerate(consumers);
      for i := 0 to |order|
        invariant forall j :: 0 <= j < i ==> order[j].stopWhenEmpty
        invariant forall c: Consumer<U> :: old(allocated(c)) && !(c in consumers && c.stopWhenEmpty) ==> c.stopWhenEmpty == old(c.stopWhenEmpty)
        invariant forall c: Consumer<U> :: old(allocated(c)) ==>
          c.queue == old(c.queue) && c.started == old(c.started) && c.processed == old(c.processed)
        invariant consumers == old(consumers)
        invariant trace == old(trace) + Calls(order[..i], false)
        modifies this, consumers
      {
        assert order[i] in Elements(order);
        order[i].StopWhenEmpty();
        assert order[..i + 1][..i] == order[..i];
        trace := trace + [StopRequested(order[i])];
      }
      assert order[..|order|] == order;
      stops := Calls(order, false);
      CallsOnceEach(order, consumers, false);
      forall c | c in consumers ensures c.stopWhenEmpty {
        assert c in Elements(order);
      }
    }

    /** The sum of the processed counters of all consumers. */
    method GetTotalProcessed() returns (total: int)
      ensures total == MapSum(ProcessedBy(consumers))
      ensures consumers == {} ==> total == 0
    {
      total := 0;
      var rest := consumers;
      ghost var done: set<Consumer<U>> := {};
      while rest != {}
        invariant rest + done == consumers && rest !! done
        invariant total == MapSum(ProcessedBy(done))
        decreases rest
      {
        var c :| c in rest;
        MapSumAdd(ProcessedBy(done), c, c.processed);
        assert ProcessedBy(done + {c}) == ProcessedBy(done)[c := c.processed];
        total := total + c.processed;
        rest, done := rest - {c}, done + {c};
      }
    }

    /** The producer first, then each consumer once. */
    method GetRunnablesList() returns (runnables: seq<Runnable<T, U>>)
      ensures |runnables| == 1 + |consumers|
      ensures runnables[0] == ProducerTask(this)
      ensures forall i :: 1 <= i < |runnables| ==> runnables[i].ConsumerTask? && runnables[i].consumer in consumers
      ensures forall i, j :: 1 <= i < j < |runnables| ==> runnables[i] != runnables[j]
      ensures forall c :: c in consumers ==> ConsumerTask(c) in runnables
    {
      var order := Enumerate(consumers);
      runnables := [ProducerTask(this)];
      for i := 0 to |order|
        invariant |runnables| == 1 + i && runnables[0] == ProducerTask(this)
        invariant forall j :: 0 <= j < i ==> runnables[j + 1] == ConsumerTask(order[j])
      {
        runnables := runnables + [ConsumerTask(order[i])];
      }
      assert forall i :: 1 <= i < |runnables| ==> runnables[i] == ConsumerTask(order[i - 1]) && order[i - 1] in Elements(order);
      forall c | c in consumers ensures ConsumerTask(c) in runnables {
        assert c in Elements(order);
        var j :| 0 <= j < |order| && order[j] == c;
        assert runnables[j + 1] == ConsumerTask(c);
      }
    }
  }

  /** A once-each sequence has one call per member of the set. */
  lemma OnceEachLength<U>(es: seq<Event<U>>, cs: set<Consumer<U>>, starts: bool)
    requires OnceEach(es, cs, starts)
    ensures |es| == |cs|
  {
    var w := seq(|es|, i requires 0 <= i < |es| => es[i].who);
    assert Elements(w) == Callees(es) by {
      assert forall i :: 0 <= i < |es| ==> w[i] == es[i].who;
    }
    DistinctCard(w);
  }

  /** Counted over every consumer that is in the set or receives an item, the queues of
      run receive exactly as many items as it queued: no item is lost or queued twice. */
  lemma EveryItemQueuedOnce<T, U>(p: Producer<T, U>, queued: seq<Event<U>>)
    requires |queued| <= |p.input|
    requires forall j :: 0 <= j < |queued| ==> p.RoutedAs(j, queued[j], p.consumers)
    ensures MapSum(QueuedCounts(queued, p.consumers + Callees(queued))) == |queued|
  {
    assert forall i :: 0 <= i < |queued| ==> queued[i].who in Callees(queued);
    QueuedExactlyOnce(queued, p.consumers + Callees(queued));
  }

  /** The one way to build a producer that routes with defaultTransform. */
  method DefaultProducer<T, U>(it: seq<T>, cast: T -> Option<U>) returns (p: Producer<T, U>)
    ensures fresh(p) && p.input == it && p.transform.Default? && p.transform.cast == cast
    ensures p.consumers == {} && p.trace == []
  {
    p := new Producer(it, Default(cast));
  }
}
